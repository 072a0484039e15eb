/**
 Encrypting stored credentials under one key and reading them back under
 several: the stored format, and when an old key may be dropped. The cipher is
 abstract; what is assumed of it is said where it is used.
 */
module Keyring {
  import opened Prelude
  import opened Text
  import opened Base64

  // Authenticated encryption under one key. Seal returns the ciphertext alone.
  datatype Aead = Aead(nonceSize: nat,
                       seal: (seq<byte>, string) -> seq<byte>,
                       open: (seq<byte>, seq<byte>) -> Option<string>)

  // Opening undoes sealing.
  ghost predicate Works(a: Aead) {
    forall nonce, text :: a.open(nonce, a.seal(nonce, text)) == Some(text)
  }

  datatype KeyEntry = KeyEntry(id: string, aead: Aead)

  datatype KeySet = KeySet(primary: KeyEntry, retired: seq<KeyEntry>)

  datatype Result = Ok(text: string) | Err(why: Failure)

  datatype Failure = NoKey | BadFormat | NotBase64 | UnknownKey(id: string) | CannotOpen

  const PREFIX_V1: string := "enc:v1:"
  const PREFIX_V2: string := "enc:v2:"

  // A fingerprint is hexadecimal: not empty, and free of the separator.
  ghost predicate GoodId(id: string) { id != "" && ':' !in id }

  predicate IsEncrypted(value: string) { HasPrefix(value, PREFIX_V1) || HasPrefix(value, PREFIX_V2) }

  /******* Encrypt *******/

  function Encrypt(keys: Option<KeySet>, text: string, nonce: seq<byte>): Result {
    if text == "" then Ok("")
    else if keys.None? then Err(NoKey)
    else
      var primary := keys.value.primary;
      Ok(PREFIX_V2 + primary.id + ":" + Encode(Std, nonce + primary.aead.seal(nonce, text)))
  }

  /******* Decrypt *******/

  datatype Split = Split(id: string, payload: seq<byte>) | NoSplit(why: Failure)

  function SplitValue(value: string): Split {
    if HasPrefix(value, PREFIX_V2) then
      var rest := value[|PREFIX_V2|..];
      match IndexOf(rest, ':')
      case None => NoSplit(BadFormat)
      case Some(i) =>
        (match Decode(Std, rest[i + 1..])
         case None => NoSplit(NotBase64)
         case Some(raw) => Split(rest[..i], raw))
    else if HasPrefix(value, PREFIX_V1) then
      (match Decode(Std, value[|PREFIX_V1|..])
       case None => NoSplit(NotBase64)
       case Some(raw) => Split("", raw))
    else NoSplit(BadFormat)
  }

  function OpenWith(e: KeyEntry, raw: seq<byte>): Option<string> {
    if |raw| < e.aead.nonceSize then None
    else e.aead.open(raw[..e.aead.nonceSize], raw[e.aead.nonceSize..])
  }

  function EntryFor(keys: KeySet, id: string): Option<KeyEntry> {
    if keys.primary.id == id then Some(keys.primary) else FirstWithId(keys.retired, id)
  }

  function FirstWithId(entries: seq<KeyEntry>, id: string): Option<KeyEntry> {
    if entries == [] then None
    else if entries[0].id == id then Some(entries[0])
    else FirstWithId(entries[1..], id)
  }

  // A value that names no key is tried against every key in turn.
  function OpenWithAny(entries: seq<KeyEntry>, raw: seq<byte>): Option<string> {
    if entries == [] then None
    else if OpenWith(entries[0], raw).Some? then OpenWith(entries[0], raw)
    else OpenWithAny(entries[1..], raw)
  }

  function Opened(r: Option<string>): Result {
    if r.Some? then Ok(r.value) else Err(CannotOpen)
  }

  function Decrypt(keys: Option<KeySet>, value: string): Result {
    if value == "" then Ok("")
    else if !IsEncrypted(value) then Ok(value)
    else if keys.None? then Err(NoKey)
    else match SplitValue(value)
      case NoSplit(why) => Err(why)
      case Split(id, payload) =>
        if id != "" then
          (match EntryFor(keys.value, id)
           case None => Err(UnknownKey(id))
           case Some(e) => Opened(OpenWith(e, payload)))
        else Opened(OpenWithAny([keys.value.primary] + keys.value.retired, payload))
  }

  // Whether a value should be rewritten under the primary key.
  predicate NeedsRotation(keys: Option<KeySet>, value: string) {
    && keys.Some? && value != "" && IsEncrypted(value)
    && SplitValue(value).Split? && SplitValue(value).id != keys.value.primary.id
  }

  /******* Decrypt undoes Encrypt *******/

  lemma {:induction false} SplitOfEncrypted(id: string, raw: seq<byte>)
    requires GoodId(id)
    ensures var value := PREFIX_V2 + id + ":" + Encode(Std, raw);
            IsEncrypted(value) && value != "" && SplitValue(value) == Split(id, raw)
  {
    var encoded := Encode(Std, raw);
    var value := PREFIX_V2 + id + ":" + encoded;
    assert value[..|PREFIX_V2|] == PREFIX_V2;
    var rest := value[|PREFIX_V2|..];
    assert rest == id + [':'] + encoded;
    FirstSplit(id, ':', encoded);
    DecodeUndoesEncode(Std, raw);
    hide Encode, Decode;
  }

  lemma {:induction false} OpenSealed(e: KeyEntry, nonce: seq<byte>, text: string)
    requires Works(e.aead) && |nonce| == e.aead.nonceSize
    ensures OpenWith(e, nonce + e.aead.seal(nonce, text)) == Some(text)
  {
    var raw := nonce + e.aead.seal(nonce, text);
    assert raw[..|nonce|] == nonce && raw[|nonce|..] == e.aead.seal(nonce, text);
  }

  /**
   Decrypt undoes Encrypt for every text, the empty one and those that look
   encrypted included, and whatever retired keys are configured. What is stored
   of any other text is its ciphertext, marked with the key.
   */
  lemma {:induction false} DecryptUndoesEncrypt(keys: KeySet, text: string, nonce: seq<byte>)
    requires Works(keys.primary.aead) && GoodId(keys.primary.id) && |nonce| == keys.primary.aead.nonceSize
    ensures Encrypt(Some(keys), text, nonce).Ok?
    ensures var value := Encrypt(Some(keys), text, nonce).text;
            && Decrypt(Some(keys), value) == Ok(text) && !NeedsRotation(Some(keys), value)
            && (text == "" ==> value == "")
            && (text != "" ==>
                  value == "enc:v2:" + keys.primary.id + ":" + Encode(Std, nonce + keys.primary.aead.seal(nonce, text)))
  {
    if text == "" {
    } else {
      var primary := keys.primary;
      var raw := nonce + primary.aead.seal(nonce, text);
      SplitOfEncrypted(primary.id, raw);
      OpenSealed(primary, nonce, text);
      hide SplitValue, IsEncrypted, Encode, OpenWith;
    }
  }

  /******* Rotation *******/

  function Alone(keys: KeySet): KeySet { KeySet(keys.primary, []) }

  // What a rotation writes back for a value it can read.
  function Rotated(keys: KeySet, value: string, nonce: seq<byte>): string {
    if NeedsRotation(Some(keys), value) && Decrypt(Some(keys), value).Ok?
       && Encrypt(Some(keys), Decrypt(Some(keys), value).text, nonce).Ok?
    then Encrypt(Some(keys), Decrypt(Some(keys), value).text, nonce).text
    else value
  }

  // A readable value that needs no rotation reads the same with the primary alone.
  lemma {:induction false} SettledReadsAlone(keys: KeySet, value: string)
    requires GoodId(keys.primary.id)
    requires Decrypt(Some(keys), value).Ok? && !NeedsRotation(Some(keys), value)
    ensures Decrypt(Some(Alone(keys)), value) == Decrypt(Some(keys), value)
  {
    hide SplitValue, IsEncrypted, OpenWith, OpenWithAny, FirstWithId;
  }

  /**
   A rotation is finishable and loses nothing: every value the keyring can
   read, plain, v1 or v2, is after rotation read to the same text by the
   primary key alone, and no longer needs rotating.
   */
  lemma {:induction false} RotationLosesNothing(keys: KeySet, value: string, nonce: seq<byte>)
    requires Works(keys.primary.aead) && GoodId(keys.primary.id) && |nonce| == keys.primary.aead.nonceSize
    requires Decrypt(Some(keys), value).Ok?
    ensures var after := Rotated(keys, value, nonce);
            && Decrypt(Some(Alone(keys)), after) == Decrypt(Some(keys), value)
            && !NeedsRotation(Some(keys), after)
            && !NeedsRotation(Some(Alone(keys)), after)
  {
    var text := Decrypt(Some(keys), value).text;
    if NeedsRotation(Some(keys), value) {
      DecryptUndoesEncrypt(keys, text, nonce);
      DecryptUndoesEncrypt(Alone(keys), text, nonce);
      hide Decrypt, Encrypt;
    } else {
      SettledReadsAlone(keys, value);
      hide Decrypt, Encrypt;
    }
  }

  /******* A whole key change *******/

  // No payload opens under two of the keys.
  ghost predicate Exclusive(entries: seq<KeyEntry>) {
    forall i, j, raw :: 0 <= i < j < |entries| ==> OpenWith(entries[i], raw).None? || OpenWith(entries[j], raw).None?
  }

  ghost predicate DistinctIds(entries: seq<KeyEntry>) {
    forall i, j :: 0 <= i < j < |entries| ==> entries[i].id != entries[j].id
  }

  function All(keys: KeySet): seq<KeyEntry> { [keys.primary] + keys.retired }

  // The old keys become retired ones behind a new primary.
  function Rekeyed(keys: KeySet, newer: KeyEntry): KeySet { KeySet(newer, All(keys)) }

  lemma {:induction false} EntryAmong(entries: seq<KeyEntry>, id: string)
    ensures FirstWithId(entries, id).Some? ==>
            exists i :: 0 <= i < |entries| && entries[i] == FirstWithId(entries, id).value && entries[i].id == id
  {
    if entries != [] && entries[0].id != id {
      EntryAmong(entries[1..], id);
      if FirstWithId(entries[1..], id).Some? {
        var i :| 0 <= i < |entries[1..]| && entries[1..][i] == FirstWithId(entries[1..], id).value
          && entries[1..][i].id == id;
        assert entries[i + 1].id == id;
      }
    }
  }

  lemma {:induction false} AnyAmong(entries: seq<KeyEntry>, raw: seq<byte>)
    ensures OpenWithAny(entries, raw).Some? ==>
            exists i :: 0 <= i < |entries| && OpenWith(entries[i], raw) == OpenWithAny(entries, raw)
  {
    if entries != [] && OpenWith(entries[0], raw).None? {
      AnyAmong(entries[1..], raw);
      if OpenWithAny(entries[1..], raw).Some? {
        var i :| 0 <= i < |entries[1..]| && OpenWith(entries[1..][i], raw) == OpenWithAny(entries[1..], raw);
        assert entries[i + 1] == entries[1..][i];
      }
    }
  }

  lemma {:induction false} OthersCannot(entries: seq<KeyEntry>, i: nat, j: nat, raw: seq<byte>)
    requires Exclusive(entries) && i < j < |entries| && OpenWith(entries[j], raw).Some?
    ensures OpenWith(entries[i], raw).None?
  {
    hide OpenWith;
  }

  // A new primary does not change what the old values read as.
  lemma {:induction false} RekeyedReads(keys: KeySet, newer: KeyEntry, value: string)
    requires Decrypt(Some(keys), value).Ok?
    requires DistinctIds(All(Rekeyed(keys, newer))) && Exclusive(All(Rekeyed(keys, newer)))
    ensures Decrypt(Some(Rekeyed(keys, newer)), value) == Decrypt(Some(keys), value)
  {
    var next := Rekeyed(keys, newer);
    if value != "" && IsEncrypted(value) {
      hide SplitValue, IsEncrypted;
      var s := SplitValue(value);
      var all, was := All(next), All(keys);
      assert all[0] == newer && all[1..] == was && was[0] == keys.primary && was[1..] == keys.retired;
      assert forall i :: 0 <= i < |was| ==> all[i + 1] == was[i];
      if s.id != "" {
        EntryAmong(was, s.id);
        assert FirstWithId(was, s.id) == EntryFor(keys, s.id);
        var i :| 0 <= i < |was| && was[i] == EntryFor(keys, s.id).value && was[i].id == s.id;
        assert all[0].id != all[i + 1].id;
      } else {
        AnyAmong(was, s.payload);
        var i :| 0 <= i < |was| && OpenWith(was[i], s.payload) == OpenWithAny(was, s.payload);
        OthersCannot(all, 0, i + 1, s.payload);
      }
    }
  }

  /******* What can be read *******/

  lemma {:induction false} AnyFinds(entries: seq<KeyEntry>, i: nat, raw: seq<byte>)
    requires i < |entries| && OpenWith(entries[i], raw).Some?
    requires forall j :: 0 <= j < i ==> OpenWith(entries[j], raw).None?
    ensures OpenWithAny(entries, raw) == OpenWith(entries[i], raw)
  {
    hide OpenWith;
    if i == 0 {
    } else {
      AnyFinds(entries[1..], i - 1, raw);
    }
  }

  lemma {:induction false} IdFinds(entries: seq<KeyEntry>, i: nat)
    requires i < |entries| && DistinctIds(entries)
    ensures FirstWithId(entries, entries[i].id) == Some(entries[i])
  {
    if i == 0 {
    } else {
      assert entries[0].id != entries[i].id;
      IdFinds(entries[1..], i - 1);
    }
  }

  lemma {:induction false} SplitOfUnnamed(raw: seq<byte>)
    ensures var value := "enc:v1:" + Encode(Std, raw);
            value != "" && IsEncrypted(value) && SplitValue(value) == Split("", raw)
  {
    var value := "enc:v1:" + Encode(Std, raw);
    assert value[..7] == "enc:v1:" && value[5] == '1' && value[7..] == Encode(Std, raw);
    assert !HasPrefix(value, PREFIX_V2) by { assert value[..7][5] == '1' && PREFIX_V2[5] == '2'; }
    DecodeUndoesEncode(Std, raw);
    hide Encode, Decode;
  }

  // A value that names no key is read with whichever key of the ring wrote it.
  lemma {:induction false} UnnamedReads(keys: KeySet, i: nat, nonce: seq<byte>, text: string)
    requires i < |All(keys)| && Works(All(keys)[i].aead) && |nonce| == All(keys)[i].aead.nonceSize
    requires Exclusive(All(keys))
    ensures Decrypt(Some(keys), "enc:v1:" + Encode(Std, nonce + All(keys)[i].aead.seal(nonce, text))) == Ok(text)
  {
    var all := All(keys);
    var raw := nonce + all[i].aead.seal(nonce, text);
    OpenSealed(all[i], nonce, text);
    forall j | 0 <= j < i ensures OpenWith(all[j], raw).None? { OthersCannot(all, j, i, raw); }
    AnyFinds(all, i, raw);
    SplitOfUnnamed(raw);
    hide SplitValue, IsEncrypted, Encode, OpenWith, OpenWithAny, Exclusive;
  }

  // A value that names its key is read with that key.
  lemma {:induction false} NamedReads(keys: KeySet, i: nat, nonce: seq<byte>, text: string)
    requires i < |All(keys)| && Works(All(keys)[i].aead) && |nonce| == All(keys)[i].aead.nonceSize
    requires DistinctIds(All(keys)) && GoodId(All(keys)[i].id)
    ensures var e := All(keys)[i];
            Decrypt(Some(keys), "enc:v2:" + e.id + ":" + Encode(Std, nonce + e.aead.seal(nonce, text))) == Ok(text)
  {
    var all := All(keys);
    var e := all[i];
    OpenSealed(e, nonce, text);
    IdFinds(all, i);
    assert all[0] == keys.primary && all[1..] == keys.retired;
    assert FirstWithId(all, e.id) == EntryFor(keys, e.id);
    SplitOfEncrypted(e.id, nonce + e.aead.seal(nonce, text));
    hide SplitValue, IsEncrypted, Encode, OpenWith, FirstWithId;
  }

  // A value with neither marker predates encryption and reads as itself.
  lemma {:induction false} PlainReads(keys: Option<KeySet>, value: string)
    requires !("enc:v1:" <= value) && !("enc:v2:" <= value)
    ensures Decrypt(keys, value) == Ok(value)
  {
  }

  // Without a keyring nothing is stored in the clear and nothing encrypted is read.
  lemma {:induction false} NoKeyNoSecret(text: string, nonce: seq<byte>, value: string)
    requires text != "" && ("enc:v1:" <= value || "enc:v2:" <= value)
    ensures Encrypt(None, text, nonce) == Err(NoKey) && Decrypt(None, value) == Err(NoKey)
    ensures !NeedsRotation(None, value)
  {
  }

  // Some key of the ring wrote the text so, or no key did.
  ghost predicate Written(keys: KeySet, value: string, text: string) {
    || (value == text && !("enc:v1:" <= value) && !("enc:v2:" <= value))
    || exists i, nonce ::
         && 0 <= i < |All(keys)| && |nonce| == All(keys)[i].aead.nonceSize
         && (value == "enc:v1:" + Encode(Std, nonce + All(keys)[i].aead.seal(nonce, text))
             || value == "enc:v2:" + All(keys)[i].id + ":" + Encode(Std, nonce + All(keys)[i].aead.seal(nonce, text)))
  }

  ghost predicate Sane(keys: KeySet) {
    && DistinctIds(All(keys)) && Exclusive(All(keys))
    && forall i :: 0 <= i < |All(keys)| ==> Works(All(keys)[i].aead) && GoodId(All(keys)[i].id)
  }

  lemma {:induction false} WrittenReads(keys: KeySet, value: string, text: string)
    requires Sane(keys) && Written(keys, value, text)
    ensures Decrypt(Some(keys), value) == Ok(text)
  {
    hide Encode, Decrypt, All;
    if value == text && !("enc:v1:" <= value) && !("enc:v2:" <= value) {
      PlainReads(Some(keys), value);
    } else {
      var i, nonce :|
        && 0 <= i < |All(keys)| && |nonce| == All(keys)[i].aead.nonceSize
        && (value == "enc:v1:" + Encode(Std, nonce + All(keys)[i].aead.seal(nonce, text))
            || value == "enc:v2:" + All(keys)[i].id + ":" + Encode(Std, nonce + All(keys)[i].aead.seal(nonce, text)));
      UnnamedReads(keys, i, nonce, text);
      NamedReads(keys, i, nonce, text);
    }
  }

  /**
   Changing the key of a whole store. Put a fresh primary in front, rotate every
   value, drop all the old keys: every credential that could be read before is
   read the same after, by the new key alone.
   */
  lemma {:induction false} KeyChangeLosesNothing(keys: KeySet, newer: KeyEntry, store: map<string, string>,
                                                 nonce: seq<byte>, k: string)
    requires Works(newer.aead) && GoodId(newer.id) && |nonce| == newer.aead.nonceSize
    requires DistinctIds(All(Rekeyed(keys, newer))) && Exclusive(All(Rekeyed(keys, newer)))
    requires k in store && Decrypt(Some(keys), store[k]).Ok?
    ensures Decrypt(Some(KeySet(newer, [])), Rotated(Rekeyed(keys, newer), store[k], nonce)) ==
            Decrypt(Some(keys), store[k])
  {
    RekeyedReads(keys, newer, store[k]);
    RotationLosesNothing(Rekeyed(keys, newer), store[k], nonce);
  }

  // So whatever any key of the old ring wrote, marked either way or not at all,
  // the new key alone reads after the change.
  lemma {:induction false} KeyChangeKeepsText(keys: KeySet, newer: KeyEntry, value: string, text: string,
                                              nonce: seq<byte>)
    requires Sane(keys) && Written(keys, value, text) && Works(newer.aead) && GoodId(newer.id)
    requires DistinctIds(All(Rekeyed(keys, newer))) && Exclusive(All(Rekeyed(keys, newer)))
    requires |nonce| == newer.aead.nonceSize
    ensures Decrypt(Some(KeySet(newer, [])), Rotated(Rekeyed(keys, newer), value, nonce)) == Ok(text)
  {
    WrittenReads(keys, value, text);
    hide Decrypt, Rotated, Sane, Written, DistinctIds, Exclusive;
    KeyChangeLosesNothing(keys, newer, map["" := value], nonce, "");
  }

  /******* Building and swapping a keyring *******/

  datatype BuildResult = Built(keys: KeySet) | Invalid

  // The retired keys that are kept: not blank, and not the primary again.
  function Usable(parse: string -> Option<KeyEntry>, blank: string -> bool, primary: string,
                  hexes: seq<string>): seq<KeyEntry>
  {
    if hexes == [] then []
    else
      var h := hexes[|hexes| - 1];
      Usable(parse, blank, primary, hexes[..|hexes| - 1]) +
        if blank(h) || parse(h).None? || parse(h).value.id == primary then [] else [parse(h).value]
  }

  ghost predicate AllValid(parse: string -> Option<KeyEntry>, blank: string -> bool, hexes: seq<string>) {
    forall i :: 0 <= i < |hexes| ==> blank(hexes[i]) || parse(hexes[i]).Some?
  }

  // How a key is parsed and fingerprinted is a parameter.
  method NewKeyring(parse: string -> Option<KeyEntry>, blank: string -> bool, primaryHex: string,
                    retiredHex: seq<string>) returns (r: BuildResult)
    ensures r.Built? <==> parse(primaryHex).Some? && AllValid(parse, blank, retiredHex)
    ensures r.Built? ==>
              var primary := parse(primaryHex).value;
              r.keys == KeySet(primary, Usable(parse, blank, primary.id, retiredHex))
    ensures r.Built? ==> forall i :: 0 <= i < |r.keys.retired| ==> r.keys.retired[i].id != r.keys.primary.id
    ensures r.Built? ==> forall i :: 0 <= i < |retiredHex| && !blank(retiredHex[i]) ==>
              parse(retiredHex[i]).value in All(r.keys) || parse(retiredHex[i]).value.id == r.keys.primary.id
  {
    var primary := parse(primaryHex);
    if primary.None? {
      return Invalid;
    }
    var retired: seq<KeyEntry> := [];
    for i := 0 to |retiredHex|
      invariant AllValid(parse, blank, retiredHex[..i])
      invariant retired == Usable(parse, blank, primary.value.id, retiredHex[..i])
      invariant forall j :: 0 <= j < |retired| ==> retired[j].id != primary.value.id
      invariant forall j :: 0 <= j < i && !blank(retiredHex[j]) ==>
                  parse(retiredHex[j]).value in retired || parse(retiredHex[j]).value.id == primary.value.id
    {
      assert retiredHex[..i + 1][..i] == retiredHex[..i];
      if blank(retiredHex[i]) {
        continue;
      }
      var e := parse(retiredHex[i]);
      if e.None? {
        return Invalid;
      }
      if e.value.id == primary.value.id {
        continue;
      }
      retired := retired + [e.value];
    }
    assert retiredHex[..|retiredHex|] == retiredHex;
    r := Built(KeySet(primary.value, retired));
  }

  // Every store holds the same keyring; changing the key changes what it holds.
  class Ring {
    var keys: KeySet

    constructor (keys: KeySet)
      ensures this.keys == keys
    {
      this.keys := keys;
    }

    // What was readable stays readable when the new set only puts a key in front.
    method Replace(next: Ring)
      modifies this
      ensures keys == old(next.keys)
      ensures forall newer, value ::
                (old(next.keys) == Rekeyed(old(keys), newer) && DistinctIds(All(keys)) && Exclusive(All(keys))
                 && Decrypt(Some(old(keys)), value).Ok?) ==>
                    Decrypt(Some(keys), value) == Decrypt(Some(old(keys)), value)
    {
      forall newer, value | next.keys == Rekeyed(keys, newer) && DistinctIds(All(next.keys))
        && Exclusive(All(next.keys))
                            && Decrypt(Some(keys), value).Ok?
        ensures Decrypt(Some(next.keys), value) == Decrypt(Some(keys), value)
      {
        RekeyedReads(keys, newer, value);
      }
      hide *;
      keys := next.keys;
    }
  }
}
