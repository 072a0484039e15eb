/**
 Signed links, and the reference that a delivery report must hand back before
 it is believed. The MAC is a parameter; what is assumed of it is said where it
 is used.
 */
module Tracking {
  import opened Prelude
  import opened Text
  import opened Base64

  datatype Link = Link(kind: string, tenant: string, message: string, recipient: string, target: string)

  datatype Verdict = Valid | MissingSignature | BadSignature | NoKey

  type Mac = (string, string) -> seq<byte>

  // Fields joined by a byte that none of them contains.
  function Canonical(l: Link): string {
    l.kind + ['\0'] + (l.tenant + ['\0'] + (l.message + ['\0'] + (l.recipient + ['\0'] + l.target)))
  }

  ghost predicate Separable(l: Link) {
    '\0' !in l.kind && '\0' !in l.tenant && '\0' !in l.message && '\0' !in l.recipient
  }

  // No field holds the separator.
  ghost predicate NulFree(l: Link) { Separable(l) && '\0' !in l.target }

  /******* Renderings *******/

  lemma {:induction false} JoinInjective(a: string, x: string, b: string, y: string)
    requires '\0' !in a && '\0' !in b && a + ['\0'] + x == b + ['\0'] + y
    ensures a == b && x == y
  {
    FirstSplit(a, '\0', x);
    FirstSplit(b, '\0', y);
  }

  lemma {:induction false} SeparableInjective(l: Link, m: Link)
    requires Separable(l) && Separable(m) && Canonical(l) == Canonical(m)
    ensures l == m
  {
    var l3, m3 := l.recipient + ['\0'] + l.target, m.recipient + ['\0'] + m.target;
    var l2, m2 := l.message + ['\0'] + l3, m.message + ['\0'] + m3;
    var l1, m1 := l.tenant + ['\0'] + l2, m.tenant + ['\0'] + m2;
    JoinInjective(l.kind, l1, m.kind, m1);
    JoinInjective(l.tenant, l2, m.tenant, m2);
    JoinInjective(l.message, l3, m.message, m3);
    JoinInjective(l.recipient, l.target, m.recipient, m.target);
  }

  ghost function Nuls(s: string): nat { multiset(s)['\0'] }

  lemma {:induction false} NulsOfJoin(a: string, b: string)
    ensures Nuls(a + ['\0'] + b) == Nuls(a) + 1 + Nuls(b)
  {
  }

  lemma {:induction false} NoNuls(s: string)
    ensures Nuls(s) == 0 <==> '\0' !in s
  {
  }

  // A rendering holds its four separators and those of the fields.
  lemma {:induction false} NulsOfRendering(l: Link)
    ensures Nuls(Canonical(l)) ==
            4 + Nuls(l.kind) + Nuls(l.tenant) + Nuls(l.message) + Nuls(l.recipient) + Nuls(l.target)
  {
    var l3 := l.recipient + ['\0'] + l.target;
    var l2 := l.message + ['\0'] + l3;
    NulsOfJoin(l.recipient, l.target);
    NulsOfJoin(l.message, l3);
    NulsOfJoin(l.tenant, l2);
    NulsOfJoin(l.kind, l.tenant + ['\0'] + l2);
    hide Nuls;
  }

  // No rearrangement of values, whatever they hold, renders like a link
  // whose own fields are free of the separator.
  lemma {:induction false} CanonicalInjective(l: Link, m: Link)
    requires NulFree(l) && Canonical(l) == Canonical(m)
    ensures l == m
  {
    NulsOfRendering(l);
    NulsOfRendering(m);
    NoNuls(l.kind); NoNuls(l.tenant); NoNuls(l.message); NoNuls(l.recipient); NoNuls(l.target);
    NoNuls(m.kind); NoNuls(m.tenant); NoNuls(m.message); NoNuls(m.recipient);
    hide Canonical, Nuls;
    SeparableInjective(l, m);
  }

  // Moves one separator of a field to where a field ends.
  ghost function Shifted(l: Link): Link
    requires !NulFree(l)
  {
    if '\0' in l.kind then
      Link(Left(l.kind), Right(l.kind), l.tenant, l.message, l.recipient + ['\0'] + l.target)
    else if '\0' in l.tenant then
      Link(l.kind, Left(l.tenant), Right(l.tenant), l.message, l.recipient + ['\0'] + l.target)
    else if '\0' in l.message then
      Link(l.kind, l.tenant, Left(l.message), Right(l.message), l.recipient + ['\0'] + l.target)
    else if '\0' in l.recipient then
      Link(l.kind, l.tenant, l.message, Left(l.recipient), Right(l.recipient) + ['\0'] + l.target)
    else
      Link(l.kind + ['\0'] + l.tenant, l.message, l.recipient, Left(l.target), Right(l.target))
  }

  // What stands on either side of the first separator.
  ghost function Left(s: string): string
    requires '\0' in s
  {
    s[..IndexOf(s, '\0').value]
  }

  ghost function Right(s: string): string
    requires '\0' in s
  {
    s[IndexOf(s, '\0').value + 1..]
  }

  lemma {:induction false} Halves(s: string)
    requires '\0' in s
    ensures s == Left(s) + ['\0'] + Right(s) && |Left(s)| < |s|
  {
  }

  lemma {:induction false} Regrouped(a: string, b: string, c: string)
    ensures a + ['\0'] + b + ['\0'] + c == a + ['\0'] + (b + ['\0'] + c)
  {
  }

  // With the separator in a field, another link renders alike.
  lemma {:induction false} SeparatorInFieldConfuses(l: Link)
    requires !NulFree(l)
    ensures Shifted(l) != l && Canonical(Shifted(l)) == Canonical(l)
  {
    var field := if '\0' in l.kind then l.kind else if '\0' in l.tenant then l.tenant
        else if '\0' in l.message then l.message
                 else if '\0' in l.recipient then l.recipient else l.target;
    Halves(field);
    var a, b := Left(field), Right(field);
    hide Left, Right;
    if '\0' in l.kind {
      Regrouped(a, b, l.tenant + ['\0'] + (l.message + ['\0'] + (l.recipient + ['\0'] + l.target)));
    } else if '\0' in l.tenant {
      Regrouped(a, b, l.message + ['\0'] + (l.recipient + ['\0'] + l.target));
    } else if '\0' in l.message {
      Regrouped(a, b, l.recipient + ['\0'] + l.target);
    } else if '\0' in l.recipient {
      Regrouped(a, b, l.target);
    } else {
      Regrouped(l.kind, l.tenant, l.message + ['\0'] + (l.recipient + ['\0'] + (a + ['\0'] + b)));
    }
  }

  // A rendering belongs to one link only, exactly when no field holds the separator.
  lemma {:induction false} RenderingIsUnique(l: Link)
    ensures (forall m :: Canonical(m) == Canonical(l) ==> m == l) <==> NulFree(l)
  {
    if NulFree(l) {
      forall m | Canonical(m) == Canonical(l) ensures m == l { CanonicalInjective(l, m); }
    } else {
      SeparatorInFieldConfuses(l);
    }
  }

  /******* Signing *******/

  function Sign(mac: Mac, key: string, l: Link): string {
    if key == "" then "" else Encode(Url, mac(key, Canonical(l)))
  }

  function Verify(mac: Mac, key: string, l: Link, signature: string): Verdict {
    if signature == "" then MissingSignature
    else match Decode(Url, signature)
      case None => BadSignature
      case Some(provided) =>
        if key == "" then NoKey
        else if provided == mac(key, Canonical(l)) then Valid
        else BadSignature
  }

  // Every tag has at least a byte.
  ghost predicate Tags(mac: Mac, key: string) { forall text :: mac(key, text) != [] }

  // Different texts have different tags.
  ghost predicate Binding(mac: Mac, key: string) { forall a, b :: mac(key, a) == mac(key, b) ==> a == b }

  // A signature verifies for the link it was made for and, under a binding
  // MAC, for no other, if the one it was made for is free of the separator.
  lemma {:induction false} SignatureVerifiesOwnLinkOnly(mac: Mac, key: string, l: Link, other: Link)
    requires key != "" && Tags(mac, key) && Binding(mac, key)
    requires NulFree(l) || (Separable(l) && Separable(other))
    ensures Verify(mac, key, other, Sign(mac, key, l)) == if other == l then Valid else BadSignature
  {
    var tag := mac(key, Canonical(l));
    DecodeUndoesEncode(Url, tag);
    EncodeClean(Url, tag);
    hide Encode, Decode, Canonical;
    if Canonical(l) == Canonical(other) {
      if NulFree(l) { CanonicalInjective(l, other); } else { SeparableInjective(l, other); }
    }
  }

  // A signature is one link's alone exactly when that link is free of the separator.
  lemma {:induction false} SignatureIsOneLinks(mac: Mac, key: string, l: Link)
    requires key != "" && Tags(mac, key) && Binding(mac, key)
    ensures (forall other :: Verify(mac, key, other, Sign(mac, key, l)) == Valid ==> other == l) <==> NulFree(l)
  {
    var tag := mac(key, Canonical(l));
    DecodeUndoesEncode(Url, tag);
    EncodeClean(Url, tag);
    RenderingIsUnique(l);
    hide Encode, Decode, Canonical, NulFree;
    forall other ensures Verify(mac, key, other, Sign(mac, key, l)) == Valid <==> Canonical(other) == Canonical(l) {
    }
  }

  /******* Bounce references *******/

  const REF_KIND: string := "bounce"
  const REF_VERSION: string := "v1."

  function Normal(recipient: string): string { Lower(Trim(recipient)) }

  function BounceLink(tenant: string, message: string, recipient: string): Link {
    Link(REF_KIND, tenant, message, Normal(recipient), "")
  }

  function BounceRef(mac: Mac, key: string, tenant: string, message: string, recipient: string): string {
    var signature := Sign(mac, key, BounceLink(tenant, message, recipient));
    if signature == "" then "" else REF_VERSION + message + "." + signature
  }

  datatype RefResult = Minted(message: string) | Refused(why: Verdict)

  function VerifyBounceRef(mac: Mac, key: string, value: string, tenant: string, recipient: string): RefResult {
    var trimmed := Trim(value);
    if !HasPrefix(trimmed, REF_VERSION) then Refused(BadSignature)
    else
      var rest := trimmed[|REF_VERSION|..];
      // Ids may hold dots, so the split is at the last one.
      match LastIndexOf(rest, '.')
      case None => Refused(MissingSignature)
      case Some(dot) =>
        if dot == 0 || dot == |rest| - 1 then Refused(MissingSignature)
        else
          var message, signature := rest[..dot], rest[dot + 1..];
          var v := Verify(mac, key, BounceLink(tenant, message, recipient), signature);
          if v == Valid then Minted(message) else Refused(v)
  }

  // A reference comes apart where it was put together, dots in the id or not,
  // whatever key it is verified under.
  lemma {:induction false} RefParses(mac: Mac, key: string, key': string, tenant: string, message: string,
                                     recipient: string, tenant': string, recipient': string)
    requires key != "" && Tags(mac, key)
    ensures var value := BounceRef(mac, key, tenant, message, recipient);
            var signature := Sign(mac, key, BounceLink(tenant, message, recipient));
            var v := Verify(mac, key', BounceLink(tenant', message, recipient'), signature);
            VerifyBounceRef(mac, key', value, tenant', recipient') ==
              if message == "" then Refused(MissingSignature) else if v == Valid then Minted(message) else Refused(v)
  {
    var tag := mac(key, Canonical(BounceLink(tenant, message, recipient)));
    var signature := Encode(Url, tag);
    EncodeClean(Url, tag);
    hide Encode, Verify, BounceLink;
    var value := REF_VERSION + message + "." + signature;
    assert !Reserved(signature[|signature| - 1]);
    assert value[|value| - 1] == signature[|signature| - 1];
    EncodeAscii(Url, tag);
    TrimOfTight(value);
    assert value[..|REF_VERSION|] == REF_VERSION;
    var rest := value[|REF_VERSION|..];
    assert rest == message + ['.'] + signature;
    assert '.' !in signature by {
      forall i | 0 <= i < |signature| ensures signature[i] != '.' { assert !Reserved(signature[i]); }
    }
    LastSplit(message, '.', signature);
  }

  lemma {:induction false} EncodeAscii(a: Alphabet, bs: seq<byte>)
    ensures forall i :: 0 <= i < |Encode(a, bs)| ==> 0x20 < Encode(a, bs)[i] as int < 128
  {
    LettersAscii(a, Sextets(bs));
  }

  lemma {:induction false} LettersAscii(a: Alphabet, vs: seq<int>)
    requires forall i :: 0 <= i < |vs| ==> Sextet(vs[i])
    ensures forall i :: 0 <= i < |Letters(a, vs)| ==> 0x20 < Letters(a, vs)[i] as int < 128
  {
    if vs == [] {
    } else {
      assert 0x20 < CharOf(a, vs[0]) as int < 128;
      hide CharOf;
      LettersAscii(a, vs[1..]);
    }
  }

  // What the header holds: the version, the message id, and the tag of the link,
  // in the URL alphabet.
  lemma {:induction false} RefIsWritten(mac: Mac, key: string, tenant: string, message: string, recipient: string)
    requires key != "" && Tags(mac, key)
    ensures BounceRef(mac, key, tenant, message, recipient) ==
            "v1." + message + "." +
            Encode(Url, mac(key, "bounce\0" + tenant + "\0" + message + "\0" + Lower(Trim(recipient)) + "\0"))
  {
    var z, n := "\0", Lower(Trim(recipient));
    var text := Canonical(BounceLink(tenant, message, recipient));
    assert text == "bounce" + z + (tenant + z + (message + z + (n + z + "")));
    assert text == "bounce\0" + tenant + z + message + z + n + z;
    EncodeClean(Url, mac(key, text));
    hide Encode, Canonical, Lower, Trim;
  }

  lemma {:induction false} TrimDecides(mac: Mac, key: string, value: string, padded: string, tenant: string,
                                       recipient: string)
    requires Trim(padded) == Trim(value)
    ensures VerifyBounceRef(mac, key, padded, tenant, recipient) == VerifyBounceRef(mac, key, value, tenant, recipient)
  {
    hide Trim, Verify, LastIndexOf, BounceLink, HasPrefix;
  }

  // Space around the header's value does not matter.
  lemma {:induction false} PaddedRefReads(mac: Mac, key: string, value: string, padded: string, tenant: string,
                                          recipient: string)
    requires Core(padded, value)
    ensures VerifyBounceRef(mac, key, padded, tenant, recipient) == VerifyBounceRef(mac, key, value, tenant, recipient)
  {
    assert Core(value, value) by { assert Blank("") && value == "" + value + ""; }
    hide *;
    TrimOfCore(padded, value);
    TrimOfCore(value, value);
    TrimDecides(mac, key, value, padded, tenant, recipient);
  }

  /**
   A reference round-trips for every spelling of the recipient that differs
   only in case and surrounding space, and it does so exactly when the message
   id is not empty.
   */
  lemma {:induction false} RefRoundTrips(mac: Mac, key: string, tenant: string, message: string, recipient: string,
                                         spelling: string)
    requires key != "" && Tags(mac, key) && Alike(spelling, recipient)
    ensures VerifyBounceRef(mac, key, BounceRef(mac, key, tenant, message, recipient), tenant, spelling) ==
            Minted(message)
            <==> message != ""
  {
    LowerTrimIffAlike(spelling, recipient);
    RefParses(mac, key, key, tenant, message, recipient, tenant, spelling);
    var link := BounceLink(tenant, message, recipient);
    DecodeUndoesEncode(Url, mac(key, Canonical(link)));
    EncodeClean(Url, mac(key, Canonical(link)));
    hide Encode, Decode, Canonical, VerifyBounceRef, BounceRef, Normal;
  }

  /**
   A reference binds its tenant and its recipient: under a binding MAC it is
   believed for any pair at all if and only if they are the same tenant and the
   same recipient, as long as what it was made for is free of the separator.
   */
  lemma {:induction false} RefBinds(mac: Mac, key: string, tenant: string, message: string, recipient: string,
                                    tenant': string, recipient': string)
    requires key != "" && Tags(mac, key) && Binding(mac, key)
    requires NulFree(BounceLink(tenant, message, recipient))
    ensures VerifyBounceRef(mac, key, BounceRef(mac, key, tenant, message, recipient), tenant', recipient').Minted?
            <==> message != "" && tenant' == tenant && Alike(recipient', recipient)
  {
    LowerTrimIffAlike(recipient', recipient);
    assert Alike(recipient', recipient) <==> Normal(recipient') == Normal(recipient);
    hide Alike;
    RefParses(mac, key, key, tenant, message, recipient, tenant', recipient');
    SignatureVerifiesOwnLinkOnly(mac, key, BounceLink(tenant, message, recipient),
                                 BounceLink(tenant', message, recipient'));
    hide Sign, Verify, VerifyBounceRef, BounceRef, Normal;
  }

  // Where a tenant and a recipient could be told apart around the message.
  function Middle(message: string): string { ['\0'] + message + ['\0'] }

  // The tenant and the recipient, around the message, come apart in one way.
  ghost predicate OneSplit(tenant: string, message: string, recipient: string) {
    var text, middle := tenant + Middle(message) + recipient, Middle(message);
    forall i :: At(text, middle, i) && Normal(text[i + |middle|..]) == text[i + |middle|..] ==> i == |tenant|
  }

  lemma {:induction false} BounceRendering(tenant: string, message: string, recipient: string)
    ensures Canonical(BounceLink(tenant, message, recipient))
            == REF_KIND + ['\0'] + (tenant + Middle(message) + Normal(recipient)) + ['\0']
  {
    var n, z := Normal(recipient), ['\0'];
    hide Normal;
    assert tenant + z + (message + z + (n + z + "")) == tenant + (z + message + z) + n + z;
  }

  lemma {:induction false} SameMiddle(a: string, b: string)
    requires REF_KIND + ['\0'] + a + ['\0'] == REF_KIND + ['\0'] + b + ['\0']
    ensures a == b
  {
    var x, y := REF_KIND + ['\0'] + a + ['\0'], REF_KIND + ['\0'] + b + ['\0'];
    assert x[|REF_KIND| + 1..|x| - 1] == a && y[|REF_KIND| + 1..|y| - 1] == b;
  }

  // Two pairs render alike around one message when they split one text.
  lemma {:induction false} SameRendering(tenant: string, message: string, recipient: string, tenant': string,
                                         recipient': string)
    ensures Canonical(BounceLink(tenant', message, recipient')) == Canonical(BounceLink(tenant, message, recipient))
            <==> tenant' + Middle(message) + Normal(recipient') == tenant + Middle(message) + Normal(recipient)
  {
    BounceRendering(tenant, message, recipient);
    BounceRendering(tenant', message, recipient');
    var a, b := tenant + Middle(message) + Normal(recipient), tenant' + Middle(message) + Normal(recipient');
    hide Canonical, BounceLink, Middle, Normal;
    if Canonical(BounceLink(tenant', message, recipient')) == Canonical(BounceLink(tenant, message, recipient)) {
      SameMiddle(b, a);
    }
  }

  // A reference is believed for exactly the pairs that render as its own does.
  lemma {:induction false} RefBelieved(mac: Mac, key: string, tenant: string, message: string, recipient: string,
                                       tenant': string, recipient': string)
    requires key != "" && Tags(mac, key) && Binding(mac, key)
    ensures VerifyBounceRef(mac, key, BounceRef(mac, key, tenant, message, recipient), tenant', recipient').Minted?
            <==> (message != ""
                  && tenant' + Middle(message) + Normal(recipient') == tenant + Middle(message) + Normal(recipient))
  {
    RefParses(mac, key, key, tenant, message, recipient, tenant', recipient');
    SameRendering(tenant, message, recipient, tenant', recipient');
    var tag := mac(key, Canonical(BounceLink(tenant, message, recipient)));
    DecodeUndoesEncode(Url, tag);
    EncodeClean(Url, tag);
    hide Encode, Decode, Canonical, VerifyBounceRef, BounceRef, BounceLink, Normal, Middle;
  }

  lemma {:induction false} SplitAt(tenant: string, middle: string, recipient: string)
    ensures var text := tenant + middle + recipient;
            At(text, middle, |tenant|) && text[..|tenant|] == tenant && text[|tenant| + |middle|..] == recipient
  {
  }

  lemma {:induction false} OnlySplit(tenant: string, message: string, n: string, tenant': string, n': string)
    requires OneSplit(tenant, message, n) && Normal(n') == n'
    requires tenant' + Middle(message) + n' == tenant + Middle(message) + n
    ensures tenant' == tenant && n' == n
  {
    SplitAt(tenant', Middle(message), n');
    SplitAt(tenant, Middle(message), n);
    hide Middle, Normal, At;
  }

  lemma {:induction false} OtherSplit(tenant: string, message: string, n: string) returns (tenant': string, n': string)
    requires !OneSplit(tenant, message, n)
    ensures tenant' != tenant && Normal(n') == n' && tenant' + Middle(message) + n' == tenant + Middle(message) + n
  {
    var text, middle := tenant + Middle(message) + n, Middle(message);
    hide Middle, Normal;
    var i :| At(text, middle, i) && Normal(text[i + |middle|..]) == text[i + |middle|..] && i != |tenant|;
    tenant', n' := text[..i], text[i + |middle|..];
    assert text == tenant' + middle + n';
  }

  // For one reference and all pairs at once.
  ghost predicate Bound(mac: Mac, key: string, value: string, tenant: string, n: string) {
    forall tenant', recipient' ::
      VerifyBounceRef(mac, key, value, tenant', recipient').Minted? ==> tenant' == tenant && Normal(recipient') == n
  }

  /**
   A reference with an id is believed for its own tenant and recipient only,
   exactly when its text does not split around the message in a second place
   that leaves a recipient as it is spelled after trimming and lowering.
   */
  lemma {:induction false} RefBindsExactly(mac: Mac, key: string, tenant: string, message: string, recipient: string)
    requires key != "" && Tags(mac, key) && Binding(mac, key) && message != ""
    ensures Bound(mac, key, BounceRef(mac, key, tenant, message, recipient), tenant, Normal(recipient))
            <==> OneSplit(tenant, message, Normal(recipient))
  {
    var value, n := BounceRef(mac, key, tenant, message, recipient), Normal(recipient);
    if OneSplit(tenant, message, n) {
      forall tenant', recipient' | VerifyBounceRef(mac, key, value, tenant', recipient').Minted?
        ensures tenant' == tenant && Normal(recipient') == n
      {
        RefBelieved(mac, key, tenant, message, recipient, tenant', recipient');
        LowerTrimOnce(recipient');
        assert Normal(Normal(recipient')) == Normal(recipient');
        hide VerifyBounceRef, BounceRef, Middle, OneSplit, Normal;
        OnlySplit(tenant, message, n, tenant', Normal(recipient'));
      }
    } else {
      hide VerifyBounceRef, BounceRef, Middle, OneSplit, Normal;
      var tenant', n' := OtherSplit(tenant, message, n);
      RefBelieved(mac, key, tenant, message, recipient, tenant', n');
    }
  }

  // A reference does not pass for any other kind of link.
  lemma {:induction false} RefIsNoLink(mac: Mac, key: string, tenant: string, message: string, recipient: string,
                                       other: Link)
    requires key != "" && Tags(mac, key) && Binding(mac, key)
    requires NulFree(BounceLink(tenant, message, recipient)) && other.kind != REF_KIND
    ensures Verify(mac, key, other, Sign(mac, key, BounceLink(tenant, message, recipient))) == BadSignature
  {
    SignatureVerifiesOwnLinkOnly(mac, key, BounceLink(tenant, message, recipient), other);
    hide Sign, Verify;
  }

  ghost predicate Carries(value: string, message: string, tag: seq<byte>, signature: string) {
    Trim(value) == REF_VERSION + message + "." + signature && Decode(Url, signature) == Some(tag)
  }

  // Whatever is believed carries the tag of exactly this tenant, message and recipient.
  lemma {:induction false} BelievedMeansTagged(mac: Mac, key: string, value: string, tenant: string, recipient: string)
    requires VerifyBounceRef(mac, key, value, tenant, recipient).Minted?
    ensures var message := VerifyBounceRef(mac, key, value, tenant, recipient).message;
            && key != "" && message != ""
            && exists signature :: Carries(value, message, mac(key, Canonical(BounceLink(tenant, message, recipient))),
                                           signature)
  {
    hide Decode, Canonical, BounceLink, Trim, LastIndexOf;
    var trimmed := Trim(value);
    var rest := trimmed[|REF_VERSION|..];
    var dot := LastIndexOf(rest, '.').value;
    var message, signature := rest[..dot], rest[dot + 1..];
    Reassemble(trimmed, dot);
    assert Carries(value, message, mac(key, Canonical(BounceLink(tenant, message, recipient))), signature);
  }

  lemma {:induction false} Reassemble(trimmed: string, dot: nat)
    requires HasPrefix(trimmed, REF_VERSION) && dot < |trimmed| - |REF_VERSION| && trimmed[|REF_VERSION| + dot] == '.'
    ensures var rest := trimmed[|REF_VERSION|..]; trimmed == REF_VERSION + rest[..dot] + "." + rest[dot + 1..]
  {
    var rest := trimmed[|REF_VERSION|..];
    assert rest == rest[..dot] + "." + rest[dot + 1..];
    assert trimmed == REF_VERSION + rest;
  }

  // The key is swapped in place, so that every holder of the signer follows.
  class Signer {
    var key: string
    const mac: Mac

    constructor (mac: Mac, key: string)
      ensures this.mac == mac && this.key == key
    {
      this.mac, this.key := mac, key;
    }

    // A reference minted before is believed after exactly if both keys tag
    // its link alike.
    method SetKey(key: string)
      modifies this
      ensures this.key == key
      ensures forall tenant, message, recipient ::
                Tags(mac, old(this.key)) ==>
                (VerifyBounceRef(mac, key, BounceRef(mac, old(this.key), tenant, message, recipient), tenant,
                                 recipient).Minted?
                 <==> SameTag(mac, old(this.key), key, tenant, message, recipient))
    {
      forall tenant, message, recipient | Tags(mac, this.key)
        ensures VerifyBounceRef(mac, key, BounceRef(mac, this.key, tenant, message, recipient), tenant,
                                recipient).Minted?
                <==> SameTag(mac, this.key, key, tenant, message, recipient)
      {
        RefAfterKeyChange(mac, this.key, key, tenant, message, recipient);
      }
      this.key := key;
    }

    // With a key the reference verifies to its message id, if there is one,
    // for every spelling of the recipient; without one there is none.
    method Mint(tenant: string, message: string, recipient: string) returns (value: string)
      ensures value == BounceRef(mac, key, tenant, message, recipient)
      ensures key == "" ==> value == ""
      ensures forall spelling :: key != "" && Tags(mac, key) && Alike(spelling, recipient) ==>
                (VerifyBounceRef(mac, key, value, tenant, spelling) == Minted(message) <==> message != "")
    {
      value := BounceRef(mac, key, tenant, message, recipient);
      forall spelling | key != "" && Tags(mac, key) && Alike(spelling, recipient)
        ensures VerifyBounceRef(mac, key, value, tenant, spelling) == Minted(message) <==> message != ""
      {
        RefRoundTrips(mac, key, tenant, message, recipient, spelling);
      }
    }
  }

  ghost predicate SameTag(mac: Mac, before: string, after: string, tenant: string, message: string, recipient: string) {
    var text := Canonical(BounceLink(tenant, message, recipient));
    before != "" && after != "" && message != "" && mac(before, text) == mac(after, text)
  }

  // A reference parses the same whatever key it is verified under.
  lemma {:induction false} RefAfterKeyChange(mac: Mac, before: string, after: string, tenant: string, message: string,
                                             recipient: string)
    requires Tags(mac, before)
    ensures VerifyBounceRef(mac, after, BounceRef(mac, before, tenant, message, recipient), tenant, recipient).Minted?
            <==> SameTag(mac, before, after, tenant, message, recipient)
  {
    var link := BounceLink(tenant, message, recipient);
    if before == "" {
      assert Trim("") == "";
    } else {
      RefParses(mac, before, after, tenant, message, recipient, tenant, recipient);
      DecodeUndoesEncode(Url, mac(before, Canonical(link)));
      EncodeClean(Url, mac(before, Canonical(link)));
      hide Encode, Decode, Canonical, VerifyBounceRef, BounceRef, BounceLink;
    }
  }
}
