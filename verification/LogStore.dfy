/**
 The log store: an ordered key-value store whose keys are "{unix_nano}_{id}".
 Reading goes backwards page by page under a scan budget; truncation deletes
 everything stamped before a cutoff, in batches, over a bounded range of keys.
 */
module LogStore {
  import opened Prelude
  import opened Decimal
  import opened Text

  datatype Pair = Pair(key: string, value: string)

  // `rest` stands for the fields that reading does not look at, as rendered.
  datatype Entry = Entry(id: string, tenant: string, rest: string)

  // How strings are quoted and values decoded is the JSON library's business.
  datatype Codec = Codec(quote: string -> string, decode: string -> Option<Entry>)

  ghost predicate Ascending(db: seq<Pair>) {
    forall i, j :: 0 <= i < j < |db| ==> Less(db[i].key, db[j].key)
  }

  // What the writer stores for an entry.
  function Encoded(c: Codec, e: Entry): string {
    "{\"id\":" + c.quote(e.id) + ",\"tenant_id\":" + c.quote(e.tenant) + "," + e.rest + "}"
  }

  /******* One value *******/

  function Needle(c: Codec, tenant: string): string { "\"tenant_id\":" + c.quote(tenant) }

  // What reading makes of a value: prefilter on the bytes, decode, check the tenant.
  function Shown(c: Codec, tenant: string, value: string): Option<Entry> {
    if tenant != "" && !Contains(value, Needle(c, tenant)) then None
    else match c.decode(value)
      case None => None
      case Some(e) => if tenant != "" && e.tenant != tenant then None else Some(e)
  }

  // What it is meant to show: any entry for the operator, one's own for a tenant.
  function Wanted(c: Codec, tenant: string, value: string): Option<Entry> {
    match c.decode(value)
    case None => None
    case Some(e) => if tenant == "" || e.tenant == tenant then Some(e) else None
  }

  // Every value was written by this store, or does not decode.
  ghost predicate OwnValues(c: Codec, db: seq<Pair>) {
    forall i :: 0 <= i < |db| ==> c.decode(db[i].value).None? || Encoded(c, c.decode(db[i].value).value) == db[i].value
  }

  lemma {:induction false} EncodedHasNeedle(c: Codec, e: Entry)
    ensures Contains(Encoded(c, e), Needle(c, e.tenant))
  {
    var before := "{\"id\":" + c.quote(e.id) + ",";
    var after := "," + e.rest + "}";
    var needle := Needle(c, e.tenant);
    var s := Encoded(c, e);
    assert s == before + needle + after;
    assert At(s, needle, |before|);
  }

  // The prefilter never drops a value that would have been shown.
  lemma {:induction false} PrefilterIsExact(c: Codec, tenant: string, value: string)
    requires c.decode(value).None? || Encoded(c, c.decode(value).value) == value
    ensures Shown(c, tenant, value) == Wanted(c, tenant, value)
  {
    if c.decode(value).Some? { EncodedHasNeedle(c, c.decode(value).value); }
  }

  /******* Paging *******/

  // The entries at `pos` and below, newest first.
  function Below(c: Codec, tenant: string, db: seq<Pair>, pos: int): seq<Entry>
    requires pos < |db|
    decreases pos + 1
  {
    if pos < 0 then []
    else (match Wanted(c, tenant, db[pos].value) case None => [] case Some(e) => [e]) + Below(c, tenant, db, pos - 1)
  }

  // For the operator every entry that decodes, for a tenant its own, from the
  // newest key down.
  lemma {:induction false} BelowIsNewestFirst(c: Codec, tenant: string, db: seq<Pair>, pos: nat)
    requires pos < |db|
    ensures var e := c.decode(db[pos].value);
            Below(c, tenant, db, pos) ==
              if e.Some? && (tenant == "" || e.value.tenant == tenant) then [e.value] + Below(c, tenant, db, pos - 1)
              else Below(c, tenant, db, pos - 1)
    ensures Below(c, tenant, db, -1) == []
  {
    assert [] + Below(c, tenant, db, pos - 1) == Below(c, tenant, db, pos - 1);
  }

  // Some value at `pos` or below is the entry.
  ghost predicate Holds(c: Codec, db: seq<Pair>, pos: int, e: Entry) {
    exists j :: 0 <= j < |db| && j <= pos && c.decode(db[j].value) == Some(e)
  }

  lemma {:induction false} HoldsMore(c: Codec, db: seq<Pair>, pos: nat, e: Entry)
    requires pos < |db|
    ensures Holds(c, db, pos, e) <==> Holds(c, db, pos - 1, e) || c.decode(db[pos].value) == Some(e)
  {
  }

  lemma {:induction false} BelowIsOwn(c: Codec, tenant: string, db: seq<Pair>, pos: int, e: Entry)
    requires -1 <= pos < |db|
    ensures e in Below(c, tenant, db, pos) <==> (tenant == "" || e.tenant == tenant) && Holds(c, db, pos, e)
    decreases pos + 1
  {
    if pos < 0 {
    } else {
      BelowIsOwn(c, tenant, db, pos - 1, e);
      BelowIsNewestFirst(c, tenant, db, pos);
      HoldsMore(c, db, pos, e);
      hide Below, Holds;
    }
  }

  datatype Page = Page(entries: seq<Entry>, pos: int)

  // The backward scan: at most `want` entries, at most `budget` values read.
  function Scan(c: Codec, tenant: string, db: seq<Pair>, pos: int, want: int, budget: nat): (r: Page)
    requires pos < |db|
    ensures r.pos <= pos && pos - r.pos <= budget && |r.entries| <= if want < 0 then 0 else want
    decreases budget
  {
    if pos < 0 || want <= 0 || budget == 0 then Page([], pos)
    else match Shown(c, tenant, db[pos].value)
      case None => Scan(c, tenant, db, pos - 1, want, budget - 1)
      case Some(e) =>
        var r := Scan(c, tenant, db, pos - 1, want - 1, budget - 1);
        Page([e] + r.entries, r.pos)
  }

  // The first key that is not below the token.
  function SeekGE(db: seq<Pair>, token: string): (i: nat)
    ensures i <= |db| && (forall j :: 0 <= j < i ==> Less(db[j].key, token)) && (i < |db| ==> !Less(db[i].key, token))
    decreases |db|
  {
    if db == [] || !Less(db[0].key, token) then 0
    else
      var i := 1 + SeekGE(db[1..], token);
      assert forall j :: 1 <= j < i ==> db[j] == db[1..][j - 1];
      i
  }

  function StartAt(db: seq<Pair>, token: string): (pos: int)
    ensures -1 <= pos < |db|
  {
    if token == "" then |db| - 1
    else
      var i := SeekGE(db, token);
      if i < |db| then i else -1
  }

  datatype Listing = Listing(entries: seq<Entry>, token: string)

  function List(c: Codec, db: seq<Pair>, pageSize: int, token: string, tenant: string, budget: nat): Listing {
    var r := Scan(c, tenant, db, StartAt(db, token), pageSize, budget);
    Listing(r.entries, if r.pos >= 0 then db[r.pos].key else "")
  }

  // What a page returns and what is left below it make up everything.
  lemma {:induction false} ScanLosesNothing(c: Codec, tenant: string, db: seq<Pair>, pos: int, want: int, budget: nat)
    requires pos < |db| && OwnValues(c, db)
    ensures var r := Scan(c, tenant, db, pos, want, budget);
            r.entries + Below(c, tenant, db, r.pos) == Below(c, tenant, db, pos)
    decreases budget
  {
    if pos >= 0 && want > 0 && budget > 0 {
      PrefilterIsExact(c, tenant, db[pos].value);
      var shown := Shown(c, tenant, db[pos].value);
      var more := if shown.Some? then want - 1 else want;
      var r := Scan(c, tenant, db, pos - 1, more, budget - 1);
      var first := if shown.Some? then [shown.value] else [];
      assert Below(c, tenant, db, pos) == first + Below(c, tenant, db, pos - 1);
      assert [] + r.entries == r.entries;
      assert Scan(c, tenant, db, pos, want, budget) == Page(first + r.entries, r.pos);
      ScanLosesNothing(c, tenant, db, pos - 1, more, budget - 1);
      hide *;
      assert first + r.entries + Below(c, tenant, db, r.pos) == first + (r.entries + Below(c, tenant, db, r.pos));
    }
  }

  lemma {:induction false} ScanMoves(c: Codec, tenant: string, db: seq<Pair>, pos: int, want: int, budget: nat)
    requires 0 <= pos < |db| && want > 0 && budget > 0
    ensures Scan(c, tenant, db, pos, want, budget).pos < pos
  {
  }

  lemma {:induction false} SeekFinds(db: seq<Pair>, p: nat)
    requires Ascending(db) && p < |db|
    ensures SeekGE(db, db[p].key) == p
  {
    var i := SeekGE(db, db[p].key);
    LessIrreflexive(db[p].key);
  }

  // Only what lies at or below the position matters.
  lemma {:induction false} BelowPrefix(c: Codec, tenant: string, db: seq<Pair>, more: seq<Pair>, pos: int)
    requires db <= more && pos < |db|
    ensures Below(c, tenant, more, pos) == Below(c, tenant, db, pos)
    decreases pos + 1
  {
    if pos >= 0 { BelowPrefix(c, tenant, db, more, pos - 1); }
  }

  datatype Crawled = Crawled(entries: seq<Entry>, done: bool)

  // A caller that follows the tokens for up to `n` pages, while the store
  // changes under it: page i is read from `snaps(i)`.
  function Crawl(c: Codec, snaps: nat -> seq<Pair>, i: nat, token: string, pageSize: int, tenant: string, budget: nat,
                 n: nat): Crawled
    decreases n
  {
    if n == 0 then Crawled([], false)
    else
      var page := List(c, snaps(i), pageSize, token, tenant, budget);
      if page.token == "" then Crawled(page.entries, true)
      else
        var rest := Crawl(c, snaps, i + 1, page.token, pageSize, tenant, budget, n - 1);
        Crawled(page.entries + rest.entries, rest.done)
  }

  // The store only gains keys newer than all it holds.
  ghost predicate OnlyGains(c: Codec, snaps: nat -> seq<Pair>) {
    forall i: nat :: snaps(0) <= snaps(i) && Ascending(snaps(i)) && OwnValues(c, snaps(i))
                     && forall j :: 0 <= j < |snaps(i)| ==> snaps(i)[j].key != ""
  }

  // A token taken from one snapshot finds its place again in any other.
  lemma {:induction false} TokenFindsPlace(c: Codec, snaps: nat -> seq<Pair>, i: nat, j: nat, p: nat)
    requires OnlyGains(c, snaps) && p < |snaps(0)|
    ensures p < |snaps(i)| && snaps(i)[p].key != "" && StartAt(snaps(j), snaps(i)[p].key) == p
  {
    var a, b := snaps(i), snaps(j);
    assert snaps(0) <= a && snaps(0) <= b && Ascending(b);
    assert a[p] == snaps(0)[p] == b[p];
    SeekFinds(b, p);
    hide SeekGE;
  }

  // One page of a crawl, by where its scan starts and ends.
  lemma {:induction false} CrawlPage(c: Codec, snaps: nat -> seq<Pair>, i: nat, token: string, pageSize: int,
                                     tenant: string, budget: nat, n: nat, pos: int)
    requires n >= 1 && pos < |snaps(i)| && StartAt(snaps(i), token) == pos
    requires forall j :: 0 <= j < |snaps(i)| ==> snaps(i)[j].key != ""
    ensures var r := Scan(c, tenant, snaps(i), pos, pageSize, budget);
            Crawl(c, snaps, i, token, pageSize, tenant, budget, n) ==
              if r.pos < 0 then Crawled(r.entries, true)
              else
                var rest := Crawl(c, snaps, i + 1, snaps(i)[r.pos].key, pageSize, tenant, budget, n - 1);
                Crawled(r.entries + rest.entries, rest.done)
  {
    hide Scan, StartAt;
  }

  // A page and everything below it, on any snapshot, is everything from its start.
  lemma {:induction false} PageSplits(c: Codec, snaps: nat -> seq<Pair>, i: nat, tenant: string, pos: int, want: int,
                                      budget: nat)
    requires OnlyGains(c, snaps) && pos < |snaps(0)|
    ensures pos < |snaps(i)|
    ensures var r := Scan(c, tenant, snaps(i), pos, want, budget);
            r.entries + Below(c, tenant, snaps(0), r.pos) == Below(c, tenant, snaps(0), pos)
  {
    var db := snaps(i);
    assert snaps(0) <= db && OwnValues(c, db);
    hide OnlyGains, OwnValues, Scan, Below;
    ScanLosesNothing(c, tenant, db, pos, want, budget);
    BelowPrefix(c, tenant, snaps(0), db, pos);
    BelowPrefix(c, tenant, snaps(0), db, Scan(c, tenant, db, pos, want, budget).pos);
  }

  // One page of a crawl over a store that only gains: nothing is lost, there
  // is progress, and the token is found again.
  lemma {:induction false} CrawlStep(c: Codec, snaps: nat -> seq<Pair>, i: nat, token: string, pageSize: int,
                                     tenant: string, budget: nat, n: nat, pos: int)
    requires pageSize >= 1 && budget >= 1 && OnlyGains(c, snaps) && -1 <= pos < |snaps(0)| && n >= 1
    requires StartAt(snaps(i), token) == pos
    ensures pos < |snaps(i)|
    ensures var r := Scan(c, tenant, snaps(i), pos, pageSize, budget);
            && r.entries + Below(c, tenant, snaps(0), r.pos) == Below(c, tenant, snaps(0), pos)
            && (r.pos >= 0 ==> r.pos < pos && StartAt(snaps(i + 1), snaps(i)[r.pos].key) == r.pos)
            && Crawl(c, snaps, i, token, pageSize, tenant, budget, n) ==
                 if r.pos < 0 then Crawled(r.entries, true)
                 else
                   var rest := Crawl(c, snaps, i + 1, snaps(i)[r.pos].key, pageSize, tenant, budget, n - 1);
                   Crawled(r.entries + rest.entries, rest.done)
  {
    assert forall j :: 0 <= j < |snaps(i)| ==> snaps(i)[j].key != "";
    hide Scan, Below, StartAt, Crawl, OnlyGains;
    PageSplits(c, snaps, i, tenant, pos, pageSize, budget);
    CrawlPage(c, snaps, i, token, pageSize, tenant, budget, n, pos);
    if pos >= 0 { ScanMoves(c, tenant, snaps(i), pos, pageSize, budget); }
    var r := Scan(c, tenant, snaps(i), pos, pageSize, budget);
    if r.pos >= 0 { TokenFindsPlace(c, snaps, i, i + 1, r.pos); }
  }

  lemma {:induction false} CrawlFrom(c: Codec, snaps: nat -> seq<Pair>, i: nat, token: string, pageSize: int,
                                     tenant: string, budget: nat, n: nat, pos: int)
    requires pageSize >= 1 && budget >= 1 && OnlyGains(c, snaps)
    requires pos < |snaps(0)| && n > pos + 1 && n >= 1 && pos >= -1
    requires StartAt(snaps(i), token) == pos
    ensures Crawl(c, snaps, i, token, pageSize, tenant, budget, n) == Crawled(Below(c, tenant, snaps(0), pos), true)
    decreases n
  {
    hide *;
    CrawlStep(c, snaps, i, token, pageSize, tenant, budget, n, pos);
    var r := Scan(c, tenant, snaps(i), pos, pageSize, budget);
    if r.pos < 0 {
      NothingBelow(c, tenant, snaps(0), r.pos);
      assert r.entries + [] == r.entries;
    } else {
      CrawlFrom(c, snaps, i + 1, snaps(i)[r.pos].key, pageSize, tenant, budget, n - 1, r.pos);
    }
  }

  lemma {:induction false} NothingBelow(c: Codec, tenant: string, db: seq<Pair>, pos: int)
    requires pos < 0
    ensures Below(c, tenant, db, pos) == []
  {
  }

  /**
   Paging is complete. Following the tokens from "" over a store that only
   gains newer keys ends within one page more than it had keys, and the pages
   put together are exactly the tenant's entries that were there at the start,
   newest first, each once; whatever the page size (at least one), the scan
   budget and the prefilter.
   */
  lemma {:induction false} PagingIsComplete(c: Codec, snaps: nat -> seq<Pair>, pageSize: int, tenant: string,
                                            budget: nat, n: nat)
    requires pageSize >= 1 && budget >= 1 && OnlyGains(c, snaps) && n > |snaps(0)|
    ensures Crawl(c, snaps, 0, "", pageSize, tenant, budget, n) ==
            Crawled(Below(c, tenant, snaps(0), |snaps(0)| - 1), true)
  {
    CrawlFrom(c, snaps, 0, "", pageSize, tenant, budget, n, |snaps(0)| - 1);
  }

  // Without a positive page size a page is empty and its token names the
  // place it started from.
  lemma {:induction false} EmptyPage(c: Codec, db: seq<Pair>, pageSize: int, token: string, tenant: string, budget: nat)
    requires pageSize <= 0
    ensures var pos := StartAt(db, token);
            List(c, db, pageSize, token, tenant, budget) == Listing([], if pos >= 0 then db[pos].key else "")
  {
  }

  lemma {:induction false} EmptyPagesNeverEnd(c: Codec, snaps: nat -> seq<Pair>, i: nat, token: string, pageSize: int,
                                              tenant: string, budget: nat, n: nat, p: nat)
    requires pageSize <= 0 && OnlyGains(c, snaps) && p < |snaps(0)| && StartAt(snaps(i), token) == p
    ensures Crawl(c, snaps, i, token, pageSize, tenant, budget, n) == Crawled([], false)
    decreases n
  {
    if n == 0 {
    } else {
      TokenFindsPlace(c, snaps, i, i + 1, p);
      EmptyPage(c, snaps(i), pageSize, token, tenant, budget);
      hide StartAt, List, OnlyGains;
      EmptyPagesNeverEnd(c, snaps, i + 1, snaps(i)[p].key, pageSize, tenant, budget, n - 1, p);
    }
  }

  // Paging from the start ends exactly if the page size is positive or there
  // was nothing to read.
  lemma {:induction false} PagingEnds(c: Codec, snaps: nat -> seq<Pair>, pageSize: int, tenant: string, budget: nat)
    requires budget >= 1 && OnlyGains(c, snaps)
    ensures (exists n: nat :: Crawl(c, snaps, 0, "", pageSize, tenant, budget, n).done) <==>
            pageSize >= 1 || snaps(0) == []
  {
    if pageSize >= 1 {
      PagingIsComplete(c, snaps, pageSize, tenant, budget, |snaps(0)| + 1);
    } else if snaps(0) == [] {
      EmptyPage(c, snaps(0), pageSize, "", tenant, budget);
      assert Crawl(c, snaps, 0, "", pageSize, tenant, budget, 1).done;
    } else {
      forall n: nat ensures !Crawl(c, snaps, 0, "", pageSize, tenant, budget, n).done {
        EmptyPagesNeverEnd(c, snaps, 0, "", pageSize, tenant, budget, n, |snaps(0)| - 1);
      }
    }
  }

  /******* Truncation *******/

  function Key(stamp: int, id: string): string { ShowInt(stamp) + "_" + id }

  // The timestamp a key starts with, if it has one.
  function Stamp(key: string): Option<int> {
    match IndexOf(key, '_')
    case None => None
    case Some(i) => ParseInt(key[..i])
  }

  function Bound(cutoff: int): string { ShowInt(cutoff) + "_" }

  predicate StampedBefore(key: string, cutoff: int) { Stamp(key).Some? && Stamp(key).value < cutoff }

  // What the bounded scan deletes.
  predicate Doomed(key: string, cutoff: int) { Less(key, Bound(cutoff)) && StampedBefore(key, cutoff) }

  function Kept(db: seq<Pair>, cutoff: int): seq<Pair> {
    if db == [] then []
    else Kept(db[..|db| - 1], cutoff) + if Doomed(db[|db| - 1].key, cutoff) then [] else [db[|db| - 1]]
  }

  // A full scan by timestamp, which truncation stands in for.
  function NotBefore(db: seq<Pair>, cutoff: int): seq<Pair> {
    if db == [] then []
    else
      var last := db[|db| - 1];
      NotBefore(db[..|db| - 1], cutoff) + if StampedBefore(last.key, cutoff) then [] else [last]
  }

  lemma {:induction false} StampOfKey(stamp: int, id: string)
    requires Is64Bit(stamp)
    ensures Stamp(Key(stamp, id)) == Some(stamp)
  {
    var s := ShowInt(stamp);
    assert '_' !in s by {
      forall i | 0 <= i < |s| ensures s[i] != '_' {
        if stamp < 0 && i > 0 { assert s[i] == Show(-stamp)[i - 1]; }
      }
    }
    FirstSplit(s, '_', id);
    assert Key(stamp, id) == s + ['_'] + id;
    ParseOfShow(stamp);
  }

  /******* How far the bound reaches *******/

  // Whether the bound of a cutoff reaches a key stamped before it: always over
  // the sign, for one digit width if both are positive, and otherwise by the
  // leading digits of the wider one.
  predicate Reached(stamp: int, cutoff: int)
    requires stamp < cutoff
  {
    if stamp < 0 <= cutoff then true
    else if 0 <= stamp then
      WidthGrows(stamp, cutoff);
      |Show(stamp)| == |Show(cutoff)| || stamp < Lead(cutoff, |Show(stamp)|)
    else
      WidthGrows(-cutoff, -stamp);
      |Show(-stamp)| > |Show(-cutoff)| && Lead(-stamp, |Show(-cutoff)|) <= -cutoff
  }

  // Digits of one width, a separator behind them.
  lemma {:induction false} SameWidth(a: string, b: string, id: string)
    requires AllDigits(a) && AllDigits(b) && |a| == |b|
    ensures Less(a + ("_" + id), b + "_") <==> Value(a) < Value(b)
  {
    WidthOrder(a, b);
    LessByHead(a, b, "_" + id, "_");
    LessAfter("_", id, "");
    assert "_" + "" == "_";
    hide Value, AllDigits;
  }

  // A digit sorts before the separator: the narrower number loses a tie.
  lemma {:induction false} Narrower(a: string, b: string, id: string)
    requires AllDigits(a) && AllDigits(b) && |a| < |b| && AllDigits(b[..|a|])
    ensures Less(a + ("_" + id), b + "_") <==> Value(a) < Value(b[..|a|])
  {
    var head, tail := b[..|a|], b[|a|..] + "_";
    WidthOrder(a, head);
    LessByHead(a, head, "_" + id, tail);
    assert b + "_" == head + tail;
    assert IsDigit(tail[0]) by { assert IsDigit(b[|a|]); }
    hide Value, AllDigits;
    assert !Less("_" + id, tail);
  }

  lemma {:induction false} Wider(a: string, b: string, id: string)
    requires AllDigits(a) && AllDigits(b) && |a| > |b| && AllDigits(a[..|b|])
    ensures Less(a + ("_" + id), b + "_") <==> Value(a[..|b|]) <= Value(b)
  {
    var head, tail := a[..|b|], a[|b|..] + ("_" + id);
    WidthOrder(head, b);
    WidthOrder(b, head);
    LessTotal(head, b);
    LessByHead(head, b, tail, "_");
    assert a + ("_" + id) == head + tail;
    assert IsDigit(tail[0]) by { assert IsDigit(a[|b|]); }
    hide Value, AllDigits;
    assert Less(tail, "_");
    if head == b { LessIrreflexive(b); }
  }

  // With one digit width, the bound cuts exactly at the cutoff.
  lemma {:induction false} BoundIsExact(stamp: int, id: string, cutoff: int)
    requires 0 <= stamp && 0 <= cutoff && |Show(stamp)| == |Show(cutoff)|
    ensures Less(Key(stamp, id), Bound(cutoff)) <==> stamp < cutoff
  {
    hide Show, Value, Less;
    ValueOfShow(stamp);
    ValueOfShow(cutoff);
    SameWidth(Show(stamp), Show(cutoff), id);
    assert Key(stamp, id) == Show(stamp) + ("_" + id);
  }

  // A narrower timestamp is compared with the leading digits of the cutoff.
  lemma {:induction false} NarrowStampReached(stamp: int, id: string, cutoff: int)
    requires 0 <= stamp && 0 <= cutoff && |Show(stamp)| < |Show(cutoff)|
    ensures Less(Key(stamp, id), Bound(cutoff)) <==> stamp < Lead(cutoff, |Show(stamp)|)
  {
    hide Show, Value, Less;
    ValueOfShow(stamp);
    DigitsHead(Show(cutoff), |Show(stamp)|);
    Narrower(Show(stamp), Show(cutoff), id);
    assert Key(stamp, id) == Show(stamp) + ("_" + id);
  }

  // Behind a minus sign the order turns round.
  lemma {:induction false} NegativeStampReached(stamp: int, id: string, cutoff: int)
    requires stamp < cutoff < 0
    ensures Less(Key(stamp, id), Bound(cutoff)) <==> Reached(stamp, cutoff)
  {
    hide Show, Value, Less;
    var a, b := Show(-stamp), Show(-cutoff);
    WidthGrows(-cutoff, -stamp);
    ValueOfShow(-stamp);
    ValueOfShow(-cutoff);
    DigitsHead(a, |b|);
    if |a| > |b| { Wider(a, b, id); } else { SameWidth(a, b, id); }
    LessAfter("-", a + ("_" + id), b + "_");
    assert Key(stamp, id) == "-" + (a + ("_" + id)) && Bound(cutoff) == "-" + (b + "_");
  }

  lemma {:induction false} SignReached(stamp: int, id: string, cutoff: int)
    requires stamp < 0 <= cutoff
    ensures Less(Key(stamp, id), Bound(cutoff))
  {
    assert Key(stamp, id)[0] == '-' && Bound(cutoff)[0] == Show(cutoff)[0] && IsDigit(Show(cutoff)[0]);
  }

  // For every timestamp before the cutoff, of any sign and width.
  lemma {:induction false} BoundReaches(stamp: int, id: string, cutoff: int)
    requires stamp < cutoff
    ensures Less(Key(stamp, id), Bound(cutoff)) <==> Reached(stamp, cutoff)
  {
    if stamp < 0 <= cutoff {
      SignReached(stamp, id, cutoff);
    } else if cutoff < 0 {
      NegativeStampReached(stamp, id, cutoff);
    } else {
      WidthGrows(stamp, cutoff);
      if |Show(stamp)| == |Show(cutoff)| {
        BoundIsExact(stamp, id, cutoff);
      } else {
        NarrowStampReached(stamp, id, cutoff);
      }
    }
  }

  // The keys this store writes.
  ghost predicate Written(key: string) { exists stamp, id :: Is64Bit(stamp) && key == Key(stamp, id) }

  ghost predicate AllWritten(db: seq<Pair>) { forall i :: 0 <= i < |db| ==> Written(db[i].key) }

  lemma {:induction false} WrittenReached(stamp: int, id: string, cutoff: int)
    requires Is64Bit(stamp) && stamp < cutoff
    ensures var key := Key(stamp, id);
            StampedBefore(key, cutoff) && (Less(key, Bound(cutoff)) <==> Reached(Stamp(key).value, cutoff))
  {
    StampOfKey(stamp, id);
    hide Reached, Key, Less, Bound, Stamp;
    BoundReaches(stamp, id, cutoff);
  }

  // The bounded scan keeps what the full scan keeps, and the keys stamped
  // before the cutoff that its bound does not reach.
  lemma {:induction false} KeptIsMore(db: seq<Pair>, cutoff: int)
    ensures |Kept(db, cutoff)| >= |NotBefore(db, cutoff)|
    ensures (forall i :: 0 <= i < |db| && StampedBefore(db[i].key, cutoff) ==> Less(db[i].key, Bound(cutoff)))
            <==> Kept(db, cutoff) == NotBefore(db, cutoff)
    ensures Kept(db, cutoff) != NotBefore(db, cutoff) ==> |Kept(db, cutoff)| > |NotBefore(db, cutoff)|
  {
    hide StampedBefore, Less, Bound;
    if db == [] {
    } else {
      var n := |db| - 1;
      KeptIsMore(db[..n], cutoff);
      assert forall i :: 0 <= i < n ==> db[..n][i] == db[i];
    }
  }

  /**
   The bounded scan is the full scan, what it keeps being exactly what is not
   stamped before the cutoff, if and only if the bound reaches every timestamp
   before the cutoff.
   */
  lemma {:induction false} BoundedScanIsFullScan(db: seq<Pair>, cutoff: int)
    requires AllWritten(db)
    ensures Kept(db, cutoff) == NotBefore(db, cutoff) <==>
            forall i :: 0 <= i < |db| && StampedBefore(db[i].key, cutoff) ==> Reached(Stamp(db[i].key).value, cutoff)
  {
    KeptIsMore(db, cutoff);
    forall i | 0 <= i < |db| && StampedBefore(db[i].key, cutoff)
      ensures Less(db[i].key, Bound(cutoff)) <==> Reached(Stamp(db[i].key).value, cutoff)
    {
      hide Reached, Less, Bound, Key, Stamp, Kept, NotBefore;
      assert Written(db[i].key);
      var stamp, id :| Is64Bit(stamp) && db[i].key == Key(stamp, id);
      StampOfKey(stamp, id);
      WrittenReached(stamp, id, cutoff);
    }
    hide Kept, NotBefore, Less, Bound, Reached;
  }

  // One digit width is enough: it is what the store relies on.
  lemma {:induction false} OneWidthIsEnough(db: seq<Pair>, cutoff: int)
    requires AllWritten(db) && 0 <= cutoff
    requires forall i :: 0 <= i < |db| && StampedBefore(db[i].key, cutoff) ==>
               var stamp := Stamp(db[i].key).value; 0 <= stamp && |Show(stamp)| == |Show(cutoff)|
    ensures Kept(db, cutoff) == NotBefore(db, cutoff)
  {
    BoundedScanIsFullScan(db, cutoff);
    forall i | 0 <= i < |db| && StampedBefore(db[i].key, cutoff) ensures Reached(Stamp(db[i].key).value, cutoff) {
    }
  }

  // A narrower timestamp before the cutoff survives exactly when it is not
  // below the cutoff's leading digits.
  lemma {:induction false} NarrowStampSurvives(stamp: int, id: string, cutoff: int)
    requires 0 <= stamp && Is64Bit(stamp) && 0 <= cutoff && |Show(stamp)| < |Show(cutoff)|
    ensures stamp < cutoff && (!Doomed(Key(stamp, id), cutoff) <==> Lead(cutoff, |Show(stamp)|) <= stamp)
  {
    WiderIsMore(stamp, cutoff);
    StampOfKey(stamp, id);
    NarrowStampReached(stamp, id, cutoff);
    hide Less, Key, Bound, Stamp, Lead, Show;
  }
}
