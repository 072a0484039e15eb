/**
 The step files of the schema migration: what their names say, and the list in
 which they are run.
 */
module MigrateFiles {
  import opened Prelude
  import opened Decimal
  import opened Text
  import opened StableSort

  datatype File = File(name: string, isDir: bool)

  datatype Named = Named(version: int, name: string)

  datatype LoadResult = Loaded(steps: seq<Named>) | BadName(file: string) | Duplicate(version: int)

  const SUFFIX: string := ".sql"

  predicate IsStep(f: File) {
    !f.isDir && HasSuffix(f.name, SUFFIX)
  }

  // "0002_api_key_scopes.sql" is version 2, named "api_key_scopes".
  function ParseName(file: string): Option<Named>
    requires |file| >= |SUFFIX|
  {
    var base := file[..|file| - |SUFFIX|];
    match IndexOf(base, '_')
    case None => None
    case Some(i) =>
      match ParseInt(base[..i])
      case None => None
      case Some(v) => Some(Named(v, base[i + 1..]))
  }

  // The file is named by a number without an underscore, an underscore, the
  // step's name, whatever it holds, and the suffix.
  ghost predicate NamedBy(file: string, n: Named) {
    exists prefix: string :: '_' !in prefix && Numeral(prefix, n.version) && file == prefix + "_" + n.name + ".sql"
  }

  lemma {:induction false} ParseNameSplits(prefix: string, name: string)
    requires '_' !in prefix
    ensures ParseName(prefix + "_" + name + ".sql") ==
            match ParseInt(prefix) case None => None case Some(v) => Some(Named(v, name))
  {
    var file := prefix + "_" + name + ".sql";
    assert file[..|file| - 4] == prefix + ['_'] + name;
    FirstSplit(prefix, '_', name);
    hide ParseInt, IndexOf;
  }

  lemma {:induction false} ParsedIsNamed(file: string, n: Named)
    requires |file| >= 4 && file[|file| - 4..] == ".sql" && ParseName(file) == Some(n)
    ensures NamedBy(file, n)
  {
    var base := file[..|file| - 4];
    var i := IndexOf(base, '_').value;
    var prefix := base[..i];
    hide ParseInt, Numeral, IndexOf;
    ParseReadsNumeral(prefix, n.version);
    assert base == prefix + "_" + n.name;
    assert file == base + ".sql";
  }

  lemma {:induction false} NamedIsParsed(file: string, n: Named)
    requires NamedBy(file, n)
    ensures |file| >= 4 && file[|file| - 4..] == ".sql" && ParseName(file) == Some(n)
  {
    hide ParseInt, Numeral, ParseName;
    var prefix: string :| '_' !in prefix && Numeral(prefix, n.version) && file == prefix + "_" + n.name + ".sql";
    ParseReadsNumeral(prefix, n.version);
    ParseNameSplits(prefix, n.name);
  }

  // A name reads as a version and a name exactly when it was put together so.
  lemma {:induction false} ParseNameReads(file: string, n: Named)
    requires |file| >= 4 && file[|file| - 4..] == ".sql"
    ensures ParseName(file) == Some(n) <==> NamedBy(file, n)
  {
    hide ParseName, NamedBy;
    if ParseName(file) == Some(n) { ParsedIsNamed(file, n); }
    if NamedBy(file, n) { NamedIsParsed(file, n); }
  }

  lemma {:induction false} OnePrefix(base: string, prefix: string)
    requires '_' !in prefix && prefix + "_" <= base
    ensures IndexOf(base, '_') == Some(|prefix|) && base[..|prefix|] == prefix
  {
    var rest := base[|prefix| + 1..];
    assert base == prefix + ['_'] + rest;
    FirstSplit(prefix, '_', rest);
  }

  // It reads as none exactly when there is no underscore, or what stands before
  // the first is no number.
  lemma {:induction false} BadNames(file: string)
    requires |file| >= 4 && file[|file| - 4..] == ".sql"
    ensures ParseName(file).None? <==>
              ('_' !in file[..|file| - 4]
               || exists prefix: string :: '_' !in prefix && prefix + "_" <= file[..|file| - 4] && NoNumber(prefix))
  {
    var base := file[..|file| - 4];
    hide ParseInt, NoNumber, IndexOf;
    if '_' in base {
      var first := base[..IndexOf(base, '_').value];
      assert ParseName(file).None? <==> ParseInt(first).None?;
      hide ParseName;
      assert base[..|first| + 1] == first + "_";
      NoNumberFails(first);
      if prefix: string :| '_' !in prefix && prefix + "_" <= base && NoNumber(prefix) { OnePrefix(base, prefix); }
    }
  }

  ghost predicate NoNumber(s: string) { forall n :: !Numeral(s, n) }

  lemma {:induction false} NoNumberFails(s: string)
    ensures NoNumber(s) <==> ParseInt(s).None?
  {
    hide ParseInt, Numeral;
    forall n ensures Numeral(s, n) <==> ParseInt(s) == Some(n) { ParseReadsNumeral(s, n); }
    if ParseInt(s).Some? { assert Numeral(s, ParseInt(s).value); }
  }

  // Zeros in front of the version and underscores in the name make no difference.
  lemma {:induction false} PaddedNameReads(zeros: string, version: int, name: string)
    requires 0 <= version && Is64Bit(version) && forall i :: 0 <= i < |zeros| ==> zeros[i] == '0'
    ensures ParseName(zeros + Show(version) + "_" + name + ".sql") == Some(Named(version, name))
  {
    var prefix := zeros + Show(version);
    ValueOfPadded(zeros, Show(version));
    ValueOfShow(version);
    assert '_' !in prefix by { assert forall i :: 0 <= i < |prefix| ==> IsDigit(prefix[i]); }
    ParseReadsNumeral(prefix, version);
    ParseNameSplits(prefix, name);
    hide ParseInt, Show, Value;
  }

  // The step files in directory order, those with a bad name left out.
  function Parsed(files: seq<File>): seq<Named> {
    if files == [] then []
    else
      var f := files[|files| - 1];
      Parsed(files[..|files| - 1]) +
        if !IsStep(f) then [] else match ParseName(f.name) case None => [] case Some(n) => [n]
  }

  ghost predicate AllParse(files: seq<File>) {
    forall f :: f in files && IsStep(f) ==> ParseName(f.name).Some?
  }

  function VersionOf(n: Named): int { n.version }

  lemma {:induction false} ParsedNext(files: seq<File>, i: nat)
    requires i < |files|
    ensures var f := files[i];
            && Parsed(files[..i + 1]) == Parsed(files[..i]) +
                 (if !IsStep(f) then [] else match ParseName(f.name) case None => [] case Some(n) => [n])
            && (AllParse(files[..i + 1]) <==> AllParse(files[..i]) && (IsStep(f) ==> ParseName(f.name).Some?))
  {
    assert files[..i + 1][..i] == files[..i] && files[..i + 1] == files[..i] + [files[i]];
    hide ParseName;
  }

  lemma {:induction false} BadNameStays(files: seq<File>, i: nat)
    requires i < |files| && IsStep(files[i]) && ParseName(files[i].name).None?
    ensures !AllParse(files)
  {
    hide ParseName;
    assert files[i] in files;
  }

  // A file of the directory, not a directory itself, is so named.
  ghost predicate StepFile(f: File, n: Named) { !f.isDir && NamedBy(f.name, n) }

  // A file that should be a step and has no number.
  ghost predicate Misnamed(f: File) {
    !f.isDir && |f.name| >= 4 && f.name[|f.name| - 4..] == ".sql" && forall n :: !NamedBy(f.name, n)
  }

  lemma {:induction false} StepFileParses(f: File, n: Named)
    ensures StepFile(f, n) <==> IsStep(f) && ParseName(f.name) == Some(n)
  {
    hide ParseName, NamedBy;
    if NamedBy(f.name, n) { NamedIsParsed(f.name, n); }
    if IsStep(f) { ParseNameReads(f.name, n); }
  }

  lemma {:induction false} MisnamedFails(f: File)
    ensures Misnamed(f) <==> IsStep(f) && ParseName(f.name).None?
  {
    hide ParseName, NamedBy;
    if IsStep(f) {
      forall n ensures NamedBy(f.name, n) <==> ParseName(f.name) == Some(n) { ParseNameReads(f.name, n); }
      if ParseName(f.name).Some? { assert NamedBy(f.name, ParseName(f.name).value); }
    }
  }

  lemma {:induction false} AllParseMeans(files: seq<File>)
    ensures AllParse(files) <==> forall f :: f in files ==> !Misnamed(f)
  {
    hide ParseName, Misnamed;
    forall f ensures Misnamed(f) <==> IsStep(f) && ParseName(f.name).None? { MisnamedFails(f); }
  }

  lemma {:induction false} ParsedLast(files: seq<File>)
    requires files != []
    ensures var f, before := files[|files| - 1], Parsed(files[..|files| - 1]);
            && (Parsed(files) == before || exists n :: StepFile(f, n) && Parsed(files) == before + [n])
            && forall n :: StepFile(f, n) ==> Parsed(files) == before + [n]
  {
    var f := files[|files| - 1];
    forall n ensures StepFile(f, n) <==> IsStep(f) && ParseName(f.name) == Some(n) { StepFileParses(f, n); }
    hide StepFile, ParseName;
    if IsStep(f) && ParseName(f.name).Some? { assert StepFile(f, ParseName(f.name).value); }
  }

  lemma {:induction false} ParsedKeeps(files: seq<File>)
    requires files != []
    ensures Parsed(files[..|files| - 1]) <= Parsed(files)
  {
    ParsedLast(files);
    hide StepFile, Parsed;
  }

  lemma {:induction false} ParsedAdds(files: seq<File>, n: Named)
    requires files != [] && StepFile(files[|files| - 1], n)
    ensures Parsed(files) == Parsed(files[..|files| - 1]) + [n]
  {
    ParsedLast(files);
    hide StepFile, Parsed;
  }

  // Each file that is a step is found, in directory order.
  lemma {:induction false} ParsedPlaces(files: seq<File>, i: nat, n: Named) returns (p: nat)
    requires i < |files| && StepFile(files[i], n)
    ensures p == |Parsed(files[..i])| < |Parsed(files)| && Parsed(files)[p] == n
  {
    var last := |files| - 1;
    hide StepFile, Parsed;
    p := |Parsed(files[..i])|;
    if i < last {
      ParsedKeeps(files);
      var q := ParsedPlaces(files[..last], i, n);
      assert files[..last][..i] == files[..i];
    } else {
      ParsedAdds(files, n);
    }
  }

  lemma {:induction false} PlaceOf(files: seq<File>, p: nat) returns (i: nat)
    requires p < |Parsed(files)|
    ensures i < |files| && StepFile(files[i], Parsed(files)[p]) && |Parsed(files[..i])| == p
  {
    assert files != [];
    var last := |files| - 1;
    ParsedLast(files);
    hide StepFile, Parsed;
    if p < |Parsed(files[..last])| {
      i := PlaceOf(files[..last], p);
      assert files[..last][..i] == files[..i];
    } else {
      i := last;
    }
  }

  lemma {:induction false} ParsedGrows(files: seq<File>, i: nat, j: nat)
    requires i <= j <= |files|
    ensures |Parsed(files[..i])| <= |Parsed(files[..j])|
  {
    hide ParseName;
    if i < j {
      ParsedGrows(files, i, j - 1);
      assert files[..j][..j - 1] == files[..j - 1];
    }
  }

  // Two files that read as steps are found at two places, in their order.
  lemma {:induction false} TwoFilesTwoPlaces(files: seq<File>, i: nat, j: nat, a: Named, b: Named)
    returns (p: nat, q: nat)
    requires i < j < |files| && StepFile(files[i], a) && StepFile(files[j], b)
    ensures p < q < |Parsed(files)| && Parsed(files)[p] == a && Parsed(files)[q] == b
  {
    p := ParsedPlaces(files, i, a);
    q := ParsedPlaces(files, j, b);
    hide StepFile, Parsed;
    assert files[..i + 1][..i] == files[..i] && files[..i + 1][i] == files[i];
    ParsedAdds(files[..i + 1], a);
    ParsedGrows(files, i + 1, j);
  }

  lemma {:induction false} TwoPlacesTwoFiles(files: seq<File>, p: nat, q: nat) returns (i: nat, j: nat)
    requires p < q < |Parsed(files)|
    ensures i < j < |files| && StepFile(files[i], Parsed(files)[p]) && StepFile(files[j], Parsed(files)[q])
  {
    i := PlaceOf(files, p);
    j := PlaceOf(files, q);
    hide Parsed, StepFile;
    if j <= i { ParsedGrows(files, j, i); }
  }

  lemma {:induction false} FoundIffStepFile(files: seq<File>, n: Named)
    ensures n in Parsed(files) <==> exists f :: f in files && StepFile(f, n)
  {
    hide Parsed, StepFile;
    if n in Parsed(files) {
      var p :| 0 <= p < |Parsed(files)| && Parsed(files)[p] == n;
      var i := PlaceOf(files, p);
      assert files[i] in files;
    }
    if f :| f in files && StepFile(f, n) {
      var i :| 0 <= i < |files| && files[i] == f;
      var p := ParsedPlaces(files, i, n);
    }
  }

  // Two files carry one version.
  ghost predicate Clash(files: seq<File>, version: int) {
    exists i, j, a, b :: 0 <= i < j < |files| && StepFile(files[i], Named(version, a))
      && StepFile(files[j], Named(version, b))
  }

  method ParseAll(files: seq<File>) returns (found: seq<Named>, bad: Option<string>)
    ensures bad.Some? <==> !AllParse(files)
    ensures bad.None? ==> found == Parsed(files)
    ensures bad.Some? <==> exists f :: f in files && Misnamed(f)
    ensures bad.None? ==> forall n :: n in found <==> exists f :: f in files && StepFile(f, n)
  {
    AllParseMeans(files);
    forall n ensures n in Parsed(files) <==> exists f :: f in files && StepFile(f, n) { FoundIffStepFile(files, n); }
    hide StepFile, Misnamed;
    found := [];
    for i := 0 to |files|
      invariant AllParse(files[..i]) && found == Parsed(files[..i])
    {
      ParsedNext(files, i);
      hide Parsed, AllParse, ParseName;
      if !IsStep(files[i]) {
        continue;
      }
      match ParseName(files[i].name) {
        case None =>
          BadNameStays(files, i);
          return found, Some(files[i].name);
        case Some(n) =>
          found := found + [n];
      }
    }
    assert files[..|files|] == files;
    bad := None;
  }

  method FindDuplicate(steps: seq<Named>) returns (at: nat)
    requires Ordered(VersionOf, steps)
    ensures at < |steps| ==> 1 <= at && steps[at].version == steps[at - 1].version
    ensures at >= |steps| ==> forall i, j :: 0 <= i < j < |steps| ==> steps[i].version < steps[j].version
  {
    at := 1;
    while at < |steps|
      invariant 1 <= at && forall i, j :: 0 <= i < j < at && j < |steps| ==> steps[i].version < steps[j].version
    {
      assert VersionOf(steps[at - 1]) <= VersionOf(steps[at]);
      if steps[at].version == steps[at - 1].version {
        return;
      }
      at := at + 1;
    }
  }

  // Reads the step files and orders them by their numeric prefix. What comes
  // back is strictly ascending, which is what running them relies on.
  method LoadMigrations(files: seq<File>) returns (r: LoadResult)
    ensures r.BadName? <==> !AllParse(files)
    ensures r.BadName? <==> exists f :: f in files && Misnamed(f)
    ensures r.Loaded? ==> multiset(r.steps) == multiset(Parsed(files))
    ensures r.Loaded? ==> forall i, j :: 0 <= i < j < |r.steps| ==> r.steps[i].version < r.steps[j].version
    ensures r.Loaded? ==> forall n :: n in r.steps <==> exists f :: f in files && StepFile(f, n)
    ensures r.Loaded? ==> forall v :: !Clash(files, v)
    ensures r.Duplicate? ==> Clash(files, r.version)
  {
    var found, bad := ParseAll(files);
    if bad.Some? {
      return BadName(bad.value);
    }
    hide AllParse, Parsed, StepFile, Misnamed, Clash;
    var steps := Sorted(VersionOf, found);
    SortedSorts(VersionOf, found);
    hide Sorted;
    var at := FindDuplicate(steps);
    if at < |steps| {
      TwiceInSource(found, steps, at);
      ClashOf(files, steps[at].version);
      return Duplicate(steps[at].version);
    }
    SameMembers(steps, found);
    NoClash(files, steps);
    r := Loaded(steps);
  }

  lemma {:induction false} SameMembers(a: seq<Named>, b: seq<Named>)
    requires multiset(a) == multiset(b)
    ensures forall n :: n in a <==> n in b
  {
    forall n ensures n in a <==> n in b { assert n in a <==> n in multiset(a); }
  }

  lemma {:induction false} ClashOf(files: seq<File>, version: int)
    requires exists p, q :: 0 <= p < q < |Parsed(files)|
                            && Parsed(files)[p].version == Parsed(files)[q].version == version
    ensures Clash(files, version)
  {
    hide Parsed, StepFile;
    var p, q :| 0 <= p < q < |Parsed(files)| && Parsed(files)[p].version == Parsed(files)[q].version == version;
    var i, j := TwoPlacesTwoFiles(files, p, q);
    var a, b := Parsed(files)[p].name, Parsed(files)[q].name;
    assert StepFile(files[i], Named(version, a)) && StepFile(files[j], Named(version, b));
  }

  lemma {:induction false} NoClash(files: seq<File>, steps: seq<Named>)
    requires multiset(steps) == multiset(Parsed(files))
    requires forall i, j :: 0 <= i < j < |steps| ==> steps[i].version < steps[j].version
    ensures forall v :: !Clash(files, v)
  {
    hide Parsed, StepFile;
    forall v ensures !Clash(files, v) {
      if Clash(files, v) {
        var i, j, a, b :| 0 <= i < j < |files| && StepFile(files[i], Named(v, a)) && StepFile(files[j], Named(v, b));
        var p, q := TwoFilesTwoPlaces(files, i, j, Named(v, a), Named(v, b));
        NotTwice(Parsed(files), steps, p, q);
      }
    }
  }

  lemma {:induction false} NotTwice(found: seq<Named>, steps: seq<Named>, p: nat, q: nat)
    requires multiset(steps) == multiset(found) && p < q < |found|
    requires forall i, j :: 0 <= i < j < |steps| ==> steps[i].version < steps[j].version
    ensures found[p].version != found[q].version
  {
    var a, b := found[p], found[q];
    assert found == found[..p] + [a] + found[p + 1..q] + [b] + found[q + 1..];
    assert multiset{a, b} <= multiset(found);
    if a == b {
      assert multiset(steps)[a] >= 2;
      TwoPlaces(steps, a);
    } else {
      assert a in multiset(steps) && b in multiset(steps);
      var i :| 0 <= i < |steps| && steps[i] == a;
      var j :| 0 <= j < |steps| && steps[j] == b;
      assert i != j;
    }
  }

  // Two places with one version in the sorted list are two places in the source.
  lemma {:induction false} TwiceInSource(found: seq<Named>, steps: seq<Named>, i: nat)
    requires 1 <= i < |steps| && multiset(steps) == multiset(found) && steps[i].version == steps[i - 1].version
    ensures exists j, k :: 0 <= j < k < |found| && found[j].version == found[k].version == steps[i].version
  {
    var a, b := steps[i - 1], steps[i];
    assert steps == steps[..i - 1] + [a, b] + steps[i + 1..];
    assert multiset{a, b} <= multiset(steps);
    if a == b {
      assert multiset(found)[a] >= 2;
      TwoPlaces(found, a);
    } else {
      assert a in found && b in found;
      var j :| 0 <= j < |found| && found[j] == a;
      var k :| 0 <= k < |found| && found[k] == b;
    }
  }

  lemma {:induction false} TwoPlaces(xs: seq<Named>, x: Named)
    requires multiset(xs)[x] >= 2
    ensures exists j, k :: 0 <= j < k < |xs| && xs[j] == xs[k] == x
  {
    assert x in xs;
    var j :| 0 <= j < |xs| && xs[j] == x && x !in xs[..j] by { FirstPlace(xs, x); }
    assert xs == xs[..j] + [x] + xs[j + 1..];
    assert multiset(xs) == multiset(xs[..j]) + multiset{x} + multiset(xs[j + 1..]);
    assert x in xs[j + 1..];
    var k :| 0 <= k < |xs[j + 1..]| && xs[j + 1..][k] == x;
    assert xs[j + 1 + k] == x;
  }

  lemma {:induction false} FirstPlace(xs: seq<Named>, x: Named)
    requires x in xs
    ensures exists j :: 0 <= j < |xs| && xs[j] == x && x !in xs[..j]
  {
    if xs[0] == x {
      assert x !in xs[..0];
    } else {
      FirstPlace(xs[1..], x);
      var j :| 0 <= j < |xs[1..]| && xs[1..][j] == x && x !in xs[1..][..j];
      assert xs[..j + 1] == [xs[0]] + xs[1..][..j];
      assert xs[j + 1] == x && x !in xs[..j + 1];
    }
  }
}
