/** EWF segment sets: the numbered segments, each once and without a gap, then libewf's later names. */
module EwfSegments {
  import opened Wrappers
  import opened Text
  import opened SegmentNames
  import opened SplitSegments

  /** The number of a sibling that belongs to the family. */
  function FamilyNumber(stem: string, family: string, name: string): Option<nat> {
    match ExtOf(stem, name)
    case None => None
    case Some(e) =>
      match EwfNumber(e)
      case None => None
      case Some((f, n)) => if f == family then Some(n) else None
  }

  /** A sibling whose extension is, up to case, the one given. */
  predicate Named(stem: string, ext: string, name: string) {
    ExtOf(stem, name).Some? && Lower(ExtOf(stem, name).value) == Lower(ext)
  }

  /** The last number that an extension can give. */
  const LAST_NUMBER: nat := 775

  /** The file has libewf's n-th name. A name that is all extension (`.E01`) has no later ones: to the
      operating system it has no extension at all. */
  predicate NamedAs(stem: string, first: string, n: nat, name: string) {
    && (stem != [] || n <= LAST_NUMBER)
    && SegmentExtension(first, n).Some? && Named(stem, SegmentExtension(first, n).value, name)
  }

  /** The first extension of a family, in lower case. */
  function First(family: string): string {
    family + "01"
  }

  // ---- What a complete set is ----

  /** libewf's names 1 to |names| of the family, each the only such file. */
  predicate RunOfNames(dir: Directory, stem: string, first: string, names: seq<string>) {
    && (forall i :: 0 <= i < |names| ==> names[i] in dir && NamedAs(stem, first, i + 1, names[i]))
    && (forall i, name :: 0 <= i < |names| && name in dir && NamedAs(stem, first, i + 1, name) ==> name == names[i])
  }

  /** The run ends where no file has the next name, and holds every numbered file of the family. */
  predicate CompleteSet(dir: Directory, stem: string, family: string, names: seq<string>) {
    && names != [] && RunOfNames(dir, stem, First(family), names)
    && (forall name :: name in dir ==> !NamedAs(stem, First(family), |names| + 1, name))
    && (forall name :: name in dir && FamilyNumber(stem, family, name).Some? ==> name in names)
  }

  lemma RunNames(dir: Directory, stem: string, first: string, names: seq<string>, i: nat)
    requires RunOfNames(dir, stem, first, names) && i < |names|
    ensures names[i] in dir && NamedAs(stem, first, i + 1, names[i])
  {
  }

  lemma NextIsNamed(dir: Directory, stem: string, first: string, names: seq<string>, n: nat)
    requires RunOfNames(dir, stem, first, names)
    ensures n < |names| ==> exists name :: name in dir && NamedAs(stem, first, n + 1, name)
  {
    if n < |names| {
      assert names[n] in dir && NamedAs(stem, first, n + 1, names[n]);
    }
  }

  /** A directory holds one complete set of a family at most. */
  lemma CompleteSetUnique(dir: Directory, stem: string, family: string, a: seq<string>, b: seq<string>)
    requires CompleteSet(dir, stem, family, a) && CompleteSet(dir, stem, family, b)
    ensures a == b
  {
    hide NamedAs, FamilyNumber, First;
    NextIsNamed(dir, stem, First(family), a, |b|);
    NextIsNamed(dir, stem, First(family), b, |a|);
    assert |a| == |b|;
    forall i | 0 <= i < |a|
      ensures a[i] == b[i]
    {
      assert NamedAs(stem, First(family), i + 1, a[i]);
    }
  }

  // ---- Names and numbers of siblings ----

  lemma FirstIsNumbered(first: string, family: string)
    requires EwfNumber(first) == Some((family, 1))
    ensures EwfNumber(First(family)) == Some((family, 1)) && Lower(First(family)) == Lower(first)
  {
    FirstIsFirst(first, family);
    var f := First(family);
    assert Lower(first)[|family|..] == "01" by {
      assert first[|family|..] == "01";
    }
    assert Lower(first) == Lower(first)[..|family|] + Lower(first)[|family|..] == f;
    assert Lower(f) == f;
  }

  /** The case of the first extension does not matter. */
  lemma CaseBlind(first: string, family: string, n: nat)
    requires EwfNumber(first) == Some((family, 1))
    ensures var a, b := SegmentExtension(first, n), SegmentExtension(First(family), n);
            a.Some? == b.Some? && (a.Some? ==> Lower(a.value) == Lower(b.value))
  {
    FirstIsNumbered(first, family);
    FirstIsFirst(first, family);
    FirstIsFirst(First(family), family);
    var f := First(family);
    LowerAt(first, 0);
    LowerAt(f, 0);
    var a, b := SegmentExtension(first, n), SegmentExtension(f, n);
    if a.Some? && b.Some? {
      ExtensionShape(first, n);
      ExtensionShape(f, n);
      forall i | 0 <= i < |first|
        ensures LowerChar(a.value[i]) == LowerChar(b.value[i])
      {
      }
    }
  }

  lemma NumberedIsNamed(stem: string, family: string, first: string, name: string, n: nat)
    requires EwfNumber(first) == Some((family, 1)) && FamilyNumber(stem, family, name) == Some(n)
    ensures 1 <= n <= LAST_NUMBER && NamedAs(stem, first, n, name)
  {
    NumberIsNamed(first, ExtOf(stem, name).value, family, n);
    ExtensionIsNumbered(first, family, n);
  }

  lemma SameCaseSameNumber(a: string, b: string)
    requires Lower(a) == Lower(b)
    ensures EwfNumber(a) == EwfNumber(b)
  {
  }

  lemma NamedIsNumbered(stem: string, family: string, first: string, name: string, n: nat)
    requires EwfNumber(first) == Some((family, 1)) && 1 <= n <= LAST_NUMBER && NamedAs(stem, first, n, name)
    ensures FamilyNumber(stem, family, name) == Some(n)
  {
    ExtensionIsNumbered(first, family, n);
    SameCaseSameNumber(SegmentExtension(first, n).value, ExtOf(stem, name).value);
  }

  lemma NamedOnce(stem: string, first: string, m: nat, n: nat, name: string)
    requires NamedAs(stem, first, m, name) && NamedAs(stem, first, n, name)
    ensures m == n
  {
    NamesDiffer(first, m, n);
  }

  lemma InNames(names: seq<string>, name: string) returns (i: nat)
    requires name in names
    ensures i < |names| && names[i] == name
  {
    i :| 0 <= i < |names| && names[i] == name;
  }

  lemma PlaceOfName(dir: Directory, stem: string, first: string, names: seq<string>, name: string, n: nat)
    requires RunOfNames(dir, stem, first, names) && name in names && NamedAs(stem, first, n, name)
    ensures 1 <= n <= |names| && names[n - 1] == name
  {
    hide *;
    var i := InNames(names, name);
    RunNames(dir, stem, first, names, i);
    NamedOnce(stem, first, i + 1, n, name);
  }

  /** In a complete set a numbered file stands at its number. */
  lemma AtItsNumber(dir: Directory, stem: string, family: string, names: seq<string>, name: string)
    requires CompleteSet(dir, stem, family, names) && EwfNumber(First(family)) == Some((family, 1))
    requires name in dir && FamilyNumber(stem, family, name).Some?
    ensures var n := FamilyNumber(stem, family, name).value;
            1 <= n <= |names| && n <= LAST_NUMBER && names[n - 1] == name
  {
    var n := FamilyNumber(stem, family, name).value;
    assert name in names && RunOfNames(dir, stem, First(family), names);
    hide *;
    NumberedIsNamed(stem, family, First(family), name, n);
    PlaceOfName(dir, stem, First(family), names, name, n);
  }

  // ---- The numbered segments ----

  datatype Segment = Segment(number: nat, name: string)

  /** Ascending, and each a sibling of the family. */
  predicate Members(dir: Directory, stem: string, family: string, segments: seq<Segment>) {
    && (forall i :: 0 <= i < |segments| ==>
          segments[i].name in dir && FamilyNumber(stem, family, segments[i].name) == Some(segments[i].number))
    && (forall i, j :: 0 <= i < j < |segments| ==> segments[i].number <= segments[j].number)
    && (forall i, j :: 0 <= i < j < |segments| ==> segments[i].name != segments[j].name)
  }

  predicate Has(segments: seq<Segment>, name: string) {
    exists i :: 0 <= i < |segments| && segments[i].name == name
  }

  method AddMember(ghost dir: Directory, ghost stem: string, ghost family: string, segments: seq<Segment>, x: Segment)
    returns (r: seq<Segment>)
    requires Members(dir, stem, family, segments) && !Has(segments, x.name)
    requires x.name in dir && FamilyNumber(stem, family, x.name) == Some(x.number)
    ensures Members(dir, stem, family, r)
    ensures forall name :: Has(r, name) <==> Has(segments, name) || name == x.name
  {
    hide FamilyNumber;
    var k := 0;
    while k < |segments| && segments[k].number <= x.number
      invariant 0 <= k <= |segments| && forall i :: 0 <= i < k ==> segments[i].number <= x.number
    {
      k := k + 1;
    }
    r := segments[..k] + [x] + segments[k..];
    InsertedHas(segments, k, x);
    InsertedMembers(dir, stem, family, segments, k, x);
  }

  lemma InsertedHas(segments: seq<Segment>, k: nat, x: Segment)
    requires k <= |segments|
    ensures var r := segments[..k] + [x] + segments[k..];
            forall name :: Has(r, name) <==> Has(segments, name) || name == x.name
  {
    var r := segments[..k] + [x] + segments[k..];
    assert r[k].name == x.name;
    forall name
      ensures Has(r, name) <==> Has(segments, name) || name == x.name
    {
      if Has(segments, name) {
        var i :| 0 <= i < |segments| && segments[i].name == name;
        assert r[if i < k then i else i + 1].name == name;
      }
      if Has(r, name) {
        var i :| 0 <= i < |r| && r[i].name == name;
        assert i != k ==> segments[if i < k then i else i - 1].name == name;
      }
    }
  }

  lemma InsertedMembers(dir: Directory, stem: string, family: string, segments: seq<Segment>, k: nat, x: Segment)
    requires Members(dir, stem, family, segments) && !Has(segments, x.name) && k <= |segments|
    requires x.name in dir && FamilyNumber(stem, family, x.name) == Some(x.number)
    requires forall i :: 0 <= i < k ==> segments[i].number <= x.number
    requires forall i :: k <= i < |segments| ==> x.number <= segments[i].number
    ensures Members(dir, stem, family, segments[..k] + [x] + segments[k..])
  {
    hide FamilyNumber;
    var r := segments[..k] + [x] + segments[k..];
    assert forall i :: 0 <= i < |r| ==> r[i] == if i < k then segments[i] else if i == k then x else segments[i - 1];
  }

  method FamilyMembers(dir: Directory, stem: string, family: string) returns (segments: seq<Segment>)
    ensures Members(dir, stem, family, segments)
    ensures forall name :: Has(segments, name) <==> name in dir && FamilyNumber(stem, family, name).Some?
  {
    hide FamilyNumber;
    segments := [];
    var left := dir.Keys;
    while left != {}
      invariant left <= dir.Keys && Members(dir, stem, family, segments)
      invariant forall name ::
                  Has(segments, name) <==> name in dir && name !in left && FamilyNumber(stem, family, name).Some?
    {
      var name :| name in left;
      left := left - {name};
      match FamilyNumber(stem, family, name) {
        case None =>
        case Some(n) =>
          segments := AddMember(dir, stem, family, segments, Segment(n, name));
      }
    }
  }

  /** What a refusal says of the numbers: two segments have the number, or none has it. */
  predicate Tells(segments: seq<Segment>, e: SegmentError) {
    match e
    case Ambiguous(n) => exists i, j :: 0 <= i < j < |segments| && segments[i].number == n == segments[j].number
    case Missing(n) => n >= 1 && ((forall i :: 0 <= i < |segments| ==> segments[i].number > 0) ==>
                                    forall i :: 0 <= i < |segments| ==> segments[i].number != n)
    case _ => false
  }

  lemma MissingHere(segments: seq<Segment>, i: nat)
    requires i < |segments| && segments[i].number != i + 1
    requires forall k :: 0 <= k < i ==> segments[k].number == k + 1
    requires forall a, b :: 0 <= a < b < |segments| ==> segments[a].number <= segments[b].number
    requires forall a :: 0 < a < |segments| ==> segments[a - 1].number < segments[a].number
    ensures Tells(segments, Missing(i + 1))
  {
    if forall k :: 0 <= k < |segments| ==> segments[k].number > 0 {
      assert i > 0 ==> segments[i - 1].number < segments[i].number;
      assert segments[i].number > i + 1;
      forall k | 0 <= k < |segments|
        ensures segments[k].number != i + 1
      {
        if k > i {
          assert segments[i].number <= segments[k].number;
        }
      }
    }
  }

  /** Numbers 1, 2, ... in order: no duplicate, no gap. */
  method CheckNumbers(segments: seq<Segment>) returns (r: Option<SegmentError>)
    requires forall i, j :: 0 <= i < j < |segments| ==> segments[i].number <= segments[j].number
    ensures r == None <==> forall i :: 0 <= i < |segments| ==> segments[i].number == i + 1
    ensures r.Some? ==> Tells(segments, r.value)
  {
    var w := 0;
    while w + 1 < |segments|
      invariant w <= |segments|
      invariant forall i :: 0 < i <= w && i < |segments| ==> segments[i - 1].number < segments[i].number
    {
      if segments[w].number == segments[w + 1].number {
        return Some(Ambiguous(segments[w].number));
      }
      w := w + 1;
    }
    for i := 0 to |segments|
      invariant forall k :: 0 <= k < i ==> segments[k].number == k + 1
    {
      if segments[i].number != i + 1 {
        MissingHere(segments, i);
        return Some(Missing(i + 1));
      }
    }
    r := None;
  }

  // ---- The later names ----

  /** The files that have the n-th name. */
  function FilesNamed(dir: Directory, stem: string, first: string, n: nat): set<string> {
    set name | name in dir && NamedAs(stem, first, n, name)
  }

  predicate TwoNamed(dir: Directory, stem: string, first: string, n: nat) {
    exists a, b :: a in FilesNamed(dir, stem, first, n) && b in FilesNamed(dir, stem, first, n) && a != b
  }

  /** Each file is the only one of its name. */
  predicate IsChain(dir: Directory, stem: string, first: string, from: nat, chain: seq<string>) {
    forall i :: 0 <= i < |chain| ==> FilesNamed(dir, stem, first, from + i) == {chain[i]}
  }

  predicate NoneMissing(dir: Directory, stem: string, first: string, from: nat, to: nat) {
    forall i :: from <= i < to ==> FilesNamed(dir, stem, first, i) != {}
  }

  /** Segments `from`, `from + 1`, ... up to the first number that does not exist. */
  method SegmentChain(dir: Directory, stem: string, first: string, from: nat)
    returns (r: Result<seq<string>, SegmentError>, ghost last: nat)
    ensures r.Ok? ==> IsChain(dir, stem, first, from, r.value) && FilesNamed(dir, stem, first, from + |r.value|) == {}
    ensures r.Err? ==> last >= from && TwoNamed(dir, stem, first, last) && NoneMissing(dir, stem, first, from, last)
    ensures r.Err? ==> r.error == Ambiguous(last)
  {
    hide Named;
    var out: seq<string> := [];
    var n := from;
    while SegmentExtension(first, n).Some?
      invariant n == from + |out|
      invariant IsChain(dir, stem, first, from, out)
      decreases 17676 - n
    {
      ExtensionsEnd(first, n);
      var found := FilesNamed(dir, stem, first, n);
      if found == {} {
        return Ok(out), n;
      }
      var p :| p in found;
      if found != {p} {
        ghost var q :| q in found && q != p;
        forall i | from <= i < n
          ensures FilesNamed(dir, stem, first, i) != {}
        {
          assert FilesNamed(dir, stem, first, from + (i - from)) == {out[i - from]};
        }
        return Err(Ambiguous(n)), n;
      }
      out := out + [p];
      n := n + 1;
    }
    return Ok(out), n;
  }

  // ---- The whole set ----

  predicate IsEwfName(name: string) {
    SplitName(name).Some? && EwfNumber(SplitName(name).value.1).Some?
  }

  function FamilyOf(name: string): string
    requires IsEwfName(name)
  {
    EwfNumber(SplitName(name).value.1).value.0
  }

  function NamesOf(files: seq<SourceFile>): (names: seq<string>)
    ensures |names| == |files|
  {
    seq(|files|, i requires 0 <= i < |files| => files[i].name)
  }

  method Sizes(dir: Directory, names: seq<string>) returns (r: Result<seq<SourceFile>, SegmentError>)
    requires forall i :: 0 <= i < |names| ==> names[i] in dir
    ensures r.Ok? ==> NamesOf(r.value) == names
                      && forall i :: 0 <= i < |names| ==> dir[names[i]] == RegularFile(r.value[i].bytes)
    ensures r.Err? ==> exists i :: 0 <= i < |names| && dir[names[i]] == NotAFile && r.error == NotRegular(names[i])
  {
    var files: seq<SourceFile> := [];
    for i := 0 to |names|
      invariant |files| == i
      invariant forall k :: 0 <= k < i ==> files[k].name == names[k] && dir[names[k]] == RegularFile(files[k].bytes)
    {
      match FileSize(dir, names[i]) {
        case Err(e) =>
          return Err(e);
        case Ok(bytes) =>
          files := files + [SourceFile(names[i], bytes)];
      }
    }
    assert NamesOf(files) == names;
    r := Ok(files);
  }

  /** What the caller can count on for the numbered segments once they are checked. */
  lemma NumberedRun(dir: Directory, stem: string, family: string, segments: seq<Segment>, i: nat)
    requires Members(dir, stem, family, segments) && i < |segments|
    requires forall name :: Has(segments, name) <==> name in dir && FamilyNumber(stem, family, name).Some?
    requires forall k :: 0 <= k < |segments| ==> segments[k].number == k + 1
    requires EwfNumber(First(family)) == Some((family, 1))
    ensures FilesNamed(dir, stem, First(family), i + 1) == {segments[i].name} && i + 1 <= LAST_NUMBER
  {
    hide NamedAs, FamilyNumber, EwfNumber, First;
    var f := First(family);
    NumberedIsNamed(stem, family, f, segments[i].name, i + 1);
    forall name | name in dir && NamedAs(stem, f, i + 1, name)
      ensures name == segments[i].name
    {
      NamedIsNumbered(stem, family, f, name, i + 1);
      assert Has(segments, name);
      var j :| 0 <= j < |segments| && segments[j].name == name;
      assert segments[j].number == j + 1;
    }
  }

  /** A complete set makes the numbers come in order. */
  lemma {:induction false} CompleteIsNumbered(dir: Directory, stem: string, family: string, segments: seq<Segment>,
                                              names: seq<string>, i: nat)
    requires Members(dir, stem, family, segments) && i <= |segments|
    requires forall name :: Has(segments, name) <==> name in dir && FamilyNumber(stem, family, name).Some?
    requires CompleteSet(dir, stem, family, names) && EwfNumber(First(family)) == Some((family, 1))
    ensures forall k :: 0 <= k < i ==> segments[k].number == k + 1
  {
    hide CompleteSet, FamilyNumber, EwfNumber, First;
    if i > 0 {
      var k := i - 1;
      CompleteIsNumbered(dir, stem, family, segments, names, k);
      var x := segments[k];
      AtItsNumber(dir, stem, family, names, x.name);
      if k > 0 {
        AtItsNumber(dir, stem, family, names, segments[k - 1].name);
        assert segments[k - 1].number <= x.number;
      }
      var j := NumberPresent(dir, stem, family, segments, names, i);
    }
  }

  lemma NumberPresent(dir: Directory, stem: string, family: string, segments: seq<Segment>, names: seq<string>, n: nat)
    returns (j: nat)
    requires Members(dir, stem, family, segments) && 1 <= n <= |names| && n <= LAST_NUMBER
    requires forall name :: Has(segments, name) <==> name in dir && FamilyNumber(stem, family, name).Some?
    requires CompleteSet(dir, stem, family, names) && EwfNumber(First(family)) == Some((family, 1))
    ensures j < |segments| && segments[j].number == n
  {
    hide NamedAs, FamilyNumber, EwfNumber, First;
    assert names[n - 1] in dir && NamedAs(stem, First(family), n, names[n - 1]);
    NamedIsNumbered(stem, family, First(family), names[n - 1], n);
    assert Has(segments, names[n - 1]);
    j :| 0 <= j < |segments| && segments[j].name == names[n - 1];
  }

  /** All names once: the numbered segments, then the chain. */
  lemma Assemble(dir: Directory, stem: string, family: string, segments: seq<Segment>, chain: seq<string>,
                 names: seq<string>)
    requires Members(dir, stem, family, segments) && segments != [] && |names| == |segments| + |chain|
    requires forall name :: Has(segments, name) <==> name in dir && FamilyNumber(stem, family, name).Some?
    requires forall i :: 0 <= i < |names| ==> FilesNamed(dir, stem, First(family), i + 1) == {names[i]}
    requires forall i :: 0 <= i < |segments| ==> names[i] == segments[i].name
    requires FilesNamed(dir, stem, First(family), |names| + 1) == {}
    ensures CompleteSet(dir, stem, family, names) && forall x :: x in names ==> x in dir
  {
    hide NamedAs, FamilyNumber, EwfNumber, First;
    forall i | 0 <= i < |names|
      ensures names[i] in dir && NamedAs(stem, First(family), i + 1, names[i])
    {
      assert names[i] in FilesNamed(dir, stem, First(family), i + 1);
    }
    forall i, name | 0 <= i < |names| && name in dir && NamedAs(stem, First(family), i + 1, name)
      ensures name == names[i]
    {
      assert name in FilesNamed(dir, stem, First(family), i + 1);
    }
    forall name | name in dir
      ensures !NamedAs(stem, First(family), |names| + 1, name)
    {
      assert name !in FilesNamed(dir, stem, First(family), |names| + 1);
    }
    forall name | name in dir && FamilyNumber(stem, family, name).Some?
      ensures name in names
    {
      assert Has(segments, name);
      var j :| 0 <= j < |segments| && segments[j].name == name;
      assert names[j] == name;
    }
  }

  lemma SameFiles(dir: Directory, stem: string, family: string, first: string, n: nat)
    requires EwfNumber(first) == Some((family, 1))
    ensures FilesNamed(dir, stem, first, n) == FilesNamed(dir, stem, First(family), n)
  {
    CaseBlind(first, family, n);
    hide SegmentExtension, EwfNumber, First;
  }

  lemma LongEnough(dir: Directory, stem: string, family: string, last: nat, names: seq<string>)
    requires CompleteSet(dir, stem, family, names)
    requires forall i :: 1 <= i < last ==> FilesNamed(dir, stem, First(family), i) != {}
    ensures last <= |names| + 1
  {
    assert FilesNamed(dir, stem, First(family), |names| + 1) == {} by {
      hide NamedAs, First;
    }
  }

  lemma NotTwo(dir: Directory, stem: string, family: string, n: nat, names: seq<string>)
    requires CompleteSet(dir, stem, family, names) && 1 <= n <= |names| + 1
    ensures !TwoNamed(dir, stem, First(family), n)
  {
    hide NamedAs, First;
    forall a | a in FilesNamed(dir, stem, First(family), n)
      ensures n <= |names| && a == names[n - 1]
    {
      assert a in dir && NamedAs(stem, First(family), n, a);
    }
  }

  /** Two files of one name, with every name before it there, rule a complete set out. */
  lemma TwoRefuse(dir: Directory, stem: string, family: string, last: nat, names: seq<string>)
    requires last >= 1 && TwoNamed(dir, stem, First(family), last)
    requires forall i :: 1 <= i < last ==> FilesNamed(dir, stem, First(family), i) != {}
    ensures !CompleteSet(dir, stem, family, names)
  {
    if CompleteSet(dir, stem, family, names) {
      LongEnough(dir, stem, family, last, names);
      NotTwo(dir, stem, family, last, names);
    }
  }

  /** Why a set is refused: what the refusal says is so. */
  ghost predicate Justifies(dir: Directory, stem: string, family: string, e: SegmentError) {
    match e
    case LogicalEvidence => family != [] && family[0] == 'l'
    case DoesNotExist => forall name :: name in dir ==> FamilyNumber(stem, family, name) == None
    case Ambiguous(n) => TwoNamed(dir, stem, First(family), n)
    case Missing(n) => forall name :: name in dir ==> FamilyNumber(stem, family, name) != Some(n)
    case NotRegular(name) => name in dir && dir[name] == NotAFile
    case _ => false
  }

  lemma NumbersPositive(dir: Directory, stem: string, family: string, segments: seq<Segment>, i: nat)
    requires Members(dir, stem, family, segments) && i < |segments| && EwfNumber(First(family)) == Some((family, 1))
    ensures 1 <= segments[i].number <= LAST_NUMBER
    ensures NamedAs(stem, First(family), segments[i].number, segments[i].name)
  {
    hide FamilyNumber, NamedAs, EwfNumber, First;
    NumberedIsNamed(stem, family, First(family), segments[i].name, segments[i].number);
  }

  lemma NumbersJustify(dir: Directory, stem: string, family: string, segments: seq<Segment>, e: SegmentError)
    requires Members(dir, stem, family, segments) && EwfNumber(First(family)) == Some((family, 1))
    requires forall name :: Has(segments, name) <==> name in dir && FamilyNumber(stem, family, name).Some?
    requires Tells(segments, e)
    ensures Justifies(dir, stem, family, e)
  {
    hide FamilyNumber, NamedAs, EwfNumber, First;
    forall i | 0 <= i < |segments|
      ensures segments[i].number > 0 && NamedAs(stem, First(family), segments[i].number, segments[i].name)
    {
      NumbersPositive(dir, stem, family, segments, i);
    }
    if e.Ambiguous? {
      var i, j :| 0 <= i < j < |segments| && segments[i].number == e.number == segments[j].number;
      assert segments[i].name in FilesNamed(dir, stem, First(family), e.number);
      assert segments[j].name in FilesNamed(dir, stem, First(family), e.number);
    } else {
      forall name | name in dir
        ensures FamilyNumber(stem, family, name) != Some(e.number)
      {
        if FamilyNumber(stem, family, name).Some? {
          assert Has(segments, name);
          var i :| 0 <= i < |segments| && segments[i].name == name;
        }
      }
    }
  }

  /** Every segment of the family of `name`, in order: the complete set if the directory holds one and it is
      of regular files, and else a refusal that says why. Logical evidence is always refused; a name without an
      EWF extension is one file. */
  method EwfSegments(dir: Directory, name: string) returns (r: Result<seq<SourceFile>, SegmentError>)
    ensures !IsEwfName(name) ==> IsSingle(dir, name, r)
    ensures IsEwfName(name) ==> (r == Err(LogicalEvidence) <==> FamilyOf(name)[0] == 'l')
    ensures IsEwfName(name) && r.Err? ==> Justifies(dir, SplitName(name).value.0, FamilyOf(name), r.error)
    ensures IsEwfName(name) ==> var stem, family := SplitName(name).value.0, FamilyOf(name);
              && (r.Ok? ==> family[0] != 'l' && CompleteSet(dir, stem, family, NamesOf(r.value))
                            && forall f :: f in r.value ==> f.name in dir && dir[f.name] == RegularFile(f.bytes))
              && (r.Err? && family[0] != 'l' ==> NoWholeSet(dir, stem, family))
    ensures r.Ok? && IsEwfName(name) ==> var stem, family := SplitName(name).value.0, FamilyOf(name);
              && (forall i :: 0 <= i < |r.value| ==> NamedAs(stem, First(family), i + 1, r.value[i].name))
              && (forall x :: x in dir ==> !NamedAs(stem, First(family), |r.value| + 1, x))
              && forall x :: x in dir && FamilyNumber(stem, family, x).Some? ==> x in NamesOf(r.value)
  {
    if !IsEwfName(name) {
      return Single(dir, name);
    }
    var stem, family := SplitName(name).value.0, FamilyOf(name);
    FamilyShape(SplitName(name).value.1);
    if family[0] == 'l' {
      return Err(LogicalEvidence);
    }
    hide SplitName, EwfNumber, FamilyNumber, NamedAs, First;
    var segments := FamilyMembers(dir, stem, family);
    var refusal := CheckNumbers(segments);
    forall names | CompleteSet(dir, stem, family, names)
      ensures refusal == None && segments != []
    {
      CompleteIsNumbered(dir, stem, family, segments, names, |segments|);
      var j := NumberPresent(dir, stem, family, segments, names, 1);
    }
    if refusal.Some? {
      NumbersJustify(dir, stem, family, segments, refusal.value);
      return Err(refusal.value);
    }
    if segments == [] {
      assert forall name :: !Has(segments, name);
      return Err(DoesNotExist);
    }
    hide Justifies;
    r := WithChain(dir, stem, family, segments);
    if r.Ok? {
      SetMeans(dir, stem, family, r.value);
    }
  }

  lemma SetMeans(dir: Directory, stem: string, family: string, files: seq<SourceFile>)
    requires CompleteSet(dir, stem, family, NamesOf(files))
    ensures forall i :: 0 <= i < |files| ==> NamedAs(stem, First(family), i + 1, files[i].name)
    ensures forall x :: x in dir ==> !NamedAs(stem, First(family), |files| + 1, x)
    ensures forall x :: x in dir && FamilyNumber(stem, family, x).Some? ==> x in NamesOf(files)
  {
    hide NamedAs, FamilyNumber, First;
    assert forall i :: 0 <= i < |files| ==> NamesOf(files)[i] == files[i].name;
  }

  lemma FamilyShape(ext: string)
    requires EwfNumber(ext).Some?
    ensures var family := EwfNumber(ext).value.0; family != [] && EwfNumber(First(family)) == Some((family, 1))
  {
    var family := EwfNumber(ext).value.0;
    var f := First(family);
    assert Lower(f) == f;
    assert f[..|family|] == family && f[|family|..] == "01";
  }

  /** The directory has no complete set of the family, or one that is not all regular files. */
  ghost predicate NoWholeSet(dir: Directory, stem: string, family: string) {
    forall names :: CompleteSet(dir, stem, family, names) ==> exists x :: x in names && x in dir && dir[x] == NotAFile
  }

  /** The numbered segments after their checks. */
  ghost predicate Checked(dir: Directory, stem: string, family: string, segments: seq<Segment>) {
    && Members(dir, stem, family, segments) && segments != [] && EwfNumber(First(family)) == Some((family, 1))
    && (forall name :: Has(segments, name) <==> name in dir && FamilyNumber(stem, family, name).Some?)
    && (forall k :: 0 <= k < |segments| ==> segments[k].number == k + 1)
  }

  function SegmentFiles(segments: seq<Segment>): (names: seq<string>)
    ensures |names| == |segments|
  {
    seq(|segments|, i requires 0 <= i < |segments| => segments[i].name)
  }

  lemma ChainRefused(dir: Directory, stem: string, family: string, first: string, segments: seq<Segment>, last: nat)
    requires Checked(dir, stem, family, segments) && EwfNumber(first) == Some((family, 1))
    requires last > |segments| && TwoNamed(dir, stem, first, last)
    requires NoneMissing(dir, stem, first, |segments| + 1, last)
    ensures NoWholeSet(dir, stem, family) && Justifies(dir, stem, family, Ambiguous(last))
  {
    hide EwfNumber, FamilyNumber, First, FilesNamed, CompleteSet;
    SameFiles(dir, stem, family, first, last);
    forall i | 1 <= i < last
      ensures FilesNamed(dir, stem, First(family), i) != {}
    {
      SameFiles(dir, stem, family, first, i);
      if i <= |segments| {
        NumberedRun(dir, stem, family, segments, i - 1);
      }
    }
    forall names
      ensures !CompleteSet(dir, stem, family, names)
    {
      TwoRefuse(dir, stem, family, last, names);
    }
  }

  lemma ChainAccepted(dir: Directory, stem: string, family: string, first: string, segments: seq<Segment>,
                      chain: seq<string>)
    requires Checked(dir, stem, family, segments) && EwfNumber(first) == Some((family, 1))
    requires FilesNamed(dir, stem, first, |segments| + 1 + |chain|) == {}
    requires IsChain(dir, stem, first, |segments| + 1, chain)
    ensures var names := SegmentFiles(segments) + chain;
            CompleteSet(dir, stem, family, names) && forall x :: x in names ==> x in dir
  {
    hide EwfNumber, FamilyNumber, First, FilesNamed, CompleteSet;
    var names := SegmentFiles(segments) + chain;
    SameFiles(dir, stem, family, first, |names| + 1);
    forall i | 0 <= i < |names|
      ensures FilesNamed(dir, stem, First(family), i + 1) == {names[i]}
    {
      if i < |segments| {
        NumberedRun(dir, stem, family, segments, i);
      } else {
        SameFiles(dir, stem, family, first, |segments| + 1 + (i - |segments|));
      }
    }
    Assemble(dir, stem, family, segments, chain, names);
  }

  method WithSizes(dir: Directory, ghost stem: string, ghost family: string, names: seq<string>)
    returns (r: Result<seq<SourceFile>, SegmentError>)
    requires CompleteSet(dir, stem, family, names) && forall x :: x in names ==> x in dir
    ensures r.Ok? ==> CompleteSet(dir, stem, family, NamesOf(r.value))
                      && forall f :: f in r.value ==> f.name in dir && dir[f.name] == RegularFile(f.bytes)
    ensures r.Err? ==> NoWholeSet(dir, stem, family) && Justifies(dir, stem, family, r.error)
    ensures r.Err? ==> r.error != LogicalEvidence
  {
    hide CompleteSet;
    r := Sizes(dir, names);
    forall other | CompleteSet(dir, stem, family, other)
      ensures other == names
    {
      CompleteSetUnique(dir, stem, family, other, names);
    }
  }

  /** The numbered segments and libewf's later names, or a refusal because two files have one of them. */
  method LaterNames(dir: Directory, stem: string, family: string, first: string, segments: seq<Segment>)
    returns (r: Result<seq<string>, SegmentError>)
    requires Checked(dir, stem, family, segments) && EwfNumber(first) == Some((family, 1))
    ensures r.Ok? ==> CompleteSet(dir, stem, family, r.value) && forall x :: x in r.value ==> x in dir
    ensures r.Err? ==> NoWholeSet(dir, stem, family) && Justifies(dir, stem, family, r.error)
    ensures r.Err? ==> r.error != LogicalEvidence
  {
    hide EwfNumber, FamilyNumber, First, FilesNamed, TwoNamed, CompleteSet;
    hide Checked, ExtOf, IsChain, NoneMissing, NoWholeSet, Justifies;
    var chain, last := SegmentChain(dir, stem, first, |segments| + 1);
    match chain {
      case Err(e) =>
        ChainRefused(dir, stem, family, first, segments, last);
        r := Err(e);
      case Ok(names) =>
        ChainAccepted(dir, stem, family, first, segments, names);
        r := Ok(SegmentFiles(segments) + names);
    }
  }

  /** A name that is all extension has no later names. */
  method AllNames(dir: Directory, stem: string, family: string, segments: seq<Segment>)
    returns (r: Result<seq<string>, SegmentError>)
    requires Checked(dir, stem, family, segments)
    ensures r.Ok? ==> CompleteSet(dir, stem, family, r.value) && forall x :: x in r.value ==> x in dir
    ensures r.Err? ==> NoWholeSet(dir, stem, family) && Justifies(dir, stem, family, r.error)
    ensures r.Err? ==> r.error != LogicalEvidence
  {
    FirstExtension(dir, stem, family, segments);
    hide EwfNumber, CompleteSet, Checked, ExtOf, NoWholeSet, Justifies;
    if stem == [] {
      NoLaterNames(dir, family, segments);
      return Ok(SegmentFiles(segments));
    }
    r := LaterNames(dir, stem, family, ExtOf(stem, segments[0].name).value, segments);
  }

  method WithChain(dir: Directory, stem: string, family: string, segments: seq<Segment>)
    returns (r: Result<seq<SourceFile>, SegmentError>)
    requires Checked(dir, stem, family, segments)
    ensures r.Ok? ==> CompleteSet(dir, stem, family, NamesOf(r.value))
                      && forall f :: f in r.value ==> f.name in dir && dir[f.name] == RegularFile(f.bytes)
    ensures r.Err? ==> NoWholeSet(dir, stem, family) && Justifies(dir, stem, family, r.error)
    ensures r.Err? ==> r.error != LogicalEvidence
  {
    hide CompleteSet, NoWholeSet, Justifies, Checked;
    var names := AllNames(dir, stem, family, segments);
    match names {
      case Err(e) => r := Err(e);
      case Ok(all) => r := WithSizes(dir, stem, family, all);
    }
  }

  lemma NumberInRange(dir: Directory, stem: string, family: string, segments: seq<Segment>, name: string)
    requires Checked(dir, stem, family, segments) && name in dir && FamilyNumber(stem, family, name).Some?
    ensures FamilyNumber(stem, family, name).value <= |segments|
  {
    hide FamilyNumber;
    assert Has(segments, name);
    var j :| 0 <= j < |segments| && segments[j].name == name;
    assert segments[j].number == j + 1;
  }

  lemma NoLaterNames(dir: Directory, family: string, segments: seq<Segment>)
    requires Checked(dir, [], family, segments)
    ensures CompleteSet(dir, [], family, SegmentFiles(segments)) && forall x :: x in SegmentFiles(segments) ==> x in dir
  {
    hide FamilyNumber, First, EwfNumber, CompleteSet;
    var n := |segments| + 1;
    forall name | name in dir
      ensures !NamedAs([], First(family), n, name)
    {
      if NamedAs([], First(family), n, name) {
        NamedIsNumbered([], family, First(family), name, n);
        NumberInRange(dir, [], family, segments, name);
      }
    }
    assert FilesNamed(dir, [], First(family), n) == {};
    hide FilesNamed;
    forall i | 0 <= i < |segments|
      ensures FilesNamed(dir, [], First(family), i + 1) == {segments[i].name}
    {
      NumberedRun(dir, [], family, segments, i);
    }
    Assemble(dir, [], family, segments, [], SegmentFiles(segments));
  }

  lemma FirstExtension(dir: Directory, stem: string, family: string, segments: seq<Segment>)
    requires Checked(dir, stem, family, segments)
    ensures segments != [] && ExtOf(stem, segments[0].name).Some?
            && EwfNumber(ExtOf(stem, segments[0].name).value) == Some((family, 1))
  {
  }

  // ---- Gaps among the later names ----

  predicate SomeNamed(dir: Directory, stem: string, first: string, n: nat) {
    exists name :: name in dir && NamedAs(stem, first, n, name)
  }

  lemma NamesCount(stem: string, first: string, n: nat, name: string)
    requires NamedAs(stem, first, n, name)
    ensures n >= 1
  {
  }

  lemma InSetIff(dir: Directory, stem: string, family: string, names: seq<string>, n: nat, name: string)
    requires CompleteSet(dir, stem, family, names) && name in dir && NamedAs(stem, First(family), n, name)
    ensures n != |names| + 1 && (name in names <==> n <= |names|)
  {
    hide NamedAs, FamilyNumber, First;
    NamesCount(stem, First(family), n, name);
    assert !NamedAs(stem, First(family), |names| + 1, name);
    if name in names {
      PlaceOfName(dir, stem, First(family), names, name, n);
    }
    if n <= |names| {
      var i := n - 1;
      assert NamedAs(stem, First(family), i + 1, name) && name == names[i];
    }
  }

  /** A complete set holds every file that has one of libewf's names, if and only if no file has a name behind
      the first that is missing. */
  lemma EveryNameIff(dir: Directory, stem: string, family: string, names: seq<string>)
    requires CompleteSet(dir, stem, family, names)
    ensures (forall n: nat, name :: name in dir && NamedAs(stem, First(family), n, name) ==> name in names)
            <==> forall n: nat :: n > |names| + 1 ==> !SomeNamed(dir, stem, First(family), n)
  {
    hide NamedAs, CompleteSet, First;
    forall n: nat, name | name in dir && NamedAs(stem, First(family), n, name)
      ensures n != |names| + 1 && (name in names <==> n <= |names|)
    {
      InSetIff(dir, stem, family, names, n, name);
    }
    if forall n: nat, name :: name in dir && NamedAs(stem, First(family), n, name) ==> name in names {
      forall n: nat | n > |names| + 1
        ensures !SomeNamed(dir, stem, First(family), n)
      {
      }
    }
    forall n: nat, name | name in dir && NamedAs(stem, First(family), n, name)
      ensures SomeNamed(dir, stem, First(family), n)
    {
    }
  }

  /** A gap behind the last numbered name is not refused: with E01 to EZZ and without FAA, a file FAB, or any
      later one, is passed over. */
  lemma LaterGapIsPassedOver(dir: Directory, stem: string, family: string, names: seq<string>, n: nat,
                             name: string, entry: Entry)
    requires CompleteSet(dir, stem, family, names) && EwfNumber(First(family)) == Some((family, 1))
    requires n > |names| + 1 && n > LAST_NUMBER && NamedAs(stem, First(family), n, name) && name !in dir
    ensures CompleteSet(dir[name := entry], stem, family, names)
  {
    if FamilyNumber(stem, family, name).Some? {
      NumberedIsNamed(stem, family, First(family), name, FamilyNumber(stem, family, name).value);
    }
    hide NamedAs, FamilyNumber, First, EwfNumber;
    forall m | NamedAs(stem, First(family), m, name)
      ensures m == n
    {
      NamedOnce(stem, First(family), m, n, name);
    }
    var more := dir[name := entry];
    assert RunOfNames(more, stem, First(family), names) by {
      forall i, x | 0 <= i < |names| && x in more && NamedAs(stem, First(family), i + 1, x)
        ensures x == names[i]
      {
        assert x != name;
      }
    }
  }
}
