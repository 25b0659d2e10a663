/** Split RAW sets: every numbered segment in one unbroken run, or a refusal. */
module SplitSegments {
  import opened Wrappers
  import opened MachineInts
  import opened Text
  import opened SegmentNames

  /** What a directory entry is; only regular files have a size. */
  datatype Entry = RegularFile(bytes: nat) | NotAFile

  /** The entries of the directory, by name. */
  type Directory = map<string, Entry>

  datatype SourceFile = SourceFile(name: string, bytes: nat)

  datatype SegmentError =
    | NumberOutOfRange
    | NotTheFirst
    | DoesNotExist
    | NotRegular(name: string)
    | Missing(number: nat)
    | SizesDiffer(name: string)
    | EmptySegment
    | Ambiguous(number: nat)
    | LogicalEvidence

  function FileSize(dir: Directory, name: string): Result<nat, SegmentError> {
    if name !in dir then Err(DoesNotExist)
    else match dir[name]
      case RegularFile(bytes) => Ok(bytes)
      case NotAFile => Err(NotRegular(name))
  }

  /** The name before its last dot, and the extension behind it. */
  function SplitName(name: string): Option<(string, string)> {
    if name == [] then None
    else if name[|name| - 1] == '.' then Some((name[..|name| - 1], []))
    else
      match SplitName(name[..|name| - 1])
      case None => None
      case Some((stem, ext)) => Some((stem, ext + [name[|name| - 1]]))
  }

  lemma {:induction false} SplitNameJoins(name: string)
    ensures SplitName(name).Some? ==> name == SplitName(name).value.0 + "." + SplitName(name).value.1
    ensures SplitName(name).Some? ==> '.' !in SplitName(name).value.1
  {
    if name != [] && name[|name| - 1] != '.' {
      SplitNameJoins(name[..|name| - 1]);
      assert name == name[..|name| - 1] + [name[|name| - 1]];
    }
  }

  /** The extension of a name `<stem>.<ext>`, the stem compared without regard to case. */
  function ExtOf(stem: string, name: string): Option<string> {
    var k := |stem|;
    if k < |name| && Lower(name[..k]) == Lower(stem) && name[k] == '.' && '.' !in name[k + 1..] then Some(name[k + 1..])
    else None
  }

  /** The number of a sibling whose number has the same width. */
  function NumberOf(stem: string, width: nat, name: string): Option<u64> {
    match ExtOf(stem, name)
    case None => None
    case Some(e) => if |e| == width && IsSplitNumber(e) then ParseU64(e) else None
  }

  function Numbered(dir: Directory, stem: string, width: nat): set<nat> {
    set name | name in dir && NumberOf(stem, width, name).Some? :: NumberOf(stem, width, name).value
  }

  function SegmentName(stem: string, width: nat, n: nat): string {
    stem + "." + Padded(n, width)
  }

  lemma SegmentNamesDiffer(stem: string, width: nat, m: nat, n: nat)
    requires SegmentName(stem, width, m) == SegmentName(stem, width, n)
    ensures m == n
  {
    PaddedValue(m, width);
    PaddedValue(n, width);
    var a := SegmentName(stem, width, m);
    assert a[|stem| + 1..] == Padded(m, width) && a[|stem| + 1..] == Padded(n, width);
  }

  // ---- What a complete set is ----

  /** Consecutive existing regular files from `start` on. */
  predicate Consecutive(dir: Directory, stem: string, width: nat, start: nat, files: seq<SourceFile>) {
    forall i :: 0 <= i < |files| ==>
      && files[i].name == SegmentName(stem, width, start + i) && files[i].name in dir
      && dir[files[i].name] == RegularFile(files[i].bytes)
  }

  predicate NumbersWithin(dir: Directory, stem: string, width: nat, start: nat, end: nat) {
    forall m :: m in Numbered(dir, stem, width) ==> start <= m < end
  }

  /** The run holds every number there is, ends where no file is, and only its last size may differ. */
  predicate CompleteRun(dir: Directory, stem: string, width: nat, start: nat, files: seq<SourceFile>) {
    && files != [] && Consecutive(dir, stem, width, start, files)
    && SegmentName(stem, width, start + |files|) !in dir
    && NumbersWithin(dir, stem, width, start, start + |files|)
    && (forall i :: 0 <= i < |files| - 1 ==> files[i].bytes == files[0].bytes)
    && (forall i :: 1 <= i < |files| ==> files[i].bytes > 0)
  }

  lemma RunExists(dir: Directory, stem: string, width: nat, start: nat, files: seq<SourceFile>, n: nat)
    requires Consecutive(dir, stem, width, start, files)
    ensures n < |files| ==> SegmentName(stem, width, start + n) in dir
  {
    if n < |files| {
      assert files[n].name in dir;
    }
  }

  /** There is at most one complete run. */
  lemma CompleteRunUnique(dir: Directory, stem: string, width: nat, start: nat, a: seq<SourceFile>, b: seq<SourceFile>)
    requires CompleteRun(dir, stem, width, start, a) && CompleteRun(dir, stem, width, start, b)
    ensures a == b
  {
    hide SegmentName, Numbered;
    RunExists(dir, stem, width, start, a, |b|);
    RunExists(dir, stem, width, start, b, |a|);
    forall i | 0 <= i < |a|
      ensures a[i] == b[i]
    {
      assert a[i].name == b[i].name;
    }
  }

  lemma SegmentExt(stem: string, width: nat, n: nat)
    ensures ExtOf(stem, SegmentName(stem, width, n)) == Some(Padded(n, width))
    ensures AllDigits(Padded(n, width)) && Value(Padded(n, width)) == n
  {
    PaddedValue(n, width);
    var name := SegmentName(stem, width, n);
    assert name[..|stem|] == stem && name[|stem| + 1..] == Padded(n, width);
    assert '.' !in Padded(n, width) by {
      assert forall c :: c in Padded(n, width) ==> IsDigit(c);
    }
  }

  /** A sibling's number belongs to the segment name of that number too. */
  lemma NumberIsShared(stem: string, width: nat, name: string)
    requires NumberOf(stem, width, name).Some?
    ensures var n := NumberOf(stem, width, name); NumberOf(stem, width, SegmentName(stem, width, n.value)) == n
  {
    var n := NumberOf(stem, width, name).value;
    PaddedOfValue(ExtOf(stem, name).value);
    SegmentExt(stem, width, n);
  }

  predicate InRun(files: seq<SourceFile>, name: string) {
    exists i :: 0 <= i < |files| && files[i].name == name
  }

  predicate SameNumber(stem: string, width: nat, a: string, b: string) {
    NumberOf(stem, width, a).Some? && NumberOf(stem, width, a) == NumberOf(stem, width, b)
  }

  /** No two files of the directory have the same number; stems are compared without regard to case. */
  predicate NoTwins(dir: Directory, stem: string, width: nat) {
    forall a, b :: a in dir && b in dir && SameNumber(stem, width, a, b) ==> a == b
  }

  lemma RunHasNumber(dir: Directory, stem: string, width: nat, start: nat, files: seq<SourceFile>, name: string)
    requires CompleteRun(dir, stem, width, start, files)
    requires name in dir && NumberOf(stem, width, name).Some?
    ensures var n := NumberOf(stem, width, name).value;
            && start <= n < start + |files| && files[n - start].name in dir
            && NumberOf(stem, width, files[n - start].name) == Some(n)
  {
    NumberIsShared(stem, width, name);
    assert NumberOf(stem, width, name).value in Numbered(dir, stem, width);
  }

  /** A complete run holds every numbered sibling, however its stem is spelled, if and only if no two of
      them have the same number. */
  lemma EverySiblingIffNoTwins(dir: Directory, stem: string, width: nat, start: nat, files: seq<SourceFile>)
    requires CompleteRun(dir, stem, width, start, files)
    ensures (forall name :: name in dir && NumberOf(stem, width, name).Some? ==> InRun(files, name))
            <==> NoTwins(dir, stem, width)
  {
    hide NumberOf, SegmentName, Numbered;
    if forall name :: name in dir && NumberOf(stem, width, name).Some? ==> InRun(files, name) {
      forall a, b | a in dir && b in dir && SameNumber(stem, width, a, b)
        ensures a == b
      {
        OwnPlace(dir, stem, width, start, files, a);
        OwnPlace(dir, stem, width, start, files, b);
      }
    }
    if NoTwins(dir, stem, width) {
      forall name | name in dir && NumberOf(stem, width, name).Some?
        ensures InRun(files, name)
      {
        RunHasNumber(dir, stem, width, start, files, name);
      }
    }
  }

  /** A numbered file of the run stands at its number. */
  lemma OwnPlace(dir: Directory, stem: string, width: nat, start: nat, files: seq<SourceFile>, name: string)
    requires Consecutive(dir, stem, width, start, files) && InRun(files, name) && NumberOf(stem, width, name).Some?
    ensures var n := NumberOf(stem, width, name).value;
            start <= n < start + |files| && files[n - start].name == name
  {
    hide NumberOf, SegmentName;
    var i :| 0 <= i < |files| && files[i].name == name;
    SegmentNumber(stem, width, start + i);
  }

  lemma SegmentNumber(stem: string, width: nat, n: nat)
    ensures var m := NumberOf(stem, width, SegmentName(stem, width, n)); m.Some? ==> m.value == n
  {
    SegmentExt(stem, width, n);
    hide SegmentName, ExtOf;
  }

  // ---- Numbers of any width ----

  /** The number of a sibling that belongs to a set of this width: numbers that need more digits have more. */
  function SetNumber(stem: string, width: nat, name: string): Option<nat> {
    match ExtOf(stem, name)
    case None => None
    case Some(e) => if AllDigits(e) && e == Padded(Value(e), width) then Some(Value(e)) else None
  }

  lemma SegmentSetNumber(stem: string, width: nat, n: nat)
    ensures SetNumber(stem, width, SegmentName(stem, width, n)) == Some(n)
  {
    SegmentExt(stem, width, n);
    hide SegmentName, ExtOf;
  }

  /** Numbers of the width itself are among them. */
  lemma NumberIsSetNumber(stem: string, width: nat, name: string)
    requires NumberOf(stem, width, name).Some?
    ensures SetNumber(stem, width, name) == NumberOf(stem, width, name)
  {
    PaddedOfValue(ExtOf(stem, name).value);
  }

  predicate SameSetNumber(stem: string, width: nat, a: string, b: string) {
    SetNumber(stem, width, a).Some? && SetNumber(stem, width, a) == SetNumber(stem, width, b)
  }

  /** The directory has one file for each number, and none outside the run's numbers. */
  predicate NoTwinNoGap(dir: Directory, stem: string, width: nat, start: nat, end: nat) {
    && (forall a, b :: a in dir && b in dir && SameSetNumber(stem, width, a, b) ==> a == b)
    && (forall a :: a in dir && SetNumber(stem, width, a).Some? ==> start <= SetNumber(stem, width, a).value < end)
  }

  lemma InRunNumber(dir: Directory, stem: string, width: nat, start: nat, files: seq<SourceFile>, name: string)
    requires Consecutive(dir, stem, width, start, files) && InRun(files, name)
    ensures SetNumber(stem, width, name).Some?
    ensures var n := SetNumber(stem, width, name).value; start <= n < start + |files| && files[n - start].name == name
  {
    hide SetNumber, SegmentName;
    var i :| 0 <= i < |files| && files[i].name == name;
    SegmentSetNumber(stem, width, start + i);
  }

  /** Exactly when nothing of the set is left out, numbers with more digits and other spellings of the stem
      included: no two files have one number, and no file has a number behind the first that is missing. */
  lemma EverySiblingIff(dir: Directory, stem: string, width: nat, start: nat, files: seq<SourceFile>)
    requires CompleteRun(dir, stem, width, start, files)
    ensures (forall name :: name in dir && SetNumber(stem, width, name).Some? ==> InRun(files, name))
            <==> NoTwinNoGap(dir, stem, width, start, start + |files|)
  {
    hide SetNumber, SegmentName, Numbered;
    if forall name :: name in dir && SetNumber(stem, width, name).Some? ==> InRun(files, name) {
      forall a | a in dir && SetNumber(stem, width, a).Some?
        ensures var n := SetNumber(stem, width, a).value; start <= n < start + |files| && files[n - start].name == a
      {
        InRunNumber(dir, stem, width, start, files, a);
      }
    }
    if NoTwinNoGap(dir, stem, width, start, start + |files|) {
      forall name | name in dir && SetNumber(stem, width, name).Some?
        ensures InRun(files, name)
      {
        var n := SetNumber(stem, width, name).value;
        SegmentSetNumber(stem, width, n);
        assert files[n - start].name in dir;
      }
    }
  }

  /** Of the names the source itself would look for, all that exist are in the run if and only if none exists
      behind the first that does not. */
  lemma NoGapIff(dir: Directory, stem: string, width: nat, start: nat, files: seq<SourceFile>)
    requires CompleteRun(dir, stem, width, start, files)
    ensures (forall n :: n >= start && SegmentName(stem, width, n) in dir ==> InRun(files, SegmentName(stem, width, n)))
            <==> forall n :: n > start + |files| ==> SegmentName(stem, width, n) !in dir
  {
    hide SegmentName, Numbered;
    forall n | n >= start
      ensures InRun(files, SegmentName(stem, width, n)) <==> n < start + |files|
    {
      if n < start + |files| {
        assert files[n - start].name == SegmentName(stem, width, n);
      }
      if InRun(files, SegmentName(stem, width, n)) {
        InRunNumber(dir, stem, width, start, files, SegmentName(stem, width, n));
        SegmentSetNumber(stem, width, n);
      }
    }
  }

  /** In particular no file with the stem as it was given is left out. */
  lemma NoSiblingLeftOut(dir: Directory, stem: string, width: nat, start: nat, files: seq<SourceFile>, ext: string)
    requires CompleteRun(dir, stem, width, start, files)
    requires stem + "." + ext in dir && |ext| == width && IsSplitNumber(ext) && Value(ext) <= U64_MAX
    ensures start <= Value(ext) < start + |files| && files[Value(ext) - start].name == stem + "." + ext
  {
    PaddedOfValue(ext);
    SegmentExt(stem, width, Value(ext));
    RunHasNumber(dir, stem, width, start, files, stem + "." + ext);
  }

  /** The file given is the first of the run. */
  lemma GivenIsFirst(dir: Directory, first: string, files: seq<SourceFile>)
    requires IsSplitSet(first)
    requires var (stem, ext) := SplitName(first).value; CompleteRun(dir, stem, |ext|, Value(ext), files)
    ensures files[0].name == first
  {
    SplitNameJoins(first);
    PaddedOfValue(SplitName(first).value.1);
  }

  // ---- Finding the set ----

  function Single(dir: Directory, name: string): Result<seq<SourceFile>, SegmentError> {
    match FileSize(dir, name)
    case Ok(bytes) => Ok([SourceFile(name, bytes)])
    case Err(e) => Err(e)
  }

  /** A file by itself: it with its size, or a refusal because there is none or it is not a regular file. */
  ghost predicate IsSingle(dir: Directory, name: string, r: Result<seq<SourceFile>, SegmentError>) {
    match r
    case Ok(files) => |files| == 1 && files[0].name == name && name in dir && dir[name] == RegularFile(files[0].bytes)
    case Err(e) => e == (if name in dir then NotRegular(name) else DoesNotExist)
                   && (name in dir ==> dir[name] == NotAFile)
  }

  /** Why a set is refused: what the refusal says is so. */
  ghost predicate Justified(dir: Directory, stem: string, width: nat, start: nat, e: SegmentError) {
    match e
    case NumberOutOfRange => start > U64_MAX
    case NotTheFirst => exists m :: m in Numbered(dir, stem, width) && m < start
    case DoesNotExist => SegmentName(stem, width, start) !in dir
    case NotRegular(name) => name in dir && dir[name] == NotAFile
    case Missing(n) => n > start && SegmentName(stem, width, n) !in dir && SegmentName(stem, width, n - 1) in dir
                       && exists m :: m in Numbered(dir, stem, width) && m >= n
    case SizesDiffer(name) => SizeDiffers(dir, stem, width, start, name)
    case EmptySegment => exists n :: n > start && IsEmptyAt(dir, stem, width, n)
    case _ => false
  }

  predicate IsEmptyAt(dir: Directory, stem: string, width: nat, n: nat) {
    SegmentName(stem, width, n) in dir && dir[SegmentName(stem, width, n)] == RegularFile(0)
  }

  /** A segment that is not the last has another size than the first. */
  ghost predicate SizeDiffers(dir: Directory, stem: string, width: nat, start: nat, name: string) {
    var first := SegmentName(stem, width, start);
    && first in dir && name in dir && dir[first].RegularFile? && dir[name].RegularFile?
    && dir[name].bytes != dir[first].bytes
    && exists n :: n > start && name == SegmentName(stem, width, n) && SegmentName(stem, width, n + 1) in dir
  }

  /** The files that exist from `start` on, up to the first that does not. */
  method Collect(dir: Directory, stem: string, width: nat, start: nat)
    returns (r: Result<seq<SourceFile>, SegmentError>)
    ensures r.Ok? ==> && Consecutive(dir, stem, width, start, r.value)
                      && SegmentName(stem, width, start + |r.value|) !in dir
    ensures r.Err? ==> forall files :: !CompleteRun(dir, stem, width, start, files)
    ensures r.Err? ==> Justified(dir, stem, width, start, r.error)
  {
    hide SegmentName, Numbered;
    var files: seq<SourceFile> := [];
    ghost var left := dir.Keys;
    while SegmentName(stem, width, start + |files|) in dir
      invariant Consecutive(dir, stem, width, start, files)
      invariant forall n :: n >= start + |files| && SegmentName(stem, width, n) in dir ==>
                              SegmentName(stem, width, n) in left
      decreases |left|
    {
      var n := start + |files|;
      var name := SegmentName(stem, width, n);
      match FileSize(dir, name) {
        case Err(e) =>
          forall other
            ensures !CompleteRun(dir, stem, width, start, other)
          {
            RunReaches(dir, stem, width, start, files, other);
          }
          return Err(e);
        case Ok(bytes) =>
          files := files + [SourceFile(name, bytes)];
      }
      forall m | m > n && SegmentName(stem, width, m) in left
        ensures SegmentName(stem, width, m) in left - {name}
      {
        if SegmentName(stem, width, m) == name {
          SegmentNamesDiffer(stem, width, m, n);
        }
      }
      left := left - {name};
    }
    r := Ok(files);
  }

  /** A complete run goes at least as far as the files that exist. */
  lemma RunReaches(dir: Directory, stem: string, width: nat, start: nat, files: seq<SourceFile>, other: seq<SourceFile>)
    requires Consecutive(dir, stem, width, start, files)
    requires SegmentName(stem, width, start + |files|) in dir
    ensures CompleteRun(dir, stem, width, start, other)
            ==> |other| > |files| && dir[SegmentName(stem, width, start + |files|)].RegularFile?
  {
    hide SegmentName, Numbered;
    RunExists(dir, stem, width, start, files, |other|);
    if CompleteRun(dir, stem, width, start, other) && |other| > |files| {
      assert other[|files|].name == SegmentName(stem, width, start + |files|);
    }
  }

  /** A complete run is the run of the files that exist. */
  lemma RunIsCollected(dir: Directory, stem: string, width: nat, start: nat, files: seq<SourceFile>,
                       other: seq<SourceFile>)
    requires Consecutive(dir, stem, width, start, files) && SegmentName(stem, width, start + |files|) !in dir
    requires CompleteRun(dir, stem, width, start, other)
    ensures other == files
  {
    hide SegmentName, Numbered;
    RunExists(dir, stem, width, start, files, |other|);
    RunExists(dir, stem, width, start, other, |files|);
    forall i | 0 <= i < |files|
      ensures files[i] == other[i]
    {
      assert files[i].name == other[i].name;
    }
  }

  predicate IsSplitSet(first: string) {
    SplitName(first).Some? && IsSplitNumber(SplitName(first).value.1)
  }

  lemma LowerNumberRefuses(dir: Directory, stem: string, width: nat, start: nat)
    requires exists m :: m in Numbered(dir, stem, width) && m < start
    ensures forall files :: !CompleteRun(dir, stem, width, start, files)
    ensures Justified(dir, stem, width, start, NotTheFirst)
  {
    hide SegmentName, Numbered;
  }

  /** Every segment of the set `first` starts, in order: the complete run if there is one, and else a
      refusal that says why. A name without a split number is one file. */
  method SplitRawSegments(dir: Directory, first: string) returns (r: Result<seq<SourceFile>, SegmentError>)
    ensures !IsSplitSet(first) ==> IsSingle(dir, first, r)
    ensures IsSplitSet(first) && r.Err? ==>
              var (stem, ext) := SplitName(first).value; Justified(dir, stem, |ext|, Value(ext), r.error)
    ensures IsSplitSet(first) ==> var (stem, ext) := SplitName(first).value;
              && (r.Ok? ==> Value(ext) <= U64_MAX && CompleteRun(dir, stem, |ext|, Value(ext), r.value))
              && (r.Err? ==> Value(ext) > U64_MAX || forall files :: !CompleteRun(dir, stem, |ext|, Value(ext), files))
    ensures IsSplitSet(first) && r.Ok? ==> var (stem, ext) := SplitName(first).value;
              Sized(dir, r.value) && AllNumbered(dir, stem, |ext|, Value(ext), r.value)
  {
    if !IsSplitSet(first) {
      return Single(dir, first);
    }
    var (stem, ext) := SplitName(first).value;
    if Value(ext) > U64_MAX {
      return Err(NumberOutOfRange);
    }
    hide CompleteRun, Justified, SplitName, Value, Sized, AllNumbered;
    r := SplitRun(dir, stem, |ext|, Value(ext));
    if r.Ok? {
      RunMeans(dir, stem, |ext|, Value(ext), r.value);
    }
  }

  /** Regular files with their sizes: equal but for the last, and none empty after the first. */
  predicate Sized(dir: Directory, files: seq<SourceFile>) {
    && (forall f :: f in files ==> f.name in dir && dir[f.name] == RegularFile(f.bytes))
    && (forall i :: 0 <= i < |files| - 1 ==> files[i].bytes == files[0].bytes)
    && (forall i :: 1 <= i < |files| ==> files[i].bytes > 0)
  }

  /** The names count up from `start`, the next one does not exist, and no sibling of the width has a number
      outside. */
  predicate AllNumbered(dir: Directory, stem: string, width: nat, start: nat, files: seq<SourceFile>) {
    && (forall i :: 0 <= i < |files| ==> files[i].name == SegmentName(stem, width, start + i))
    && SegmentName(stem, width, start + |files|) !in dir
    && (forall name :: name in dir && NumberOf(stem, width, name).Some? ==>
          start <= NumberOf(stem, width, name).value < start + |files|)
  }

  lemma RunMeans(dir: Directory, stem: string, width: nat, start: nat, files: seq<SourceFile>)
    requires CompleteRun(dir, stem, width, start, files)
    ensures Sized(dir, files) && AllNumbered(dir, stem, width, start, files)
  {
    hide SegmentName, NumberOf;
    forall name | name in dir && NumberOf(stem, width, name).Some?
      ensures start <= NumberOf(stem, width, name).value < start + |files|
    {
      assert NumberOf(stem, width, name).value in Numbered(dir, stem, width);
    }
  }

  method SplitRun(dir: Directory, stem: string, width: nat, start: nat)
    returns (r: Result<seq<SourceFile>, SegmentError>)
    ensures r.Ok? ==> CompleteRun(dir, stem, width, start, r.value)
    ensures r.Err? ==> forall files :: !CompleteRun(dir, stem, width, start, files)
    ensures r.Err? ==> Justified(dir, stem, width, start, r.error)
  {
    hide SegmentName, Numbered;
    var numbered := Numbered(dir, stem, width);
    if exists m :: m in numbered && m < start {
      LowerNumberRefuses(dir, stem, width, start);
      return Err(NotTheFirst);
    }
    hide CompleteRun, Justified;
    var collected := Collect(dir, stem, width, start);
    if collected.Err? {
      return collected;
    }
    r := CheckRun(dir, stem, width, start, numbered, collected.value);
  }

  lemma RunFacts(dir: Directory, stem: string, width: nat, start: nat, files: seq<SourceFile>)
    requires Consecutive(dir, stem, width, start, files)
    ensures forall i :: 0 <= i < |files| ==>
              && files[i].name == SegmentName(stem, width, start + i)
              && SegmentName(stem, width, start + i) in dir
              && dir[SegmentName(stem, width, start + i)] == RegularFile(files[i].bytes)
    ensures files != [] ==> SegmentName(stem, width, start + |files| - 1) in dir
    ensures forall i :: 0 < i < |files| - 1 && files[i].bytes != files[0].bytes ==>
              SizeDiffers(dir, stem, width, start, files[i].name)
  {
    hide SegmentName;
    if files != [] {
      assert files[|files| - 1].name in dir;
    }
    forall i | 0 < i < |files| - 1 && files[i].bytes != files[0].bytes
      ensures SizeDiffers(dir, stem, width, start, files[i].name)
    {
      assert files[i + 1].name == SegmentName(stem, width, (start + i) + 1);
      assert files[0].name == SegmentName(stem, width, start);
    }
  }

  /** The files that exist in a row: are they all, and of the right sizes? */
  method CheckRun(ghost dir: Directory, ghost stem: string, ghost width: nat, start: nat, numbered: set<nat>,
                  files: seq<SourceFile>)
    returns (r: Result<seq<SourceFile>, SegmentError>)
    requires Consecutive(dir, stem, width, start, files) && SegmentName(stem, width, start + |files|) !in dir
    requires numbered == Numbered(dir, stem, width) && forall m :: m in numbered ==> m >= start
    ensures r.Ok? ==> CompleteRun(dir, stem, width, start, r.value)
    ensures r.Err? ==> forall other :: !CompleteRun(dir, stem, width, start, other)
    ensures r.Err? ==> Justified(dir, stem, width, start, r.error)
  {
    hide SegmentName, Numbered;
    forall other | CompleteRun(dir, stem, width, start, other)
      ensures other == files
    {
      RunIsCollected(dir, stem, width, start, files, other);
    }
    RunFacts(dir, stem, width, start, files);
    hide Consecutive;
    if files == [] {
      return Err(DoesNotExist);
    }
    if exists m :: m in numbered && m >= start + |files| {
      return Err(Missing(start + |files|));
    }
    var k := FirstDifferent(files);
    if k < |files| - 1 {
      return Err(SizesDiffer(files[k].name));
    }
    if exists i :: 1 <= i < |files| && files[i].bytes == 0 {
      ghost var i :| 1 <= i < |files| && files[i].bytes == 0;
      assert IsEmptyAt(dir, stem, width, start + i);
      return Err(EmptySegment);
    }
    r := Ok(files);
  }

  /** The first file but the last whose size is not that of the first, if any. */
  method FirstDifferent(files: seq<SourceFile>) returns (k: nat)
    requires files != []
    ensures k < |files|
    ensures forall i :: 0 <= i < k ==> files[i].bytes == files[0].bytes
    ensures k < |files| - 1 ==> files[k].bytes != files[0].bytes
  {
    k := 0;
    while k < |files| - 1 && files[k].bytes == files[0].bytes
      invariant k < |files| && forall i :: 0 <= i < k ==> files[i].bytes == files[0].bytes
    {
      k := k + 1;
    }
  }

  // ---- What is accepted all the same ----

  /** Only the segments before the last are compared: the last one may be of any size, longer ones too. */
  lemma LastMayBeLonger(dir: Directory, stem: string, width: nat, start: nat, files: seq<SourceFile>, bytes: nat)
    requires CompleteRun(dir, stem, width, start, files) && |files| >= 2 && bytes > 0
    ensures var last := |files| - 1;
            var name := files[last].name;
            CompleteRun(dir[name := RegularFile(bytes)], stem, width, start, files[last := SourceFile(name, bytes)])
  {
    hide NumberOf, SegmentName;
    var last := |files| - 1;
    forall i | 0 <= i < last
      ensures files[i].name != files[last].name
    {
      if files[i].name == files[last].name {
        SegmentNamesDiffer(stem, width, start + i, start + last);
      }
    }
    assert files[last].name in dir;
    var resized := dir[files[last].name := RegularFile(bytes)];
    ResizeKeepsNumbers(dir, stem, width, files[last].name, RegularFile(bytes));
    hide Numbered;
    var now := files[last := SourceFile(files[last].name, bytes)];
    assert forall i :: 0 <= i < |now| ==> now[i].name == files[i].name;
    assert SegmentName(stem, width, start + |now|) !in resized;
  }

  lemma ResizeKeepsNumbers(dir: Directory, stem: string, width: nat, name: string, entry: Entry)
    requires name in dir
    ensures Numbered(dir[name := entry], stem, width) == Numbered(dir, stem, width)
  {
    hide NumberOf;
    assert forall x :: x in dir[name := entry] <==> x in dir;
  }

  /** A file that is not numbered in the width of the set, and is not the next name, makes no difference. */
  lemma OtherWidthIgnored(dir: Directory, stem: string, width: nat, start: nat, files: seq<SourceFile>,
                          name: string, entry: Entry)
    requires CompleteRun(dir, stem, width, start, files)
    requires name !in dir && NumberOf(stem, width, name) == None && name != SegmentName(stem, width, start + |files|)
    ensures CompleteRun(dir[name := entry], stem, width, start, files)
  {
    hide NumberOf, SegmentName;
    assert Numbered(dir[name := entry], stem, width) == Numbered(dir, stem, width);
  }

  lemma WiderNumber(stem: string, width: nat, n: nat)
    requires n >= Pow10(width)
    ensures NumberOf(stem, width, SegmentName(stem, width, n)) == None
  {
    SegmentExt(stem, width, n);
    ValueBelow(Padded(n, width));
    hide SegmentName, ExtOf;
  }

  /** A gap is not refused where the numbers have outgrown the width: with x.001 to x.999 and without x.1000, a
      file x.1001, or any later one, is passed over. */
  lemma WideGapIsPassedOver(dir: Directory, stem: string, width: nat, start: nat, files: seq<SourceFile>,
                            n: nat, entry: Entry)
    requires CompleteRun(dir, stem, width, start, files)
    requires n > start + |files| && n >= Pow10(width) && SegmentName(stem, width, n) !in dir
    ensures CompleteRun(dir[SegmentName(stem, width, n) := entry], stem, width, start, files)
  {
    WiderNumber(stem, width, n);
    if SegmentName(stem, width, n) == SegmentName(stem, width, start + |files|) {
      SegmentNamesDiffer(stem, width, n, start + |files|);
    }
    OtherWidthIgnored(dir, stem, width, start, files, SegmentName(stem, width, n), entry);
  }

  lemma SameNameWider(stem: string, width: nat, n: nat)
    requires n >= Pow10(width)
    ensures SegmentName(stem, width + 1, n) == SegmentName(stem, width, n)
  {
    ValueOfShow(n);
    ValueBelow(Show(n));
    if |Show(n)| <= width {
      PowGrows(|Show(n)|, width);
    }
  }

  lemma {:induction false} PowGrows(j: nat, k: nat)
    requires j <= k
    ensures 1 <= Pow10(j) <= Pow10(k)
    decreases k
  {
    if j < k {
      PowGrows(j, k - 1);
    } else if k > 0 {
      PowGrows(j - 1, k - 1);
    }
  }

  /** A later segment is not refused where the width changes: given x.1000 of a set that begins with x.001, the
      segments from there on are taken for a set of their own. */
  lemma LaterSegmentIsAccepted(dir: Directory, stem: string, width: nat, start: nat, files: seq<SourceFile>)
    requires CompleteRun(dir, stem, width, start, files) && start < Pow10(width) < start + |files|
    requires NumbersWithin(dir, stem, width + 1, Pow10(width), start + |files|)
    ensures CompleteRun(dir, stem, width + 1, Pow10(width), files[Pow10(width) - start..])
  {
    hide NumberOf, SegmentName, Numbered;
    var k := Pow10(width) - start;
    var later := files[k..];
    forall n | n >= Pow10(width)
      ensures SegmentName(stem, width + 1, n) == SegmentName(stem, width, n)
    {
      SameNameWider(stem, width, n);
    }
    forall i | 0 <= i < |later|
      ensures later[i] == files[k + i] && later[i].name == SegmentName(stem, width + 1, Pow10(width) + i)
    {
      assert files[k + i].name == SegmentName(stem, width, start + (k + i));
    }
    assert Pow10(width) + |later| == start + |files|;
  }

  lemma RunOfOne(stem: string, dir: Directory, x: string, twin: string, a: nat, b: nat)
    requires x == SegmentName(stem, 3, 1) && SegmentName(stem, 3, 2) !in [x, twin]
    requires NumberOf(stem, 3, x) == Some(1) && NumberOf(stem, 3, twin) == Some(1)
    requires x != twin && dir == map[x := RegularFile(a), twin := RegularFile(b)]
    ensures CompleteRun(dir, stem, 3, 1, [SourceFile(x, a)])
  {
    hide SegmentName, NumberOf;
  }

  /** Stems that differ only in case number their files alike. */
  lemma TwinNumber(stem: string, twin: string, name: string)
    requires Lower(twin) == Lower(stem)
    ensures NumberOf(stem, 3, name) == NumberOf(twin, 3, name)
  {
  }

  /** A second file with the same number under another spelling of the stem is passed over. */
  lemma TwinIsPassedOver(stem: string, twin: string, a: nat, b: nat)
    requires twin != stem && Lower(twin) == Lower(stem)
    ensures var x, y := SegmentName(stem, 3, 1), SegmentName(twin, 3, 1);
            var dir: Directory := map[x := RegularFile(a), y := RegularFile(b)];
            NumberOf(stem, 3, y) == Some(1) && CompleteRun(dir, stem, 3, 1, [SourceFile(x, a)])
  {
    var x, y := SegmentName(stem, 3, 1), SegmentName(twin, 3, 1);
    assert |Show(1)| == 1 == |Show(2)|;
    SegmentExt(stem, 3, 1);
    SegmentExt(stem, 3, 2);
    SegmentExt(twin, 3, 1);
    TwinNumber(stem, twin, y);
    assert NumberOf(stem, 3, x) == Some(1) == NumberOf(twin, 3, y);
    assert NumberOf(stem, 3, SegmentName(stem, 3, 2)) == Some(2);
    assert x[..|stem|] == stem && y[..|twin|] == twin;
    hide SegmentName, NumberOf;
    RunOfOne(stem, map[x := RegularFile(a), y := RegularFile(b)], x, y, a, b);
  }
}
