/** The ordered, verified unmount of a source tree. */
module Unmount {
  import opened Wrappers
  import opened MountTable
  import opened UnmountRefusals

  // ---- Depth in the mount tree ----

  const MAX_DEPTH: nat := 4096

  /** The parent of each mount; a later line for the same mount wins. */
  function Parents(table: seq<MountRecord>): map<nat, nat> {
    if table == [] then map[]
    else Parents(table[..|table| - 1])[table[|table| - 1].id := table[|table| - 1].parentId]
  }

  lemma {:induction false} ParentOf(table: seq<MountRecord>, m: MountRecord)
    requires UniqueIds(table) && m in table
    ensures m.id in Parents(table) && Parents(table)[m.id] == m.parentId
  {
    var front, last := table[..|table| - 1], table[|table| - 1];
    assert table == front + [last];
    if m != last {
      var i :| 0 <= i < |front| && front[i] == m;
      assert table[i].id != table[|table| - 1].id;
      ParentOf(front, m);
    }
  }

  /** Counts the ancestors from `cur` on; stops at a mount that is its own parent and at the bound. */
  function Climb(parents: map<nat, nat>, cur: nat, depth: nat): nat
    decreases if depth <= MAX_DEPTH then MAX_DEPTH + 1 - depth else 0
  {
    if cur !in parents || parents[cur] == cur || depth > MAX_DEPTH then depth
    else Climb(parents, parents[cur], depth + 1)
  }

  function Depth(parents: map<nat, nat>, m: MountRecord): nat {
    Climb(parents, m.parentId, 0)
  }

  /** The depth of the last line of a mount. */
  function DepthOf(table: seq<MountRecord>, parents: map<nat, nat>, id: nat): Option<nat> {
    if table == [] then None
    else if table[|table| - 1].id == id then Some(Depth(parents, table[|table| - 1]))
    else DepthOf(table[..|table| - 1], parents, id)
  }

  lemma DepthOfSnoc(table: seq<MountRecord>, parents: map<nat, nat>, i: nat, id: nat)
    requires i < |table|
    ensures DepthOf(table[..i + 1], parents, id)
         == if table[i].id == id then Some(Depth(parents, table[i])) else DepthOf(table[..i], parents, id)
  {
    assert table[..i + 1][..i] == table[..i];
  }

  method CountAncestors(parents: map<nat, nat>, m: MountRecord) returns (depth: nat)
    ensures depth == Depth(parents, m)
  {
    depth := 0;
    var cur := m.parentId;
    while cur in parents && parents[cur] != cur && depth <= MAX_DEPTH
      invariant Climb(parents, cur, depth) == Depth(parents, m)
      decreases if depth <= MAX_DEPTH then MAX_DEPTH + 1 - depth else 0
    {
      depth := depth + 1;
      cur := parents[cur];
    }
  }

  /** The depth of every mount of the table; of a mount with two lines, that of the last. */
  method MountDepths(table: seq<MountRecord>) returns (depths: map<nat, nat>)
    ensures forall id :: (if id in depths then Some(depths[id]) else None) == DepthOf(table, Parents(table), id)
  {
    var parents := Parents(table);
    depths := map[];
    for i := 0 to |table|
      invariant forall id :: (if id in depths then Some(depths[id]) else None) == DepthOf(table[..i], parents, id)
    {
      var depth := CountAncestors(parents, table[i]);
      forall id
        ensures DepthOf(table[..i + 1], parents, id)
             == if table[i].id == id then Some(depth) else DepthOf(table[..i], parents, id)
      {
        DepthOfSnoc(table, parents, i, id);
      }
      hide DepthOf, Depth;
      depths := depths[table[i].id := depth];
    }
    assert table[..|table|] == table;
  }

  /** Where mount ids are unique, every line has its own depth. */
  lemma {:induction false} DepthOfUnique(table: seq<MountRecord>, parents: map<nat, nat>, m: MountRecord)
    requires UniqueIds(table) && m in table
    ensures DepthOf(table, parents, m.id) == Some(Depth(parents, m))
  {
    var front, last := table[..|table| - 1], table[|table| - 1];
    assert table == front + [last];
    if m != last {
      var i :| 0 <= i < |front| && front[i] == m;
      assert table[i].id != table[|table| - 1].id;
      DepthOfUnique(front, parents, m);
    }
  }

  lemma {:induction false} ClimbShift(parents: map<nat, nat>, cur: nat, depth: nat)
    requires Climb(parents, cur, depth) <= MAX_DEPTH
    ensures Climb(parents, cur, depth + 1) == Climb(parents, cur, depth) + 1
    decreases if depth <= MAX_DEPTH then MAX_DEPTH + 1 - depth else 0
  {
    if cur in parents && parents[cur] != cur && depth <= MAX_DEPTH {
      ClimbShift(parents, parents[cur], depth + 1);
    }
  }

  /** A mount stacked over another is one deeper; over a mount that is its own parent it is as deep. */
  lemma ChildDepth(table: seq<MountRecord>, m: MountRecord, child: MountRecord)
    requires UniqueIds(table) && m in table && child.parentId == m.id && Depth(Parents(table), m) <= MAX_DEPTH
    ensures m.parentId != m.id ==> Depth(Parents(table), child) == Depth(Parents(table), m) + 1
    ensures m.parentId == m.id ==> Depth(Parents(table), child) == Depth(Parents(table), m) == 0
  {
    ParentOf(table, m);
    ClimbShift(Parents(table), m.parentId, 0);
  }

  // ---- The order of the run ----

  datatype Entry = Entry(depth: nat, index: nat, mount: MountRecord)

  /** Deepest first, later mounts first among equals. */
  predicate Before(a: Entry, b: Entry) {
    a.depth > b.depth || (a.depth == b.depth && a.index > b.index)
  }

  function Insert(order: seq<Entry>, e: Entry): seq<Entry> {
    if order == [] || Before(e, order[0]) then [e] + order else [order[0]] + Insert(order[1..], e)
  }

  function Sort(es: seq<Entry>): seq<Entry> {
    if es == [] then [] else Insert(Sort(es[..|es| - 1]), es[|es| - 1])
  }

  predicate Sorted(order: seq<Entry>) {
    order == [] || ((forall e :: e in order[1..] ==> Before(order[0], e)) && Sorted(order[1..]))
  }

  lemma {:induction false} InsertKeeps(order: seq<Entry>, e: Entry)
    ensures multiset(Insert(order, e)) == multiset(order) + multiset{e}
  {
    if order != [] {
      assert order == [order[0]] + order[1..];
      if !Before(e, order[0]) {
        InsertKeeps(order[1..], e);
      }
    }
  }

  lemma {:induction false} InsertSorted(order: seq<Entry>, e: Entry)
    requires Sorted(order) && forall x :: x in order ==> x.index != e.index
    ensures Sorted(Insert(order, e))
  {
    if order == [] {
    } else if Before(e, order[0]) {
      assert ([e] + order)[1..] == order;
      assert order == [order[0]] + order[1..];
    } else {
      var rest := order[1..];
      InsertSorted(rest, e);
      InsertKeeps(rest, e);
      assert Insert(order, e)[1..] == Insert(rest, e);
      forall x | x in Insert(rest, e)
        ensures Before(order[0], x)
      {
        assert x in multiset(Insert(rest, e));
      }
    }
  }

  lemma {:induction false} SortKeeps(es: seq<Entry>)
    ensures multiset(Sort(es)) == multiset(es)
  {
    if es != [] {
      var front, last := es[..|es| - 1], es[|es| - 1];
      assert es == front + [last];
      SortKeeps(front);
      InsertKeeps(Sort(front), last);
    }
  }

  lemma SortMembers(es: seq<Entry>, e: Entry)
    ensures e in Sort(es) <==> e in es
  {
    SortKeeps(es);
    assert e in Sort(es) <==> e in multiset(Sort(es));
    assert e in es <==> e in multiset(es);
  }

  lemma {:induction false} SortSorted(es: seq<Entry>)
    requires forall i, j :: 0 <= i < j < |es| ==> es[i].index != es[j].index
    ensures Sorted(Sort(es))
  {
    if es != [] {
      var front, last := es[..|es| - 1], es[|es| - 1];
      SortSorted(front);
      forall x | x in Sort(front)
        ensures x.index != last.index
      {
        SortMembers(front, x);
      }
      InsertSorted(Sort(front), last);
    }
  }

  /** In a sorted list, what is before comes before. */
  lemma {:induction false} SortedPosition(order: seq<Entry>, p: nat, q: nat)
    requires Sorted(order) && p < |order| && q < |order|
    ensures Before(order[p], order[q]) <==> p < q
    decreases |order|
  {
    var rest := order[1..];
    if p > 0 {
      assert rest[p - 1] == order[p];
    }
    if q > 0 {
      assert rest[q - 1] == order[q];
    }
    if p > 0 && q > 0 {
      SortedPosition(rest, p - 1, q - 1);
    } else if p > 0 || q > 0 {
      assert order[p] in rest || order[q] in rest;
    }
  }

  function EntriesOf(table: seq<MountRecord>, ours: seq<MountRecord>): seq<Entry> {
    seq(|ours|, i requires 0 <= i < |ours| => Entry(Depth(Parents(table), ours[i]), i, ours[i]))
  }

  function MountsIn(order: seq<Entry>): seq<MountRecord> {
    seq(|order|, k requires 0 <= k < |order| => order[k].mount)
  }

  /** The mounts of the source in the order they are unmounted. */
  function RunOrder(table: seq<MountRecord>, ours: seq<MountRecord>): seq<MountRecord> {
    MountsIn(Sort(EntriesOf(table, ours)))
  }

  /** When a mount's turn comes, every other mount on top of it has been unmounted. */
  ghost predicate ChildrenFirst(table: seq<MountRecord>, run: seq<MountRecord>) {
    forall k, c :: 0 <= k < |run| && c in table && c != run[k] && c.parentId == run[k].id ==> c in run[..k]
  }

  predicate NoForeignOnTop(table: seq<MountRecord>, ours: seq<MountRecord>) {
    forall c, m :: c in table && m in ours && c.parentId == m.id ==> c in ours
  }

  /** A source mount that is its own parent is listed before every source mount on top of it. */
  predicate RootsListedFirst(ours: seq<MountRecord>) {
    forall i, j :: 0 <= i < |ours| && 0 <= j < |ours| && i != j
                   && ours[i].parentId == ours[i].id && ours[j].parentId == ours[i].id
      ==> i < j
  }

  /** No chain of parents is longer than the bound; in particular there is no cycle of mounts. */
  predicate Shallow(table: seq<MountRecord>, ours: seq<MountRecord>) {
    forall m :: m in ours ==> Depth(Parents(table), m) <= MAX_DEPTH
  }

  lemma EntryPosition(table: seq<MountRecord>, ours: seq<MountRecord>, i: nat) returns (p: nat)
    requires i < |ours|
    ensures p < |Sort(EntriesOf(table, ours))| && Sort(EntriesOf(table, ours))[p] == EntriesOf(table, ours)[i]
  {
    var e := EntriesOf(table, ours)[i];
    SortMembers(EntriesOf(table, ours), e);
    p :| 0 <= p < |Sort(EntriesOf(table, ours))| && Sort(EntriesOf(table, ours))[p] == e;
  }

  lemma EntryAt(table: seq<MountRecord>, ours: seq<MountRecord>, p: nat) returns (i: nat)
    requires p < |Sort(EntriesOf(table, ours))|
    ensures i < |ours| && Sort(EntriesOf(table, ours))[p] == EntriesOf(table, ours)[i]
    ensures RunOrder(table, ours)[p] == ours[i]
  {
    var e := Sort(EntriesOf(table, ours))[p];
    SortMembers(EntriesOf(table, ours), e);
    i :| 0 <= i < |EntriesOf(table, ours)| && EntriesOf(table, ours)[i] == e;
  }

  /** One mount on top of another, both of the source: its turn comes first unless the lower one is its
      own parent and is listed later. */
  lemma PairOrder(table: seq<MountRecord>, ours: seq<MountRecord>, i: nat, j: nat)
    requires UniqueIds(table) && Shallow(table, ours) && (forall m :: m in ours ==> m in table)
    requires i < |ours| && j < |ours| && i != j && ours[j].parentId == ours[i].id
    ensures Before(EntriesOf(table, ours)[j], EntriesOf(table, ours)[i]) <==> (ours[i].parentId == ours[i].id ==> i < j)
  {
    ChildDepth(table, ours[i], ours[j]);
  }

  /** The run never takes a mount that still has another on top, exactly when every source mount that
      is its own parent is listed before the source mounts on it. */
  lemma RunOrderSafeIff(table: seq<MountRecord>, ours: seq<MountRecord>)
    requires UniqueIds(table) && UniqueIds(ours) && (forall m :: m in ours ==> m in table)
    requires NoForeignOnTop(table, ours) && Shallow(table, ours)
    ensures ChildrenFirst(table, RunOrder(table, ours)) <==> RootsListedFirst(ours)
  {
    hide Sort, Sorted, Depth, Parents;
    var es, order, run := EntriesOf(table, ours), Sort(EntriesOf(table, ours)), RunOrder(table, ours);
    SortSorted(es);
    if RootsListedFirst(ours) {
      forall k, c | 0 <= k < |run| && c in table && c != run[k] && c.parentId == run[k].id
        ensures c in run[..k]
      {
        var i := EntryAt(table, ours, k);
        assert c in ours;
        var j :| 0 <= j < |ours| && ours[j] == c;
        PairOrder(table, ours, i, j);
        var p := EntryPosition(table, ours, j);
        SortedPosition(order, p, k);
        assert run[..k][p] == c;
      }
    }
    if ChildrenFirst(table, run) {
      forall i, j | 0 <= i < |ours| && 0 <= j < |ours| && i != j
                    && ours[i].parentId == ours[i].id && ours[j].parentId == ours[i].id
        ensures i < j
      {
        var k := EntryPosition(table, ours, i);
        assert run[k] == ours[i] && ours[j] != ours[i] && ours[j] in table;
        var p :| 0 <= p < k && run[p] == ours[j];
        var j' := EntryAt(table, ours, p);
        assert j' == j;
        SortedPosition(order, p, k);
        PairOrder(table, ours, i, j);
      }
    }
  }

  /** Without a source mount that is its own parent the run is always safe. */
  lemma RunOrderSafe(table: seq<MountRecord>, ours: seq<MountRecord>)
    requires UniqueIds(table) && UniqueIds(ours) && (forall m :: m in ours ==> m in table)
    requires NoForeignOnTop(table, ours) && Shallow(table, ours)
    requires forall m :: m in ours ==> m.parentId != m.id
    ensures ChildrenFirst(table, RunOrder(table, ours))
  {
    RunOrderSafeIff(table, ours);
  }

  // ---- The run ----

  datatype Failure =
    | Refused(refusals: seq<Refusal>)
    | NoAuditLog
    | CannotUnmount(m: MountRecord, done: seq<string>)
    | CannotReread
    | StillMounted(points: seq<string>)

  /** The host: its mount table, and the unmount calls made, in order. A call may fail; one that succeeds
      removes what is on top at the mount point. */
  class Host {
    var table: seq<MountRecord>
    var calls: seq<string>

    constructor (table: seq<MountRecord>)
      ensures this.table == table && calls == []
    {
      this.table := table;
      calls := [];
    }

    method Unmount(point: string) returns (ok: bool)
      modifies this
      ensures calls == old(calls) + [point]
      ensures ok ==> TopAt(old(table), point).Some?
      ensures table == if ok then RemoveTop(old(table), point) else old(table)
    {
      calls := calls + [point];
      ok := TopAt(table, point).Some?;
      if * {
        ok := false;
      }
      if ok {
        table := RemoveTop(table, point);
      }
    }
  }

  /** No refusal means that nothing of another device is mounted on top of the source. */
  lemma NoForeign(tree: SourceTree, table: seq<MountRecord>)
    requires UniqueIds(table) && OnTop(table, IdsOf(tree.Mounts(table))) == []
    ensures NoForeignOnTop(table, tree.Mounts(table))
  {
    var ours := tree.Mounts(table);
    NoneOnTop(table, IdsOf(ours));
    forall c, m | c in table && m in ours && c.parentId == m.id
      ensures c in ours
    {
      assert m.id in IdsOf(ours);
      var o :| o in ours && o.id == c.id;
      SameId(table, o, c);
    }
  }

  lemma PointsNext(run: seq<MountRecord>, i: nat)
    requires i < |run|
    ensures Points(run[..i + 1]) == Points(run[..i]) + [run[i].point]
  {
  }

  /** One unmount call after the other, up to the first that fails. */
  method UnmountInOrder(host: Host, run: seq<MountRecord>) returns (failedAt: Option<nat>)
    modifies host
    ensures match failedAt
            case None => && host.calls == old(host.calls) + Points(run)
                         && host.table == AfterCalls(old(host.table), Points(run))
            case Some(n) => && n < |run| && host.calls == old(host.calls) + Points(run[..n + 1])
                            && host.table == AfterCalls(old(host.table), Points(run[..n]))
  {
    assert Points(run[..0]) == [];
    assert AfterCalls(host.table, []) == host.table;
    hide AfterCalls, RemoveTop, TopAt, Points;
    for i := 0 to |run|
      invariant host.calls == old(host.calls) + Points(run[..i])
      invariant host.table == AfterCalls(old(host.table), Points(run[..i]))
    {
      var ok := host.Unmount(run[i].point);
      PointsNext(run, i);
      if !ok {
        return Some(i);
      }
      AfterCallsSnoc(old(host.table), Points(run[..i]), run[i].point);
    }
    assert run[..|run|] == run;
    failedAt := None;
  }

  /** No mount of another device is on a source mount; and nothing is unmounted while something is on it
      exactly when self-parented source mounts are listed before what is on them. */
  lemma RunIsSafe(tree: SourceTree, table: seq<MountRecord>)
    requires UniqueIds(table) && OnTop(table, IdsOf(tree.Mounts(table))) == [] && Shallow(table, tree.Mounts(table))
    ensures var ours := tree.Mounts(table);
            NoForeignOnTop(table, ours) && (ChildrenFirst(table, RunOrder(table, ours)) <==> RootsListedFirst(ours))
  {
    NoForeign(tree, table);
    MountsUnique(tree, table);
    RunOrderSafeIff(table, tree.Mounts(table));
  }

  /** What a run takes away: only mounts of the source whenever no mount of another device lies over one of
      them; and then none of them is left if no call failed. */
  ghost predicate Took(tree: SourceTree, table: seq<MountRecord>, after: seq<MountRecord>, failedAt: Option<nat>)
    requires failedAt.Some? ==> failedAt.value < |RunOrder(table, tree.Mounts(table))|
  {
    var done := Points(Done(RunOrder(table, tree.Mounts(table)), failedAt));
    && after == AfterCalls(table, done)
    && (NoForeignOver(tree, table) ==>
          && OnlySource(tree, table, done)
          && Others(tree, after) == Others(tree, table)
          && (failedAt.None? ==> tree.Mounts(after) == []))
  }

  /** The mounts a call was made for. */
  function Tried(run: seq<MountRecord>, failedAt: Option<nat>): seq<MountRecord>
    requires failedAt.Some? ==> failedAt.value < |run|
  {
    if failedAt.Some? then run[..failedAt.value + 1] else run
  }

  /** The mounts whose call succeeded. */
  function Done(run: seq<MountRecord>, failedAt: Option<nat>): seq<MountRecord>
    requires failedAt.Some? ==> failedAt.value < |run|
  {
    if failedAt.Some? then run[..failedAt.value] else run
  }

  lemma {:induction false} SamePoints(a: seq<MountRecord>, b: seq<MountRecord>)
    requires multiset(a) == multiset(b)
    ensures multiset(Points(a)) == multiset(Points(b))
    decreases |a|
  {
    if a == [] {
      assert |multiset(b)| == 0;
    } else {
      var i := IndexOf(b, a[0]);
      WithoutAt(a, 0);
      WithoutAt(b, i);
      hide Points;
      SamePoints(a[..0] + a[1..], b[..i] + b[i + 1..]);
    }
  }

  lemma IndexOf<T>(s: seq<T>, x: T) returns (i: nat)
    requires x in multiset(s)
    ensures i < |s| && s[i] == x
  {
    i :| 0 <= i < |s| && s[i] == x;
  }

  lemma Split<T>(s: seq<T>, i: nat)
    requires i < |s|
    ensures multiset(s[..i] + s[i + 1..]) == multiset(s) - multiset{s[i]}
    ensures multiset(s) == multiset(s[..i] + s[i + 1..]) + multiset{s[i]}
  {
    assert s == s[..i] + [s[i]] + s[i + 1..];
  }

  lemma WithoutAt(ms: seq<MountRecord>, i: nat)
    requires i < |ms|
    ensures |ms[..i] + ms[i + 1..]| == |ms| - 1 && multiset(ms[..i] + ms[i + 1..]) == multiset(ms) - multiset{ms[i]}
    ensures multiset(Points(ms)) == multiset(Points(ms[..i] + ms[i + 1..])) + multiset{ms[i].point}
  {
    Split(ms, i);
    Split(Points(ms), i);
    assert Points(ms[..i] + ms[i + 1..]) == Points(ms)[..i] + Points(ms)[i + 1..];
  }

  /** The calls for the run take only the source's mounts away exactly when no mount of another device lies
      over one of them, at the same mount point. */
  lemma RunTakesOnlySourceIff(tree: SourceTree, table: seq<MountRecord>)
    ensures OnlySource(tree, table, Points(RunOrder(table, tree.Mounts(table)))) <==> NoForeignOver(tree, table)
    ensures NoForeignOver(tree, table) ==>
              tree.Mounts(AfterCalls(table, Points(RunOrder(table, tree.Mounts(table))))) == []
  {
    var ours, run := tree.Mounts(table), RunOrder(table, tree.Mounts(table));
    RunIsAllOfSource(table, ours);
    SamePoints(run, ours);
    hide RunOrder, OnlySource, NoForeignOver, AfterCalls, SourceTree.Mounts, Points;
    OnlySourceIff(tree, table, Points(run));
    if NoForeignOver(tree, table) {
      OnlySourceLeaves(tree, table, Points(run));
    }
  }

  lemma DoneTakes(tree: SourceTree, table: seq<MountRecord>, failedAt: Option<nat>)
    requires failedAt.Some? ==> failedAt.value < |RunOrder(table, tree.Mounts(table))|
    ensures Took(tree, table, AfterCalls(table, Points(Done(RunOrder(table, tree.Mounts(table)), failedAt))), failedAt)
  {
    if NoForeignOver(tree, table) {
      RunTakesOnlySourceIff(tree, table);
      var run := RunOrder(table, tree.Mounts(table));
      var done := Points(Done(run, failedAt));
      if failedAt.Some? {
        assert done == Points(run)[..failedAt.value];
        OnlySourcePrefix(tree, table, Points(run), failedAt.value);
      }
      OnlySourceLeaves(tree, table, done);
    }
  }

  /** What the answer of a run says: Ok that no call failed, that the table was read again, and that it holds no
      mount of the source; a failure which call failed and which did not, or what is still mounted. */
  ghost predicate Says(tree: SourceTree, run: seq<MountRecord>, failedAt: Option<nat>,
                       reread: Option<seq<MountRecord>>, r: Result<seq<string>, Failure>) {
    match r
    case Ok(points) =>
      failedAt == None && reread.Some? && tree.Mounts(reread.value) == [] && points == Points(run)
    case Err(CannotUnmount(m, done)) =>
      failedAt.Some? && failedAt.value < |run| && m == run[failedAt.value] && done == Points(run[..failedAt.value])
    case Err(CannotReread) => failedAt == None && reread == None
    case Err(StillMounted(points)) =>
      failedAt == None && reread.Some? && points == Points(tree.Mounts(reread.value)) != []
    case Err(_) => false
  }

  /** The run itself: deepest first, up to the first call that fails, and the check afterwards. */
  method RunUnmount(host: Host, tree: SourceTree, reread: seq<MountRecord> -> Option<seq<MountRecord>>)
    returns (r: Result<seq<string>, Failure>, ghost failedAt: Option<nat>)
    requires UniqueIds(host.table) && OnTop(host.table, IdsOf(tree.Mounts(host.table))) == []
    modifies host
    ensures var table, run := old(host.table), RunOrder(old(host.table), tree.Mounts(old(host.table)));
            && (failedAt.Some? ==> failedAt.value < |run|)
            && host.calls == old(host.calls) + Points(Tried(run, failedAt))
            && Took(tree, table, host.table, failedAt)
            && Says(tree, run, failedAt, reread(host.table), r)
            && (Shallow(table, tree.Mounts(table)) ==>
                  && NoForeignOnTop(table, tree.Mounts(table))
                  && (ChildrenFirst(table, run) <==> RootsListedFirst(tree.Mounts(table))))
  {
    var table := host.table;
    if Shallow(table, tree.Mounts(table)) {
      RunIsSafe(tree, table);
    }
    hide ChildrenFirst, RootsListedFirst, Shallow, NoForeignOnTop, RunOrder, AfterCalls, Took, Points;
    var run := RunOrder(table, tree.Mounts(table));
    var failed := UnmountInOrder(host, run);
    failedAt := failed;
    DoneTakes(tree, table, failed);
    hide Says, SourceTree.Mounts;
    r := Answer(tree, run, failed, reread(host.table));
  }

  /** The first failure, or what the mount table says afterwards. */
  method Answer(tree: SourceTree, run: seq<MountRecord>, failed: Option<nat>, again: Option<seq<MountRecord>>)
    returns (r: Result<seq<string>, Failure>)
    requires failed.Some? ==> failed.value < |run|
    ensures Says(tree, run, failed, again, r)
  {
    if failed.Some? {
      return Err(CannotUnmount(run[failed.value], Points(run[..failed.value])));
    }
    if again.None? {
      return Err(CannotReread);
    }
    var remaining := tree.Mounts(again.value);
    if remaining != [] {
      PointsLength(remaining);
      return Err(StillMounted(Points(remaining)));
    }
    r := Ok(Points(run));
  }

  lemma PointsLength(ms: seq<MountRecord>)
    ensures |Points(ms)| == |ms|
  {
  }

  /** Unmount every filesystem of the source, or refuse before anything is unmounted. `found` and
      `swaps`: the refusals that do not come from the mount table; `reread`: what reading a table again gives. */
  method UnmountSourceTree(host: Host, tree: SourceTree, found: seq<Refusal>, swaps: seq<Refusal>,
                           isSystem: string -> bool, auditRequired: bool, auditWritable: bool,
                           reread: seq<MountRecord> -> Option<seq<MountRecord>>)
    returns (r: Result<seq<string>, Failure>, ghost failedAt: Option<nat>)
    requires UniqueIds(host.table)
    modifies host
    ensures var table := old(host.table);
            var ours, run := tree.Mounts(table), RunOrder(table, tree.Mounts(table));
            var refusals := found + TableRefusals(tree, table, isSystem) + swaps;
            var untouched := host.calls == old(host.calls) && host.table == table;
            if refusals != [] then r == Err(Refused(refusals)) && untouched
            else if ours == [] then r == Ok([]) && untouched
            else if auditRequired && !auditWritable then r == Err(NoAuditLog) && untouched
            else
              && (failedAt.Some? ==> failedAt.value < |run|)
              && host.calls == old(host.calls) + Points(Tried(run, failedAt))
              && Took(tree, table, host.table, failedAt)
              && Says(tree, run, failedAt, reread(host.table), r)
              && (Shallow(table, ours) ==>
                    NoForeignOnTop(table, ours) && (ChildrenFirst(table, run) <==> RootsListedFirst(ours)))
    ensures Unsafe(tree, old(host.table), isSystem) ==>
              r.Err? && r.error.Refused? && host.calls == old(host.calls) && host.table == old(host.table)
    ensures r.Err? && r.error.Refused? ==> Unsafe(tree, old(host.table), isSystem) || found + swaps != []
    ensures r.Ok? ==>
              tree.Mounts(old(host.table)) == []
              || (reread(host.table).Some? && tree.Mounts(reread(host.table).value) == [])
  {
    failedAt := None;
    var table := host.table;
    var ours := tree.Mounts(table);
    var refusals := found + Systems(ours, isSystem) + OnTop(table, IdsOf(ours)) + swaps;
    assert refusals == found + TableRefusals(tree, table, isSystem) + swaps;
    NoTableRefusalIff(tree, table, isSystem);
    hide Unsafe, TableRefusals, Took, Tried, ChildrenFirst, RootsListedFirst, Shallow, NoForeignOnTop, RunOrder;
    hide Systems, OnTop, IdsOf, SourceTree.Mounts;
    if refusals != [] {
      return Err(Refused(refusals)), None;
    }
    if ours == [] {
      return Ok([]), None;
    }
    if auditRequired && !auditWritable {
      return Err(NoAuditLog), None;
    }
    r, failedAt := RunUnmount(host, tree, reread);
  }

  lemma {:induction false} InsertMounts(order: seq<Entry>, e: Entry)
    ensures multiset(MountsIn(Insert(order, e))) == multiset(MountsIn(order)) + multiset{e.mount}
  {
    if order == [] || Before(e, order[0]) {
      assert MountsIn([e] + order) == [e.mount] + MountsIn(order);
    } else {
      var rest := order[1..];
      InsertMounts(rest, e);
      assert MountsIn(order) == [order[0].mount] + MountsIn(rest);
      assert MountsIn(Insert(order, e)) == [order[0].mount] + MountsIn(Insert(rest, e));
    }
  }

  lemma {:induction false} SortedMounts(es: seq<Entry>)
    ensures multiset(MountsIn(Sort(es))) == multiset(MountsIn(es))
  {
    if es != [] {
      var front, last := es[..|es| - 1], es[|es| - 1];
      SortedMounts(front);
      InsertMounts(Sort(front), last);
      assert MountsIn(es) == MountsIn(front) + [last.mount];
    }
  }

  /** Each mount of the source is in the run exactly once. */
  lemma RunIsAllOfSource(table: seq<MountRecord>, ours: seq<MountRecord>)
    ensures multiset(RunOrder(table, ours)) == multiset(ours)
  {
    SortedMounts(EntriesOf(table, ours));
    assert MountsIn(EntriesOf(table, ours)) == ours;
  }

  /** A source filesystem whose root mount is its own parent, with the mount on top listed before it:
      the lower one is taken first. */
  lemma SelfParentListedLast()
    ensures var a := MountRecord(2, 1, (8, 1), "/mnt/a", "/dev/sdb1");
            var b := MountRecord(1, 1, (8, 1), "/mnt", "/dev/sdb1");
            && !ChildrenFirst([a, b], RunOrder([a, b], [a, b]))
            && NoForeignOnTop([a, b], [a, b]) && Shallow([a, b], [a, b])
  {
    var a, b := MountRecord(2, 1, (8, 1), "/mnt/a", "/dev/sdb1"), MountRecord(1, 1, (8, 1), "/mnt", "/dev/sdb1");
    var t := [a, b];
    assert b in t && a in t && t[1] == b && t[0] == a;
    ParentOf(t, b);
    assert Depth(Parents(t), a) == 0 && Depth(Parents(t), b) == 0;
    RunOrderSafeIff(t, t);
  }

  /** Another device over the directory of a source mount, and a third at the same mount point inside it: nothing
      is refused, the run is the source's one mount, and the call for it takes the third device's mount away. */
  lemma ForeignIsUnmounted(tree: SourceTree, a: MountRecord, b: MountRecord, c: MountRecord)
    requires tree.Contains(a) && !tree.Contains(b) && !tree.Contains(c)
    requires a.point == c.point && a.point != b.point
    requires a.id != b.id && a.id != c.id && b.id != c.id && b.parentId != a.id && c.parentId == b.id
    ensures var table := [a, b, c];
            && UniqueIds(table) && OnTop(table, IdsOf(tree.Mounts(table))) == []
            && RunOrder(table, tree.Mounts(table)) == [a]
            && TopAt(table, a.point) == Some(c) && RemoveTop(table, a.point) == [a, b]
            && !OnlySource(tree, table, Points([a]))
  {
    var table := [a, b, c];
    assert table[..2] == [a, b] && [a, b][..1] == [a] && [a][..0] == [];
    assert tree.Mounts([a]) == [a] && tree.Mounts([a, b]) == [a] && tree.Mounts(table) == [a];
    assert IdsOf([a]) == {a.id};
    NoneOnTop(table, {a.id});
    OneInRun(table, a);
    assert table[0].point == table[2].point && !tree.Contains(table[2]);
    assert !NoForeignOver(tree, table);
    hide NoForeignOver, OnTop, IdsOf, Sort, EntriesOf, TopAt, RemoveTop;
    RunTakesOnlySourceIff(tree, table);
  }

  lemma OneInRun(table: seq<MountRecord>, m: MountRecord)
    ensures RunOrder(table, [m]) == [m]
  {
    var order := EntriesOf(table, [m]);
    assert order[..0] == [] && Sort(order) == order;
  }

  /** For example /dev/sdb1 at /mnt/x, /dev/sdc1 mounted over /mnt, and /dev/sdd1 at the /mnt/x of that. */
  lemma ForeignIsUnmountedExample()
    ensures var tree := SourceTree({(8, 17)}, {});
            var a := MountRecord(2, 1, (8, 17), "/mnt/x", "/dev/sdb1");
            var b := MountRecord(3, 1, (8, 33), "/mnt", "/dev/sdc1");
            var c := MountRecord(4, 3, (8, 49), "/mnt/x", "/dev/sdd1");
            OnTop([a, b, c], IdsOf(tree.Mounts([a, b, c]))) == [] && !OnlySource(tree, [a, b, c], Points([a]))
  {
    var a := MountRecord(2, 1, (8, 17), "/mnt/x", "/dev/sdb1");
    var b := MountRecord(3, 1, (8, 33), "/mnt", "/dev/sdc1");
    var c := MountRecord(4, 3, (8, 49), "/mnt/x", "/dev/sdd1");
    assert |"/mnt"| != |"/mnt/x"|;
    ForeignIsUnmounted(SourceTree({(8, 17)}, {}), a, b, c);
  }
}
