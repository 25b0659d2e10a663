/** Mount tables: the mounts of a source among them, and what unmounting a mount point takes away. */
module MountTable {
  import opened Wrappers

  type DevNum = (nat, nat)

  /** One line of the mount table. */
  datatype MountRecord = MountRecord(id: nat, parentId: nat, dev: DevNum, point: string, source: string)

  /** The nodes of the source as the mount table names them. */
  datatype SourceTree = SourceTree(devs: set<DevNum>, paths: set<string>) {
    predicate Contains(m: MountRecord) {
      m.dev in devs || m.source in paths
    }

    /** The lines of the table that are mounts of the tree. */
    function Mounts(table: seq<MountRecord>): (r: seq<MountRecord>)
      ensures forall m :: m in r <==> m in table && Contains(m)
    {
      if table == [] then []
      else
        var front, last := table[..|table| - 1], table[|table| - 1];
        assert table == front + [last];
        if Contains(last) then Mounts(front) + [last] else Mounts(front)
    }
  }

  predicate UniqueIds(table: seq<MountRecord>) {
    forall i, j :: 0 <= i < j < |table| ==> table[i].id != table[j].id
  }

  lemma {:induction false} MountsUnique(tree: SourceTree, table: seq<MountRecord>)
    requires UniqueIds(table)
    ensures UniqueIds(tree.Mounts(table))
  {
    if table != [] {
      var front, last := table[..|table| - 1], table[|table| - 1];
      MountsUnique(tree, front);
      var r := tree.Mounts(front);
      forall i | 0 <= i < |r|
        ensures r[i].id != last.id
      {
        assert r[i] in front;
      }
    }
  }

  function Points(ms: seq<MountRecord>): seq<string> {
    seq(|ms|, i requires 0 <= i < |ms| => ms[i].point)
  }

  // ---- What a call removes ----

  /** What is mounted at the point, on top: the last line of the table for it. */
  function TopAt(table: seq<MountRecord>, point: string): Option<MountRecord> {
    if table == [] then None
    else if table[|table| - 1].point == point then Some(table[|table| - 1])
    else TopAt(table[..|table| - 1], point)
  }

  function RemoveTop(table: seq<MountRecord>, point: string): seq<MountRecord> {
    if table == [] then []
    else
      var front, last := table[..|table| - 1], table[|table| - 1];
      if last.point == point then front else RemoveTop(front, point) + [last]
  }

  function AfterCalls(table: seq<MountRecord>, points: seq<string>): seq<MountRecord>
    decreases |points|
  {
    if points == [] then table else AfterCalls(RemoveTop(table, points[0]), points[1..])
  }

  lemma {:induction false} AfterCallsSnoc(table: seq<MountRecord>, points: seq<string>, point: string)
    ensures AfterCalls(table, points + [point]) == RemoveTop(AfterCalls(table, points), point)
    decreases |points|
  {
    if points == [] {
      assert ([] + [point])[1..] == [];
    } else {
      assert (points + [point])[1..] == points[1..] + [point];
      AfterCallsSnoc(RemoveTop(table, points[0]), points[1..], point);
    }
  }

  lemma {:induction false} TopPosition(table: seq<MountRecord>, point: string) returns (k: nat)
    requires TopAt(table, point).Some?
    ensures k < |table| && table[k] == TopAt(table, point).value && table[k].point == point
    ensures forall j :: k < j < |table| ==> table[j].point != point
    ensures RemoveTop(table, point) == table[..k] + table[k + 1..]
  {
    var front, last := table[..|table| - 1], table[|table| - 1];
    if last.point == point {
      k := |table| - 1;
    } else {
      k := TopPosition(front, point);
      assert table[..k] + table[k + 1..] == (front[..k] + front[k + 1..]) + [last];
    }
  }

  lemma {:induction false} TopExists(table: seq<MountRecord>, m: MountRecord)
    requires m in table
    ensures TopAt(table, m.point).Some?
  {
    var front, last := table[..|table| - 1], table[|table| - 1];
    assert table == front + [last];
    if last.point != m.point {
      TopExists(front, m);
    }
  }

  // ---- Only the source's mounts are removed ----

  /** Each call takes a mount of the source away. */
  predicate OnlySource(tree: SourceTree, table: seq<MountRecord>, points: seq<string>)
    decreases |points|
  {
    points == []
    || (TopAt(table, points[0]).Some? && tree.Contains(TopAt(table, points[0]).value)
        && OnlySource(tree, RemoveTop(table, points[0]), points[1..]))
  }

  /** No mount of another device lies over a source mount at one mount point. */
  predicate NoForeignOver(tree: SourceTree, table: seq<MountRecord>) {
    forall i, j :: 0 <= i < j < |table| && table[i].point == table[j].point && tree.Contains(table[i])
                   ==> tree.Contains(table[j])
  }

  /** Mounts of other devices. */
  function Others(tree: SourceTree, table: seq<MountRecord>): seq<MountRecord> {
    if table == [] then []
    else
      var front, last := table[..|table| - 1], table[|table| - 1];
      Others(tree, front) + if tree.Contains(last) then [] else [last]
  }

  lemma {:induction false} RemoveSource(tree: SourceTree, table: seq<MountRecord>, point: string)
    requires TopAt(table, point).Some? && tree.Contains(TopAt(table, point).value)
    ensures Others(tree, RemoveTop(table, point)) == Others(tree, table)
    ensures multiset(Points(tree.Mounts(table)))
         == multiset(Points(tree.Mounts(RemoveTop(table, point)))) + multiset{point}
  {
    var front, last := table[..|table| - 1], table[|table| - 1];
    if last.point == point {
      PointsSnoc(tree.Mounts(front), last);
    } else {
      RemoveSource(tree, front, point);
      var removed := RemoveTop(front, point);
      assert RemoveTop(table, point)[..|removed|] == removed;
      PointsSnoc(tree.Mounts(front), last);
      PointsSnoc(tree.Mounts(removed), last);
    }
  }

  lemma PointsSnoc(ms: seq<MountRecord>, m: MountRecord)
    ensures Points(ms + [m]) == Points(ms) + [m.point]
  {
  }

  /** Without one source mount that has no other line of its point after it, foreign mounts lie over the others
      exactly where they did. */
  lemma WithoutOne(tree: SourceTree, table: seq<MountRecord>, k: nat)
    requires k < |table| && tree.Contains(table[k])
    requires forall j :: k < j < |table| ==> table[j].point != table[k].point
    ensures NoForeignOver(tree, table) <==> NoForeignOver(tree, table[..k] + table[k + 1..])
  {
    var after := table[..k] + table[k + 1..];
    if NoForeignOver(tree, after) {
      forall i, j | 0 <= i < j < |table| && table[i].point == table[j].point && tree.Contains(table[i])
        ensures tree.Contains(table[j])
      {
        if i != k && j != k {
          var i', j' := if i < k then i else i - 1, if j < k then j else j - 1;
          assert after[i'] == table[i] && after[j'] == table[j];
        }
      }
    }
    if NoForeignOver(tree, table) {
      forall i, j | 0 <= i < j < |after| && after[i].point == after[j].point && tree.Contains(after[i])
        ensures tree.Contains(after[j])
      {
        var i', j' := if i < k then i else i + 1, if j < k then j else j + 1;
        assert after[i] == table[i'] && after[j] == table[j'];
      }
    }
  }

  lemma RemoveKeepsNoForeignOver(tree: SourceTree, table: seq<MountRecord>, point: string)
    requires TopAt(table, point).Some? && tree.Contains(TopAt(table, point).value)
    ensures NoForeignOver(tree, table) <==> NoForeignOver(tree, RemoveTop(table, point))
  {
    var k := TopPosition(table, point);
    hide TopAt, RemoveTop, NoForeignOver;
    WithoutOne(tree, table, k);
  }

  lemma SomePoint(tree: SourceTree, table: seq<MountRecord>, points: seq<string>) returns (m: MountRecord)
    requires points != [] && multiset(points) == multiset(Points(tree.Mounts(table)))
    ensures m in table && tree.Contains(m) && m.point == points[0]
  {
    assert points[0] in multiset(Points(tree.Mounts(table)));
    var i :| 0 <= i < |Points(tree.Mounts(table))| && Points(tree.Mounts(table))[i] == points[0];
    m := tree.Mounts(table)[i];
  }

  lemma TopIsSource(tree: SourceTree, table: seq<MountRecord>, m: MountRecord)
    requires NoForeignOver(tree, table) && m in table && tree.Contains(m)
    ensures TopAt(table, m.point).Some? && tree.Contains(TopAt(table, m.point).value)
  {
    TopExists(table, m);
    var k := TopPosition(table, m.point);
    var i :| 0 <= i < |table| && table[i] == m;
    assert i <= k;
  }

  lemma TailPoints(points: seq<string>, rest: multiset<string>)
    requires points != []
    ensures multiset(points) == rest + multiset{points[0]} <==> multiset(points[1..]) == rest
  {
    assert points == [points[0]] + points[1..];
    assert multiset(points[1..]) == multiset(points) - multiset{points[0]};
  }

  /** Calls for all the source's mount points, in whatever order, take only the source's mounts away, if and only
      if no mount of another device lies over one of them. */
  lemma {:induction false} OnlySourceIff(tree: SourceTree, table: seq<MountRecord>, points: seq<string>)
    requires multiset(points) == multiset(Points(tree.Mounts(table)))
    ensures OnlySource(tree, table, points) <==> NoForeignOver(tree, table)
    decreases |points|
  {
    if points == [] {
      NoSource(tree, table);
    } else {
      if NoForeignOver(tree, table) {
        var m := SomePoint(tree, table, points);
        TopIsSource(tree, table, m);
      }
      if TopAt(table, points[0]).Some? && tree.Contains(TopAt(table, points[0]).value) {
        RemoveSource(tree, table, points[0]);
        RemoveKeepsNoForeignOver(tree, table, points[0]);
        TailPoints(points, multiset(Points(tree.Mounts(RemoveTop(table, points[0])))));
        hide NoForeignOver, TopAt, RemoveTop, SourceTree.Mounts, Points;
        OnlySourceIff(tree, RemoveTop(table, points[0]), points[1..]);
      }
    }
  }

  lemma NoSource(tree: SourceTree, table: seq<MountRecord>)
    requires multiset(Points(tree.Mounts(table))) == multiset{}
    ensures tree.Mounts(table) == [] && NoForeignOver(tree, table)
  {
    assert |multiset(Points(tree.Mounts(table)))| == |Points(tree.Mounts(table))|;
    forall i | 0 <= i < |table|
      ensures !tree.Contains(table[i])
    {
      assert table[i] in table;
    }
  }

  /** After calls that take only the source's mounts away the other mounts are as before; and after all of them
      none of the source's is left. */
  lemma {:induction false} OnlySourceLeaves(tree: SourceTree, table: seq<MountRecord>, points: seq<string>)
    requires OnlySource(tree, table, points)
    ensures Others(tree, AfterCalls(table, points)) == Others(tree, table)
    ensures multiset(points) == multiset(Points(tree.Mounts(table))) ==> tree.Mounts(AfterCalls(table, points)) == []
    decreases |points|
  {
    if points == [] {
      if multiset(points) == multiset(Points(tree.Mounts(table))) {
        NoSource(tree, table);
      }
    } else {
      RemoveSource(tree, table, points[0]);
      TailPoints(points, multiset(Points(tree.Mounts(RemoveTop(table, points[0])))));
      hide TopAt, RemoveTop, SourceTree.Mounts, Points;
      OnlySourceLeaves(tree, RemoveTop(table, points[0]), points[1..]);
    }
  }

  lemma {:induction false} OnlySourcePrefix(tree: SourceTree, table: seq<MountRecord>, points: seq<string>, n: nat)
    requires OnlySource(tree, table, points) && n <= |points|
    ensures OnlySource(tree, table, points[..n])
    decreases |points|
  {
    if n > 0 {
      OnlySourcePrefix(tree, RemoveTop(table, points[0]), points[1..], n - 1);
      assert points[..n][1..] == points[1..][..n - 1];
    }
  }
}
