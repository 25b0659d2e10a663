/** What an unmount run is refused for, read off the mount table. */
module UnmountRefusals {
  import opened MountTable

  datatype Refusal =
    | Found(reason: string)        // identity, registry, system disk, swap, possible nodes, unreadable tables
    | SystemMount(m: MountRecord)
    | ForeignOnTop(m: MountRecord)

  function Systems(ours: seq<MountRecord>, isSystem: string -> bool): seq<Refusal> {
    if ours == [] then []
    else
      var rest, m := Systems(ours[..|ours| - 1], isSystem), ours[|ours| - 1];
      if isSystem(m.point) then rest + [SystemMount(m)] else rest
  }

  function OnTop(table: seq<MountRecord>, ourIds: set<nat>): seq<Refusal> {
    if table == [] then []
    else
      var rest, m := OnTop(table[..|table| - 1], ourIds), table[|table| - 1];
      if m.parentId in ourIds && m.id !in ourIds then rest + [ForeignOnTop(m)] else rest
  }

  function IdsOf(ours: seq<MountRecord>): set<nat> {
    set m | m in ours :: m.id
  }

  lemma {:induction false} NoneOnTop(table: seq<MountRecord>, ids: set<nat>)
    ensures OnTop(table, ids) == [] <==> forall c :: c in table && c.parentId in ids ==> c.id in ids
  {
    if table != [] {
      var front, last := table[..|table| - 1], table[|table| - 1];
      assert table == front + [last];
      NoneOnTop(front, ids);
    }
  }

  lemma SameId(table: seq<MountRecord>, a: MountRecord, b: MountRecord)
    requires UniqueIds(table) && a in table && b in table && a.id == b.id
    ensures a == b
  {
  }

  lemma {:induction false} InSystems(ours: seq<MountRecord>, isSystem: string -> bool, x: Refusal)
    ensures x in Systems(ours, isSystem) <==> exists m :: m in ours && isSystem(m.point) && x == SystemMount(m)
  {
    if ours != [] {
      var front, last := ours[..|ours| - 1], ours[|ours| - 1];
      assert ours == front + [last];
      InSystems(front, isSystem, x);
    }
  }

  lemma {:induction false} InOnTop(table: seq<MountRecord>, ids: set<nat>, x: Refusal)
    ensures x in OnTop(table, ids) <==>
            exists c :: c in table && c.parentId in ids && c.id !in ids && x == ForeignOnTop(c)
  {
    if table != [] {
      var front, last := table[..|table| - 1], table[|table| - 1];
      assert table == front + [last];
      InOnTop(front, ids, x);
    }
  }

  /** A source mount at a mount point of the running system. */
  predicate AtSystemPoint(tree: SourceTree, table: seq<MountRecord>, isSystem: string -> bool, m: MountRecord) {
    m in table && tree.Contains(m) && isSystem(m.point)
  }

  /** A mount of another device on a source mount. */
  predicate OnSourceMount(tree: SourceTree, table: seq<MountRecord>, c: MountRecord) {
    c in table && !tree.Contains(c) && exists m :: m in table && tree.Contains(m) && c.parentId == m.id
  }

  /** A run would unmount something of the running system, or something with another device's mount on it. */
  ghost predicate Unsafe(tree: SourceTree, table: seq<MountRecord>, isSystem: string -> bool) {
    (exists m :: AtSystemPoint(tree, table, isSystem, m)) || exists c :: OnSourceMount(tree, table, c)
  }

  function TableRefusals(tree: SourceTree, table: seq<MountRecord>, isSystem: string -> bool): seq<Refusal> {
    Systems(tree.Mounts(table), isSystem) + OnTop(table, IdsOf(tree.Mounts(table)))
  }

  lemma OfSource(tree: SourceTree, table: seq<MountRecord>, c: MountRecord)
    requires UniqueIds(table) && c in table
    ensures c.id in IdsOf(tree.Mounts(table)) <==> tree.Contains(c)
  {
    if c.id in IdsOf(tree.Mounts(table)) {
      var o :| o in tree.Mounts(table) && o.id == c.id;
      SameId(table, o, c);
    }
  }

  /** The refusals read off the mount table: one for each source mount at a system mount point, and for each mount
      of another device on a source mount. */
  lemma TableRefusalIff(tree: SourceTree, table: seq<MountRecord>, isSystem: string -> bool, x: Refusal)
    requires UniqueIds(table)
    ensures x in TableRefusals(tree, table, isSystem) <==>
            || (x.SystemMount? && AtSystemPoint(tree, table, isSystem, x.m))
            || (x.ForeignOnTop? && OnSourceMount(tree, table, x.m))
  {
    var ours := tree.Mounts(table);
    InSystems(ours, isSystem, x);
    InOnTop(table, IdsOf(ours), x);
    forall c | c in table
      ensures c.id in IdsOf(ours) <==> tree.Contains(c)
      ensures c.parentId in IdsOf(ours) <==> exists m :: m in table && tree.Contains(m) && c.parentId == m.id
    {
      OfSource(tree, table, c);
      if m :| m in table && tree.Contains(m) && c.parentId == m.id {
        assert m in ours;
      }
    }
    hide Systems, OnTop, SourceTree.Mounts, IdsOf;
    assert x in TableRefusals(tree, table, isSystem)
      <==> x in Systems(ours, isSystem) || x in OnTop(table, IdsOf(ours));
  }

  /** Nothing is refused for the table exactly when no source mount is at a system mount point and no mount of
      another device is on a source mount. */
  lemma NoTableRefusalIff(tree: SourceTree, table: seq<MountRecord>, isSystem: string -> bool)
    requires UniqueIds(table)
    ensures TableRefusals(tree, table, isSystem) == [] <==> !Unsafe(tree, table, isSystem)
    ensures TableRefusals(tree, table, isSystem) == [] ==> OnTop(table, IdsOf(tree.Mounts(table))) == []
  {
    var rs := TableRefusals(tree, table, isSystem);
    forall x
      ensures x in rs <==> (x.SystemMount? && AtSystemPoint(tree, table, isSystem, x.m))
                           || (x.ForeignOnTop? && OnSourceMount(tree, table, x.m))
    {
      TableRefusalIff(tree, table, isSystem, x);
    }
    hide AtSystemPoint, OnSourceMount, TableRefusals;
    if rs != [] {
      assert rs[0] in rs;
    }
    if m :| AtSystemPoint(tree, table, isSystem, m) {
      assert SystemMount(m) in rs;
    }
    if c :| OnSourceMount(tree, table, c) {
      assert ForeignOnTop(c) in rs;
    }
  }
}
