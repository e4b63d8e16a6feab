/** Whether the node table has room for a name and the directories on the way to it, as the tree says beforehand. */
module FileTreeRoom {
  import opened ByteStrings
  import opened PathNames
  import opened FileTreeSpec

  /** The names in the tree. */
  ghost function Names(nodes: seq<Node>): set<seq<byte>> { set i | 0 <= i < |nodes| && nodes[i].used :: nodes[i].path }

  ghost predicate Full(nodes: seq<Node>) { forall i :: 0 <= i < |nodes| ==> nodes[i].used }

  /** A name and the names of the directories above it, without the root. */
  ghost function OnTheWay(name: seq<byte>): set<seq<byte>> {
    set k | 0 < k <= |name| && (k == |name| || name[k] == SLASH) :: name[..k]
  }

  /** Those of them that are not in the tree. */
  ghost function Missing(nodes: seq<Node>, heap: Heap, name: seq<byte>): set<seq<byte>> {
    set p | p in OnTheWay(name) && Look(nodes, heap, p) == Absent
  }

  ghost predicate RoomFor(nodes: seq<Node>, heap: Heap, name: seq<byte>) {
    |Names(nodes)| + |Missing(nodes, heap, name)| <= MAX_NODES
  }

  ghost predicate FileInTheWay(nodes: seq<Node>, heap: Heap, d: seq<byte>) {
    exists p :: p in OnTheWay(d) && Look(nodes, heap, p).File?
  }

  /** The directory can be made, with all above it. */
  ghost predicate CanMake(nodes: seq<Node>, heap: Heap, d: seq<byte>) {
    !FileInTheWay(nodes, heap, d) && RoomFor(nodes, heap, d)
  }

  /** The file can be written, if the heap has a block for its bytes. */
  ghost predicate CanWrite(nodes: seq<Node>, heap: Heap, name: seq<byte>) {
    Look(nodes, heap, name) != Dir && !FileInTheWay(nodes, heap, Parent(name)) && RoomFor(nodes, heap, name)
  }

  // ---------- names and slots ----------

  lemma NamesLook(nodes: seq<Node>, heap: Heap, p: seq<byte>)
    ensures p in Names(nodes) <==> Look(nodes, heap, p) != Absent
  {
    var f := Find(nodes, p, 0);
    if p in Names(nodes) {
      var i :| 0 <= i < |nodes| && nodes[i].used && nodes[i].path == p;
      assert IsAt(nodes, i, p);
    }
    if f >= 0 {
      assert IsAt(nodes, f, p);
    }
  }

  lemma NamesFirst(nodes: seq<Node>)
    requires nodes != []
    ensures var n, rest := nodes[|nodes| - 1], nodes[..|nodes| - 1];
      Names(nodes) == if n.used then Names(rest) + {n.path} else Names(rest)
  {
    var n, rest := nodes[|nodes| - 1], nodes[..|nodes| - 1];
    forall p | p in Names(rest) ensures p in Names(nodes) {
      var i :| 0 <= i < |rest| && rest[i].used && rest[i].path == p;
      assert nodes[i] == rest[i];
    }
    forall p | p in Names(nodes) && !(n.used && p == n.path) ensures p in Names(rest) {
      var i :| 0 <= i < |nodes| && nodes[i].used && nodes[i].path == p;
      assert rest[i] == nodes[i];
    }
  }

  /** There are at most as many names as slots, and as many exactly if every slot is used. */
  lemma {:induction false} NamesCount(nodes: seq<Node>)
    requires Unique(nodes)
    ensures |Names(nodes)| <= |nodes| && (Full(nodes) <==> |Names(nodes)| == |nodes|)
  {
    if nodes == [] {
      assert Names(nodes) == {};
    } else {
      var n, rest := nodes[|nodes| - 1], nodes[..|nodes| - 1];
      NamesFirst(nodes);
      NamesCount(rest);
      FullLast(nodes);
      if n.used {
        assert n.path !in Names(rest);
      }
      hide Names;
      hide Full;
      hide Unique;
    }
  }

  lemma FullLast(nodes: seq<Node>)
    requires nodes != []
    ensures Full(nodes) <==> nodes[|nodes| - 1].used && Full(nodes[..|nodes| - 1])
  {
    var rest := nodes[..|nodes| - 1];
    if Full(rest) {
      forall i | 0 <= i < |rest| ensures nodes[i].used {
        assert rest[i].used;
      }
    }
  }

  // ---------- the way to a name ----------

  lemma OnTheWayIs(name: seq<byte>, p: seq<byte>)
    ensures p in OnTheWay(name) <==> p != [] && AtOrUnder(name, p)
  {
    if p != [] && AtOrUnder(name, p) {
      assert name[..|p|] == p;
    }
  }

  lemma OnTheWayParent(name: seq<byte>, p: seq<byte>)
    ensures p in OnTheWay(name) <==> name != [] && (p == name || p in OnTheWay(Parent(name)))
  {
    var s := LastSlash(name);
    if p in OnTheWay(name) && p != name {
      var k :| 0 < k <= |name| && (k == |name| || name[k] == SLASH) && p == name[..k];
      assert name[..|name|] == name;
      assert k <= s && Parent(name)[..k] == p;
      assert k == |Parent(name)| || Parent(name)[k] == SLASH;
    }
    if p in OnTheWay(Parent(name)) {
      var k :| 0 < k <= |Parent(name)| && (k == |Parent(name)| || Parent(name)[k] == SLASH) && p == Parent(name)[..k];
      assert s >= 0 && name[..k] == p && name[k] == SLASH;
    }
    if p == name {
      assert name[..|name|] == name;
    }
  }

  /** What is in the tree lies in directories, up to the root. */
  lemma {:induction false} WayIsThere(nodes: seq<Node>, count: nat, heap: Heap, name: seq<byte>, p: seq<byte>)
    requires Valid(nodes, count, heap) && Look(nodes, heap, name) != Absent && p in OnTheWay(name)
    ensures p == name || Look(nodes, heap, p) == Dir
    decreases |name|
  {
    hide Valid;
    hide Look;
    hide OnTheWay;
    OnTheWayParent(name, p);
    if p != name {
      TreeClosed(nodes, count, heap, name);
      ParentShorter(name);
      hide Parent;
      if p != Parent(name) {
        WayIsThere(nodes, count, heap, Parent(name), p);
      }
    }
  }

  lemma ParentShorter(name: seq<byte>)
    ensures |Parent(name)| <= |name| && (name != [] ==> |Parent(name)| < |name|)
  {
  }

  // ---------- before and after ----------

  /** The table ran full on the way to `name`, with `p` still to be made. */
  lemma RanFull(nodes: seq<Node>, heap: Heap, nodes': seq<Node>, count': nat, heap': Heap, name: seq<byte>,
                p: seq<byte>)
    requires DirsAdded(nodes, heap, nodes', heap', name) && Valid(nodes', count', heap') && Full(nodes')
    requires p in OnTheWay(name) && Look(nodes', heap', p) == Absent
    ensures !RoomFor(nodes, heap, name)
  {
    hide Valid;
    hide Full;
    hide Names;
    hide Look;
    hide OnTheWay;
    hide AtOrUnder;
    NamesBound(nodes', count', heap');
    var all := Names(nodes) + Missing(nodes, heap, name);
    forall q | q in Names(nodes') + {p} ensures q in all {
      NamesLook(nodes', heap', q);
      NamesLook(nodes, heap, q);
      OnTheWayIs(name, q);
    }
    NamesLook(nodes', heap', p);
    hide Missing;
    SubsetCount(Names(nodes') + {p}, all);
  }

  lemma NamesBound(nodes: seq<Node>, count: nat, heap: Heap)
    requires Valid(nodes, count, heap)
    ensures |Names(nodes)| <= MAX_NODES && (Full(nodes) <==> |Names(nodes)| == MAX_NODES)
  {
    NamesCount(nodes);
  }

  lemma {:induction false} SubsetCount(a: set<seq<byte>>, b: set<seq<byte>>)
    requires a <= b
    ensures |a| <= |b|
  {
    assert b == a + (b - a);
  }

  /** When `name` is there in the end, there was room for it. */
  lemma ThereWasRoom(nodes: seq<Node>, heap: Heap, nodes': seq<Node>, count': nat, heap': Heap, name: seq<byte>)
    requires Valid(nodes', count', heap') && Look(nodes', heap', name) != Absent
    requires forall q: seq<byte> :: Look(nodes, heap, q) != Absent ==> Look(nodes', heap', q) != Absent
    ensures RoomFor(nodes, heap, name)
  {
    hide Valid;
    hide Names;
    hide Look;
    hide OnTheWay;
    forall q | q in Names(nodes) + Missing(nodes, heap, name) ensures q in Names(nodes') {
      NamesLook(nodes, heap, q);
      NamesLook(nodes', heap', q);
      if q in Missing(nodes, heap, name) {
        WayIsThere(nodes', count', heap', name, q);
      }
    }
    forall q ensures !(q in Names(nodes) && q in Missing(nodes, heap, name)) {
      NamesLook(nodes, heap, q);
    }
    NamesBound(nodes', count', heap');
    hide Missing;
    SubsetCount(Names(nodes) + Missing(nodes, heap, name), Names(nodes'));
  }

  /** The table is full, and the name is not in it. */
  ghost predicate NoSlot(nodes: seq<Node>, heap: Heap, name: seq<byte>) {
    Full(nodes) && Look(nodes, heap, name) == Absent
  }

  /** Why making the directory stopped where it did. */
  ghost predicate Blocked(nodes: seq<Node>, heap: Heap, d: seq<byte>) {
    FileInTheWay(nodes, heap, d) || exists p :: p in OnTheWay(d) && NoSlot(nodes, heap, p)
  }

  lemma DirsMade(nodes: seq<Node>, heap: Heap, nodes': seq<Node>, count': nat, d: seq<byte>)
    requires DirsAdded(nodes, heap, nodes', heap, d) && Valid(nodes', count', heap) && Look(nodes', heap, d) == Dir
    ensures CanMake(nodes, heap, d)
  {
    hide Valid;
    hide Look;
    hide OnTheWay;
    ThereWasRoom(nodes, heap, nodes', count', heap, d);
    forall p | p in OnTheWay(d) ensures !Look(nodes, heap, p).File? {
      WayIsThere(nodes', count', heap, d, p);
    }
  }

  lemma DirsStopped(nodes: seq<Node>, heap: Heap, nodes': seq<Node>, count': nat, d: seq<byte>)
    requires DirsAdded(nodes, heap, nodes', heap, d) && Valid(nodes', count', heap) && Blocked(nodes', heap, d)
    ensures !CanMake(nodes, heap, d)
  {
    hide Valid;
    hide Look;
    hide OnTheWay;
    hide RoomFor;
    hide Full;
    if FileInTheWay(nodes', heap, d) {
      var p :| p in OnTheWay(d) && Look(nodes', heap, p).File?;
      assert Look(nodes, heap, p).File?;
    } else {
      var p :| p in OnTheWay(d) && NoSlot(nodes', heap, p);
      RanFull(nodes, heap, nodes', count', heap, d, p);
    }
  }

  /** What stops the parent directory stops the file. */
  lemma ParentStops(nodes: seq<Node>, heap: Heap, name: seq<byte>)
    ensures CanWrite(nodes, heap, name) ==> CanMake(nodes, heap, Parent(name))
  {
    hide Look;
    hide OnTheWay;
    forall p | p in Missing(nodes, heap, Parent(name)) ensures p in Missing(nodes, heap, name) {
      OnTheWayParent(name, p);
      NothingOnTheWay(name);
    }
    hide Missing;
    hide FileInTheWay;
    SubsetCount(Missing(nodes, heap, Parent(name)), Missing(nodes, heap, name));
  }

  lemma NothingOnTheWay(name: seq<byte>)
    ensures name == [] ==> OnTheWay(Parent(name)) == {}
  {
  }

  /** The parent directory is there, but the file could not be put into it. */
  lemma FileStopped(nodes: seq<Node>, heap: Heap, nodes': seq<Node>, count': nat, heap': Heap, name: seq<byte>)
    requires DirsAdded(nodes, heap, nodes', heap', Parent(name)) && Valid(nodes', count', heap') && name != []
    requires NoSlot(nodes', heap', name) || Look(nodes', heap', name) == Dir
    ensures !CanWrite(nodes, heap, name)
  {
    hide Valid;
    hide Look;
    hide OnTheWay;
    hide RoomFor;
    hide FileInTheWay;
    hide Full;
    hide AtOrUnder;
    ParentShorter(name);
    OnTheWayIs(Parent(name), name);
    NotAboveParent(name);
    if Look(nodes', heap', name) == Absent {
      forall q: seq<byte> | q != [] && AtOrUnder(Parent(name), q) ensures AtOrUnder(name, q) {
        OnTheWayIs(Parent(name), q);
        OnTheWayIs(name, q);
        OnTheWayParent(name, q);
      }
      OnTheWayParent(name, name);
      RanFull(nodes, heap, nodes', count', heap', name, name);
    }
  }

  lemma NotAboveParent(name: seq<byte>)
    requires name != []
    ensures !AtOrUnder(Parent(name), name)
  {
    ParentShorter(name);
  }

  /** The file is there in the end, and only directories on the way are new. */
  lemma FileMade(nodes: seq<Node>, heap: Heap, nodes': seq<Node>, count': nat, heap': Heap, name: seq<byte>)
    requires Valid(nodes', count', heap') && Look(nodes', heap', name).File? && Look(nodes, heap, name) != Dir
    requires forall p: seq<byte> :: p != name && Look(nodes, heap, p) != Absent ==>
               Look(nodes', heap', p) == Look(nodes, heap, p)
    ensures CanWrite(nodes, heap, name)
  {
    hide Valid;
    hide Look;
    hide OnTheWay;
    hide RoomFor;
    ThereWasRoom(nodes, heap, nodes', count', heap', name);
    forall p | p in OnTheWay(Parent(name)) ensures !Look(nodes, heap, p).File? {
      NothingOnTheWay(name);
      OnTheWayParent(name, p);
      WayIsThere(nodes', count', heap', name, p);
      NotItself(name);
    }
  }

  lemma NotItself(name: seq<byte>)
    ensures name !in OnTheWay(Parent(name))
  {
    ParentShorter(name);
    OnTheWayIs(Parent(name), name);
  }

  /** The heap's other blocks have no part in it. */
  lemma SameRoom(nodes: seq<Node>, heap: Heap, heap': Heap, name: seq<byte>)
    requires SameTree(nodes, heap, nodes, heap')
    ensures CanWrite(nodes, heap, name) == CanWrite(nodes, heap', name)
    ensures Look(nodes, heap, name) == Look(nodes, heap', name)
  {
    hide Look;
    hide OnTheWay;
    assert Missing(nodes, heap, name) == Missing(nodes, heap', name);
    assert FileInTheWay(nodes, heap, Parent(name)) == FileInTheWay(nodes, heap', Parent(name));
    hide Missing;
    hide FileInTheWay;
  }
}
