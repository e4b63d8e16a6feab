/**
 The node table of the in-memory file system as a value, and the tree of named directories and files it stands for.
 */
module FileTreeSpec {
  import opened ByteStrings
  import opened PathNames

  const MAX_NODES := 512
  const PATH_MAX := 192

  /** Where a file's bytes lie: nowhere, in read-only memory, or in a heap block. */
  datatype Pointer = Null | Rom(bytes: seq<byte>) | Block(addr: nat)

  /** struct clks_fs_node; `owned` is the heap-data flag of its reserved field. */
  datatype Node = Node(used: bool, dir: bool, parent: nat, owned: bool, data: Pointer, size: nat, path: seq<byte>)

  const FREE_NODE := Node(false, false, 0, false, Null, 0, [])

  datatype Entry = Absent | Dir | File(bytes: seq<byte>)

  type Heap = map<nat, seq<byte>>

  /** No leading, trailing or doubled slash. */
  ghost predicate Tidy(p: seq<byte>) {
    p == [] ||
    (p[0] != SLASH && p[|p| - 1] != SLASH
      && forall k, l :: 0 <= k && l == k + 1 && l < |p| && p[k] == SLASH ==> p[l] != SLASH)
  }

  /** The place of the last slash, or -1. */
  function LastSlash(p: seq<byte>): (k: int)
    ensures -1 <= k < |p| && (k >= 0 ==> p[k] == SLASH) && forall j :: k < j < |p| ==> p[j] != SLASH
  {
    if p == [] then -1
    else if p[|p| - 1] == SLASH then |p| - 1
    else LastSlash(p[..|p| - 1])
  }

  /** clks_fs_split_parent: everything before the last slash. */
  function Parent(p: seq<byte>): seq<byte> {
    if LastSlash(p) < 0 then [] else p[..LastSlash(p)]
  }

  predicate IsAt(nodes: seq<Node>, i: int, p: seq<byte>) { 0 <= i < |nodes| && nodes[i].used && nodes[i].path == p }

  /** clks_fs_find_node_by_internal from place `i` on */
  function Find(nodes: seq<Node>, p: seq<byte>, i: nat): (found: int)
    requires i <= |nodes|
    ensures found == -1 || (i <= found && IsAt(nodes, found, p))
    ensures found == -1 ==> forall j :: i <= j < |nodes| ==> !IsAt(nodes, j, p)
    decreases |nodes| - i
  {
    if i == |nodes| then -1 else if IsAt(nodes, i, p) then i else Find(nodes, p, i + 1)
  }

  function Content(n: Node, heap: Heap): seq<byte> {
    match n.data
    case Null => []
    case Rom(bytes) => bytes
    case Block(addr) => if addr in heap then heap[addr] else []
  }

  /** What the tree has under the name `p`. */
  function Look(nodes: seq<Node>, heap: Heap, p: seq<byte>): Entry {
    var i := Find(nodes, p, 0);
    if i < 0 then Absent else EntryOf(nodes[i], heap)
  }

  function EntryOf(n: Node, heap: Heap): Entry { if n.dir then Dir else File(Content(n, heap)) }

  /** The tree differs at most under one name. */
  ghost predicate Wrote(nodes: seq<Node>, heap: Heap, nodes': seq<Node>, heap': Heap, path: seq<byte>, e: Entry) {
    forall p: seq<byte> :: Look(nodes', heap', p) == if p == path then e else Look(nodes, heap, p)
  }

  ghost predicate SameTree(nodes: seq<Node>, heap: Heap, nodes': seq<Node>, heap': Heap) {
    forall p: seq<byte> :: Look(nodes', heap', p) == Look(nodes, heap, p)
  }

  ghost predicate NodeOk(n: Node, heap: Heap) {
    if !n.used then !n.owned
    else
      && Tidy(n.path) && |n.path| < PATH_MAX
      && (n.dir ==> !n.owned)
      && (!n.dir ==> |Content(n, heap)| == n.size && n.data != Null)
      && (!n.dir ==> (n.owned <==> n.data.Block?) && (n.owned ==> n.data.addr in heap))
  }

  ghost predicate Parented(nodes: seq<Node>, n: Node) {
    n.used ==> IsAt(nodes, n.parent, Parent(n.path)) && nodes[n.parent].dir
  }

  ghost predicate NodesOk(nodes: seq<Node>, heap: Heap) { forall i :: 0 <= i < |nodes| ==> NodeOk(nodes[i], heap) }

  ghost predicate AllParented(nodes: seq<Node>) { forall i :: 0 <= i < |nodes| ==> Parented(nodes, nodes[i]) }

  ghost predicate Unique(nodes: seq<Node>) {
    forall i, j :: 0 <= i < j < |nodes| && nodes[i].used && nodes[j].used ==> nodes[i].path != nodes[j].path
  }

  predicate Owns(n: Node, addr: nat) { n.used && n.owned && n.data == Block(addr) }

  ghost predicate OneOwner(nodes: seq<Node>) {
    forall i, j :: 0 <= i < j < |nodes| && nodes[i].owned && nodes[j].owned ==> nodes[i].data != nodes[j].data
  }

  /**
   The node table between calls: slot 0 is the root, paths are unique, every node's parent index names the directory of
   its path's prefix, and every owned payload has one owner and its recorded size.
   */
  ghost predicate Valid(nodes: seq<Node>, count: nat, heap: Heap) {
    && |nodes| == MAX_NODES && 0 < count <= MAX_NODES && (forall i :: count <= i < |nodes| ==> !nodes[i].used)
    && nodes[0].used && nodes[0].dir && nodes[0].path == []
    && Unique(nodes) && AllParented(nodes) && NodesOk(nodes, heap) && OneOwner(nodes)
  }

  lemma FindIs(nodes: seq<Node>, p: seq<byte>, i: nat)
    requires Unique(nodes) && IsAt(nodes, i, p)
    ensures Find(nodes, p, 0) == i
  {
    var j := Find(nodes, p, 0);
    assert j >= 0 && IsAt(nodes, j, p);
  }

  // ---------- one node added, changed, removed ----------

  lemma FindAfterPut(nodes: seq<Node>, s: nat, n: Node, p: seq<byte>)
    requires s < |nodes| && n.used && Unique(nodes)
             && (forall j :: 0 <= j < |nodes| && j != s ==> !IsAt(nodes, j, n.path))
    requires nodes[s].used ==> nodes[s].path == n.path
    ensures Unique(nodes[s := n])
    ensures Find(nodes[s := n], p, 0) == if p == n.path then s else Find(nodes, p, 0)
  {
    var nodes' := nodes[s := n];
    assert Unique(nodes') by {
      forall i, j | 0 <= i < j < |nodes'| && nodes'[i].used && nodes'[j].used ensures nodes'[i].path != nodes'[j].path {
        assert i == s ==> !IsAt(nodes, j, n.path);
        assert j == s ==> !IsAt(nodes, i, n.path);
      }
    }
    if p == n.path {
      assert IsAt(nodes', s, p);
      FindIs(nodes', p, s);
    } else {
      var f := Find(nodes, p, 0);
      if f >= 0 {
        assert IsAt(nodes', f, p);
        FindIs(nodes', p, f);
      } else if Find(nodes', p, 0) >= 0 {
        assert IsAt(nodes, Find(nodes', p, 0), p);
        assert false;
      }
    }
  }

  lemma FindAfterRemove(nodes: seq<Node>, s: nat, p: seq<byte>)
    requires s < |nodes| && nodes[s].used && Unique(nodes)
    ensures Unique(nodes[s := FREE_NODE])
    ensures Find(nodes[s := FREE_NODE], p, 0) == if p == nodes[s].path then -1 else Find(nodes, p, 0)
  {
    var nodes' := nodes[s := FREE_NODE];
    var f := Find(nodes', p, 0);
    if p == nodes[s].path {
      if f >= 0 {
        assert IsAt(nodes, f, p) && IsAt(nodes, s, p) && f != s;
        assert false;
      }
    } else if Find(nodes, p, 0) >= 0 {
      assert IsAt(nodes', Find(nodes, p, 0), p);
      FindIs(nodes', p, Find(nodes, p, 0));
    } else if f >= 0 {
      assert IsAt(nodes, f, p);
      assert false;
    }
  }

  lemma ParentedAfterPut(nodes: seq<Node>, s: nat, n: Node)
    requires s < |nodes| && AllParented(nodes) && n.used
    requires nodes[s].used ==> nodes[s].path == n.path && (nodes[s].dir ==> n.dir)
    requires IsAt(nodes, n.parent, Parent(n.path)) && nodes[n.parent].dir
    ensures AllParented(nodes[s := n])
  {
    var nodes' := nodes[s := n];
    forall i | 0 <= i < |nodes'| ensures Parented(nodes', nodes'[i]) {
      if i != s {
        assert Parented(nodes, nodes[i]);
        StillAt(nodes, s, n, nodes[i]);
      } else {
        StillAt(nodes, s, n, n);
      }
    }
  }

  lemma StillAt(nodes: seq<Node>, s: nat, n: Node, child: Node)
    requires s < |nodes| && n.used && (nodes[s].used ==> nodes[s].path == n.path && (nodes[s].dir ==> n.dir))
    requires Parented(nodes, child)
    ensures Parented(nodes[s := n], child)
  {
    hide Parent;
  }

  lemma ParentedAfterRemove(nodes: seq<Node>, s: nat)
    requires s < |nodes| && AllParented(nodes)
    requires Childless(nodes, s)
    ensures AllParented(nodes[s := FREE_NODE])
  {
    var nodes' := nodes[s := FREE_NODE];
    forall i | 0 <= i < |nodes'| ensures Parented(nodes', nodes'[i]) {
      assert Parented(nodes, nodes[i]);
    }
  }

  lemma RestAfterPut(nodes: seq<Node>, s: nat, n: Node, heap: Heap)
    requires s < |nodes| && NodesOk(nodes, heap) && OneOwner(nodes) && NodeOk(n, heap)
    requires n.owned ==> forall i :: 0 <= i < |nodes| && i != s && nodes[i].owned ==> nodes[i].data != n.data
    ensures NodesOk(nodes[s := n], heap) && OneOwner(nodes[s := n])
  {
    hide NodeOk;
  }

  lemma LookAfterPut(nodes: seq<Node>, heap: Heap, s: nat, n: Node, p: seq<byte>)
    requires s < |nodes| && n.used && Unique(nodes)
             && (forall j :: 0 <= j < |nodes| && j != s ==> !IsAt(nodes, j, n.path))
    requires nodes[s].used ==> nodes[s].path == n.path
    ensures Look(nodes[s := n], heap, p) == if p == n.path then EntryOf(n, heap) else Look(nodes, heap, p)
  {
    FindAfterPut(nodes, s, n, p);
    var f := Find(nodes, p, 0);
    assert f >= 0 ==> IsAt(nodes, f, p);
    hide Find;
    hide Unique;
    hide Content;
    assert f == s ==> p == n.path;
  }

  lemma TreeAfterPut(nodes: seq<Node>, heap: Heap, s: nat, n: Node)
    requires s < |nodes| && n.used && Unique(nodes)
             && (forall j :: 0 <= j < |nodes| && j != s ==> !IsAt(nodes, j, n.path))
    requires nodes[s].used ==> nodes[s].path == n.path
    ensures Wrote(nodes, heap, nodes[s := n], heap, n.path, EntryOf(n, heap))
  {
    var nodes', path, e := nodes[s := n], n.path, EntryOf(n, heap);
    forall p: seq<byte> ensures Look(nodes', heap, p) == if p == path then e else Look(nodes, heap, p) {
      LookAfterPut(nodes, heap, s, n, p);
    }
    assert Wrote(nodes, heap, nodes', heap, path, e);
  }

  lemma TreeAfterRemove(nodes: seq<Node>, heap: Heap, s: nat)
    requires s < |nodes| && nodes[s].used && Unique(nodes)
    ensures Wrote(nodes, heap, nodes[s := FREE_NODE], heap, nodes[s].path, Absent)
  {
    forall p: seq<byte> {
      LookAfterRemove(nodes, heap, s, p);
    }
  }

  /** A node put into a slot that is free, or that already has its path, keeps the table in order. */
  lemma PutKeeps(nodes: seq<Node>, count: nat, heap: Heap, s: nat, n: Node)
    requires Valid(nodes, count, heap) && s < count && n.used
    requires forall j :: 0 <= j < |nodes| && j != s ==> !IsAt(nodes, j, n.path)
    requires nodes[s].used ==> nodes[s].path == n.path && (nodes[s].dir <==> n.dir)
    requires IsAt(nodes, n.parent, Parent(n.path)) && nodes[n.parent].dir && NodeOk(n, heap)
    requires n.owned ==> forall i :: 0 <= i < |nodes| && i != s && nodes[i].owned ==> nodes[i].data != n.data
    ensures Valid(nodes[s := n], count, heap)
    ensures Wrote(nodes, heap, nodes[s := n], heap, n.path, EntryOf(n, heap))
  {
    hide Unique;
    hide AllParented;
    hide NodesOk;
    hide NodeOk;
    hide OneOwner;
    hide Find;
    hide Look;
    RestAfterPut(nodes, s, n, heap);
    ParentedAfterPut(nodes, s, n);
    FindAfterPut(nodes, s, n, []);
    TreeAfterPut(nodes, heap, s, n);
  }

  /** No used node has the directory in slot `s` as its parent. */
  predicate Childless(nodes: seq<Node>, s: nat) {
    forall i :: 0 <= i < |nodes| && nodes[i].used ==> nodes[i].parent != s
  }

  lemma LookAfterRemove(nodes: seq<Node>, heap: Heap, s: nat, p: seq<byte>)
    requires s < |nodes| && nodes[s].used && Unique(nodes)
    ensures Look(nodes[s := FREE_NODE], heap, p) == if p == nodes[s].path then Absent else Look(nodes, heap, p)
  {
    FindAfterRemove(nodes, s, p);
    var f := Find(nodes, p, 0);
    assert f >= 0 ==> IsAt(nodes, f, p);
    hide Find;
    hide Unique;
    hide Content;
    assert f == s ==> p == nodes[s].path;
  }

  lemma FreeNodeOk(heap: Heap)
    ensures NodeOk(FREE_NODE, heap)
  {
  }

  lemma RemoveKeeps(nodes: seq<Node>, count: nat, heap: Heap, s: nat)
    requires Valid(nodes, count, heap) && 0 < s < count && nodes[s].used && Childless(nodes, s)
    ensures Valid(nodes[s := FREE_NODE], count, heap)
    ensures Wrote(nodes, heap, nodes[s := FREE_NODE], heap, nodes[s].path, Absent)
  {
    hide Unique;
    hide AllParented;
    hide NodesOk;
    hide NodeOk;
    hide OneOwner;
    hide Find;
    hide Look;
    hide Childless;
    FreeNodeOk(heap);
    RestAfterPut(nodes, s, FREE_NODE, heap);
    ParentedAfterRemove(nodes, s);
    FindAfterRemove(nodes, s, []);
    TreeAfterRemove(nodes, heap, s);
  }

  lemma NameOf(nodes: seq<Node>, heap: Heap, i: nat)
    requires Unique(nodes) && i < |nodes| && nodes[i].used
    ensures Look(nodes, heap, nodes[i].path) != Absent
  {
    FindIs(nodes, nodes[i].path, i);
  }

  lemma ChildOf(nodes: seq<Node>, heap: Heap, s: nat, p: seq<byte>)
    requires Unique(nodes) && AllParented(nodes) && s < |nodes| && nodes[s].used
    requires Parent(p) == nodes[s].path && Look(nodes, heap, p) != Absent
    ensures !Childless(nodes, s)
  {
    var i := Find(nodes, p, 0);
    assert Parented(nodes, nodes[i]);
    assert IsAt(nodes, s, nodes[s].path) && IsAt(nodes, nodes[i].parent, nodes[s].path);
    hide Find;
    hide AllParented;
    FindIs(nodes, nodes[s].path, s);
    FindIs(nodes, nodes[s].path, nodes[i].parent);
    hide Unique;
  }

  /** A slot has a child exactly if some name in the tree has the slot's path as its parent. */
  lemma ChildrenAreNames(nodes: seq<Node>, heap: Heap, s: nat)
    requires Unique(nodes) && AllParented(nodes) && s < |nodes| && nodes[s].used
    ensures Childless(nodes, s)
            <==> forall p: seq<byte> :: Parent(p) == nodes[s].path ==> Look(nodes, heap, p) == Absent
  {
    if !Childless(nodes, s) {
      var i :| 0 <= i < |nodes| && nodes[i].used && nodes[i].parent == s;
      assert Parented(nodes, nodes[i]);
      hide AllParented;
      NameOf(nodes, heap, i);
      assert Parent(nodes[i].path) == nodes[s].path;
    } else {
      hide Childless;
      hide Look;
      forall p: seq<byte> | Parent(p) == nodes[s].path ensures Look(nodes, heap, p) == Absent {
        if Look(nodes, heap, p) != Absent {
          ChildOf(nodes, heap, s, p);
        }
      }
    }
  }

  /** The tree is closed: the parent of every name in it is a directory in it. */
  lemma TreeClosed(nodes: seq<Node>, count: nat, heap: Heap, p: seq<byte>)
    requires Valid(nodes, count, heap) && Look(nodes, heap, p) != Absent
    ensures Look(nodes, heap, Parent(p)) == Dir && Look(nodes, heap, []) == Dir
  {
    var i := Find(nodes, p, 0);
    assert Parented(nodes, nodes[i]);
    FindIs(nodes, Parent(p), nodes[i].parent);
    FindIs(nodes, [], 0);
  }

  // ---------- the heap ----------

  predicate OwnedBy(nodes: seq<Node>, addr: nat) {
    exists i :: 0 <= i < |nodes| && Owns(nodes[i], addr)
  }

  /** Outside the payloads the nodes own, nothing of the heap changed: no block leaked, none was freed or written. */
  ghost predicate OthersKept(nodes: seq<Node>, heap: Heap, nodes': seq<Node>, heap': Heap) {
    forall addr: nat :: (addr in heap && !OwnedBy(nodes, addr) <==> addr in heap' && !OwnedBy(nodes', addr))
                        && (addr in heap && !OwnedBy(nodes, addr) ==> heap'[addr] == heap[addr])
  }

  lemma OthersKeptTwice(nodes: seq<Node>, heap: Heap, nodes1: seq<Node>, heap1: Heap, nodes2: seq<Node>, heap2: Heap)
    requires OthersKept(nodes, heap, nodes1, heap1) && OthersKept(nodes1, heap1, nodes2, heap2)
    ensures OthersKept(nodes, heap, nodes2, heap2)
  {
  }

  /** `heap'` still has every block the nodes own. */
  ghost predicate OwnedKept(nodes: seq<Node>, heap: Heap, heap': Heap) {
    forall i :: 0 <= i < |nodes| && nodes[i].used && nodes[i].owned && nodes[i].data.Block? ==>
      nodes[i].data.addr in heap ==>
        nodes[i].data.addr in heap' && heap'[nodes[i].data.addr] == heap[nodes[i].data.addr]
  }

  lemma NodeElsewhere(nodes: seq<Node>, heap: Heap, heap': Heap, i: nat)
    requires i < |nodes| && NodeOk(nodes[i], heap) && OwnedKept(nodes, heap, heap')
    ensures NodeOk(nodes[i], heap')
            && (nodes[i].used && !nodes[i].dir ==> Content(nodes[i], heap') == Content(nodes[i], heap))
  {
    hide Tidy;
  }

  /** Blocks no node owns can come and go without any node noticing. */
  lemma HeapElsewhere(nodes: seq<Node>, count: nat, heap: Heap, heap': Heap)
    requires Valid(nodes, count, heap) && OwnedKept(nodes, heap, heap')
    ensures Valid(nodes, count, heap') && SameTree(nodes, heap, nodes, heap')
  {
    hide Unique;
    hide AllParented;
    hide NodeOk;
    hide OneOwner;
    hide OwnedKept;
    hide Content;
    forall i | 0 <= i < |nodes|
      ensures NodeOk(nodes[i], heap')
              && (nodes[i].used && !nodes[i].dir ==> Content(nodes[i], heap') == Content(nodes[i], heap))
    {
      NodeElsewhere(nodes, heap, heap', i);
    }
    forall p: seq<byte> ensures Look(nodes, heap', p) == Look(nodes, heap, p) {
      assert Find(nodes, p, 0) >= 0 ==> IsAt(nodes, Find(nodes, p, 0), p);
    }
  }

  /** The heap once a file's payload is there and the one it replaces is gone. */
  function Exchanged(heap: Heap, was: Node, n: Node, bytes: seq<byte>): Heap {
    var added := if n.owned && n.data.Block? then heap[n.data.addr := bytes] else heap;
    if was.owned && was.data.Block? then added - {was.data.addr} else added
  }

  /** A file node with these bytes, in a heap block of its own if there are any. */
  predicate Holds(n: Node, heap: Heap, bytes: seq<byte>) {
    && n.used && !n.dir && n.size == |bytes|
    && (if bytes == [] then n.data == Rom([]) && !n.owned else n.data.Block? && n.owned && n.data.addr !in heap)
  }

  lemma WroteTwice(nodes: seq<Node>, heap: Heap, nodes1: seq<Node>, heap1: Heap, nodes2: seq<Node>, heap2: Heap,
                   nodes3: seq<Node>, heap3: Heap, path: seq<byte>, e: Entry, e': Entry)
    requires Wrote(nodes, heap, nodes1, heap1, path, e) && SameTree(nodes1, heap1, nodes2, heap2)
    requires Wrote(nodes2, heap2, nodes3, heap3, path, e')
    ensures Wrote(nodes, heap, nodes3, heap3, path, e')
  {
    hide Look;
    forall p: seq<byte> ensures Look(nodes3, heap3, p) == if p == path then e' else Look(nodes, heap, p) {
      assert Look(nodes2, heap2, p) == Look(nodes1, heap1, p);
    }
  }

  lemma FileWritten(nodes: seq<Node>, count: nat, heap: Heap, s: nat, n: Node, bytes: seq<byte>)
    requires Valid(nodes, count, heap) && s < count && Holds(n, heap, bytes) && Tidy(n.path) && |n.path| < PATH_MAX
    requires forall j :: 0 <= j < |nodes| && j != s ==> !IsAt(nodes, j, n.path)
    requires nodes[s].used ==> nodes[s].path == n.path && !nodes[s].dir
    requires IsAt(nodes, n.parent, Parent(n.path)) && nodes[n.parent].dir
    ensures var heap' := Exchanged(heap, nodes[s], n, bytes);
      && Valid(nodes[s := n], count, heap') && OthersKept(nodes, heap, nodes[s := n], heap')
      && Wrote(nodes, heap, nodes[s := n], heap', n.path, File(bytes))
  {
    hide Valid;
    hide Holds;
    hide Tidy;
    hide Exchanged;
    hide OthersKept;
    hide OwnedKept;
    hide OwnersDiffer;
    hide Wrote;
    hide SameTree;
    hide NodeOk;
    hide Content;
    hide Parent;
    hide IsAt;
    Sizes(nodes, count, heap);
    var nodes1, heap' := nodes[s := Bare(n)], Exchanged(heap, nodes[s], n, bytes);
    PayloadOk(nodes, count, heap, s, n, bytes);
    OwnedElsewhere(nodes, count, heap, s, n, bytes);
    ExchangeKeepsOthers(nodes, count, heap, s, n, bytes);
    FileHeld(n, heap, bytes);
    assert FitsAt(nodes, s, n);
    hide FitsAt;
    FitsAfterBare(nodes, s, n);
    PutFile(nodes, count, heap, s, Bare(n));
    HeapElsewhere(nodes1, count, heap, heap');
    PutFile(nodes1, count, heap', s, n);
    PutTwice(nodes, s, Bare(n), n);
    EntryIs(n, heap');
    WroteTwice(nodes, heap, nodes1, heap, nodes1, heap', nodes[s := n], heap', n.path,
               EntryOf(Bare(n), heap), File(bytes));
  }

  lemma Sizes(nodes: seq<Node>, count: nat, heap: Heap)
    requires Valid(nodes, count, heap)
    ensures count <= |nodes| == MAX_NODES
  {
  }

  lemma FileHeld(n: Node, heap: Heap, bytes: seq<byte>)
    requires Holds(n, heap, bytes)
    ensures n.used && !n.dir
  {
  }

  lemma PutTwice(nodes: seq<Node>, s: nat, m: Node, n: Node)
    requires s < |nodes|
    ensures nodes[s := m][s := n] == nodes[s := n]
  {
  }

  lemma EntryIs(n: Node, heap: Heap)
    requires !n.dir
    ensures EntryOf(n, heap) == File(Content(n, heap))
  {
  }

  /** The slot is the one of the node's path or free, and the node's parent is there. */
  ghost predicate FitsAt(nodes: seq<Node>, s: nat, n: Node) {
    && s < |nodes|
    && (forall j :: 0 <= j < |nodes| && j != s ==> !IsAt(nodes, j, n.path))
    && (nodes[s].used ==> nodes[s].path == n.path && !nodes[s].dir)
    && IsAt(nodes, n.parent, Parent(n.path)) && nodes[n.parent].dir
  }

  /** The node before its payload is attached. */
  function Bare(n: Node): Node { n.(owned := false, data := Rom([]), size := 0) }

  ghost predicate OwnersDiffer(nodes: seq<Node>, s: nat, n: Node) {
    n.owned ==> forall i :: 0 <= i < |nodes| && i != s && nodes[i].owned ==> nodes[i].data != n.data
  }

  lemma PutFile(nodes: seq<Node>, count: nat, heap: Heap, s: nat, n: Node)
    requires Valid(nodes, count, heap) && s < count <= |nodes| && n.used && !n.dir && NodeOk(n, heap)
    requires OwnersDiffer(nodes, s, n) && FitsAt(nodes, s, n)
    ensures Valid(nodes[s := n], count, heap)
    ensures Wrote(nodes, heap, nodes[s := n], heap, n.path, EntryOf(n, heap))
  {
    hide Valid;
    hide NodeOk;
    hide Look;
    hide Parent;
    hide Content;
    hide Wrote;
    PutKeeps(nodes, count, heap, s, n);
  }

  lemma FitsAfterBare(nodes: seq<Node>, s: nat, n: Node)
    requires FitsAt(nodes, s, n) && !n.dir && n.used
    ensures FitsAt(nodes, s, Bare(n)) && FitsAt(nodes[s := Bare(n)], s, n)
  {
    hide Parent;
    var nodes1 := nodes[s := Bare(n)];
    forall j | 0 <= j < |nodes| && j != s ensures !IsAt(nodes1, j, n.path) {
      assert !IsAt(nodes, j, n.path);
    }
  }

  /** Two owners hold different live blocks. */
  lemma OwnerApart(nodes: seq<Node>, count: nat, heap: Heap, s: nat, i: nat)
    requires Valid(nodes, count, heap) && s < |nodes| && i < |nodes| && nodes[i].owned
    ensures nodes[i].used && nodes[i].data.Block? && nodes[i].data.addr in heap
    ensures i != s && nodes[s].owned ==> nodes[i].data != nodes[s].data
  {
    hide Unique;
    hide AllParented;
    hide Tidy;
    assert NodeOk(nodes[i], heap);
    hide NodesOk;
    if i != s && nodes[s].owned {
      var a, b := if i < s then i else s, if i < s then s else i;
      assert nodes[a].data != nodes[b].data;
    }
  }

  lemma PayloadOk(nodes: seq<Node>, count: nat, heap: Heap, s: nat, n: Node, bytes: seq<byte>)
    requires Valid(nodes, count, heap) && s < |nodes| && Holds(n, heap, bytes) && Tidy(n.path) && |n.path| < PATH_MAX
    ensures var heap' := Exchanged(heap, nodes[s], n, bytes);
      NodeOk(Bare(n), heap) && NodeOk(n, heap') && Content(n, heap') == bytes
  {
    hide Valid;
    hide Tidy;
    if nodes[s].owned {
      OwnerApart(nodes, count, heap, s, s);
    }
  }

  lemma OwnedElsewhere(nodes: seq<Node>, count: nat, heap: Heap, s: nat, n: Node, bytes: seq<byte>)
    requires Valid(nodes, count, heap) && s < |nodes| && Holds(n, heap, bytes)
    ensures OwnedKept(nodes[s := Bare(n)], heap, Exchanged(heap, nodes[s], n, bytes))
    ensures OwnersDiffer(nodes[s := Bare(n)], s, n) && OwnersDiffer(nodes, s, Bare(n))
  {
    hide Valid;
    forall i | 0 <= i < |nodes| && nodes[i].owned
      ensures nodes[i].data.Block? && nodes[i].data.addr in heap
              && (i != s && nodes[s].owned ==> nodes[i].data != nodes[s].data)
    {
      OwnerApart(nodes, count, heap, s, i);
    }
  }

  lemma ExchangeKeepsOthers(nodes: seq<Node>, count: nat, heap: Heap, s: nat, n: Node, bytes: seq<byte>)
    requires Valid(nodes, count, heap) && s < |nodes| && Holds(n, heap, bytes)
    ensures OthersKept(nodes, heap, nodes[s := n], Exchanged(heap, nodes[s], n, bytes))
  {
    var nodes', heap' := nodes[s := n], Exchanged(heap, nodes[s], n, bytes);
    forall addr: nat {
      ExchangedAt(nodes, count, heap, s, n, bytes, addr);
    }
  }

  lemma ExchangedAt(nodes: seq<Node>, count: nat, heap: Heap, s: nat, n: Node, bytes: seq<byte>, addr: nat)
    requires Valid(nodes, count, heap) && s < |nodes| && Holds(n, heap, bytes)
    ensures var nodes', heap' := nodes[s := n], Exchanged(heap, nodes[s], n, bytes);
      && (addr in heap && !OwnedBy(nodes, addr) <==> addr in heap' && !OwnedBy(nodes', addr))
      && (addr in heap && !OwnedBy(nodes, addr) ==> heap'[addr] == heap[addr])
  {
    hide Valid;
    if nodes[s].owned {
      OwnerApart(nodes, count, heap, s, s);
    }
    if OwnedBy(nodes, addr) {
      var i :| 0 <= i < |nodes| && Owns(nodes[i], addr);
      OwnerApart(nodes, count, heap, s, i);
    }
    OwnersAfter(nodes, s, n, addr);
    hide OwnedBy;
  }

  lemma OwnersAfter(nodes: seq<Node>, s: nat, n: Node, addr: nat)
    requires s < |nodes|
    ensures OwnedBy(nodes, addr) && !Owns(nodes[s], addr) ==> OwnedBy(nodes[s := n], addr)
    ensures OwnedBy(nodes[s := n], addr) ==> Owns(n, addr) || OwnedBy(nodes, addr)
    ensures Owns(n, addr) ==> OwnedBy(nodes[s := n], addr)
    ensures Owns(nodes[s], addr) ==> OwnedBy(nodes, addr)
  {
    if Owns(n, addr) {
      assert Owns(nodes[s := n][s], addr);
    }
    if OwnedBy(nodes, addr) && !Owns(nodes[s], addr) {
      var i :| 0 <= i < |nodes| && Owns(nodes[i], addr);
      assert Owns(nodes[s := n][i], addr);
    }
    if OwnedBy(nodes[s := n], addr) && !Owns(n, addr) {
      var i :| 0 <= i < |nodes| && Owns(nodes[s := n][i], addr);
      assert Owns(nodes[i], addr);
    }
  }

  lemma PlainPutKeepsOthers(nodes: seq<Node>, heap: Heap, s: nat, n: Node)
    requires s < |nodes| && !n.owned && !nodes[s].owned
    ensures OthersKept(nodes, heap, nodes[s := n], heap)
  {
    forall addr: nat {
      OwnersAfter(nodes, s, n, addr);
    }
  }

  /** Removing the owner of a payload frees exactly that payload. */
  lemma Removed(nodes: seq<Node>, count: nat, heap: Heap, s: nat, heap': Heap)
    requires Valid(nodes, count, heap) && 0 < s < count <= |nodes| && nodes[s].used && Childless(nodes, s)
    requires heap' == if nodes[s].owned && nodes[s].data.Block? then heap - {nodes[s].data.addr} else heap
    ensures Valid(nodes[s := FREE_NODE], count, heap') && OthersKept(nodes, heap, nodes[s := FREE_NODE], heap')
    ensures Wrote(nodes, heap, nodes[s := FREE_NODE], heap', nodes[s].path, Absent)
  {
    var nodes' := nodes[s := FREE_NODE];
    RemoveKeeps(nodes, count, heap, s);
    RemovedHeap(nodes, count, heap, s, heap');
    hide Valid;
    hide OwnedKept;
    hide OthersKept;
    HeapElsewhere(nodes', count, heap, heap');
    hide Wrote;
    hide SameTree;
    WroteThenSame(nodes, heap, nodes', heap, nodes', heap', nodes[s].path, Absent);
  }

  lemma WroteThenSame(nodes: seq<Node>, heap: Heap, nodes1: seq<Node>, heap1: Heap, nodes2: seq<Node>, heap2: Heap,
                      path: seq<byte>, e: Entry)
    requires Wrote(nodes, heap, nodes1, heap1, path, e) && SameTree(nodes1, heap1, nodes2, heap2)
    ensures Wrote(nodes, heap, nodes2, heap2, path, e)
  {
  }

  lemma RemovedHeap(nodes: seq<Node>, count: nat, heap: Heap, s: nat, heap': Heap)
    requires Valid(nodes, count, heap) && s < |nodes|
    requires heap' == if nodes[s].owned && nodes[s].data.Block? then heap - {nodes[s].data.addr} else heap
    ensures OwnedKept(nodes[s := FREE_NODE], heap, heap') && OthersKept(nodes, heap, nodes[s := FREE_NODE], heap')
  {
    hide Valid;
    forall i | 0 <= i < |nodes| && nodes[i].owned
      ensures nodes[i].data.Block? && nodes[i].data.addr in heap
              && (i != s && nodes[s].owned ==> nodes[i].data != nodes[s].data)
    {
      OwnerApart(nodes, count, heap, s, i);
    }
    forall addr: nat {
      RemovedAt(nodes, count, heap, s, heap', addr);
    }
  }

  lemma RemovedAt(nodes: seq<Node>, count: nat, heap: Heap, s: nat, heap': Heap, addr: nat)
    requires Valid(nodes, count, heap) && s < |nodes|
    requires heap' == if nodes[s].owned && nodes[s].data.Block? then heap - {nodes[s].data.addr} else heap
    ensures var nodes' := nodes[s := FREE_NODE];
      && (addr in heap && !OwnedBy(nodes, addr) <==> addr in heap' && !OwnedBy(nodes', addr))
      && (addr in heap && !OwnedBy(nodes, addr) ==> heap'[addr] == heap[addr])
  {
    hide Valid;
    if nodes[s].owned {
      OwnerApart(nodes, count, heap, s, s);
    }
    if OwnedBy(nodes, addr) {
      var i :| 0 <= i < |nodes| && Owns(nodes[i], addr);
      OwnerApart(nodes, count, heap, s, i);
    }
    OwnersAfter(nodes, s, FREE_NODE, addr);
    hide OwnedBy;
  }

  // ---------- directories on the way ----------

  /** Nothing changed but that missing directories were made at `d` or on the way to it. */
  ghost predicate DirsAdded(nodes: seq<Node>, heap: Heap, nodes': seq<Node>, heap': Heap, d: seq<byte>) {
    forall p: seq<byte> :: Look(nodes', heap', p) == Look(nodes, heap, p)
                           || (Look(nodes, heap, p) == Absent && Look(nodes', heap', p) == Dir && p != []
                             && AtOrUnder(d, p))
  }

  lemma DirsAddedStep(nodes: seq<Node>, heap: Heap, nodes1: seq<Node>, heap1: Heap, nodes2: seq<Node>, heap2: Heap,
                      d: seq<byte>, p: seq<byte>)
    requires DirsAdded(nodes, heap, nodes1, heap1, d) && p != [] && AtOrUnder(d, p)
    requires SameTree(nodes1, heap1, nodes2, heap2)
             || (Look(nodes1, heap1, p) == Absent && Wrote(nodes1, heap1, nodes2, heap2, p, Dir))
    ensures DirsAdded(nodes, heap, nodes2, heap2, d)
  {
  }

  /** One component more keeps a path tidy, and its parent is the path before. */
  lemma TidyExtend(a: seq<byte>, c: seq<byte>)
    requires Tidy(a) && c != [] && SLASH !in c
    ensures var p := if a == [] then c else a + [SLASH] + c; Tidy(p) && Parent(p) == a
  {
    var p := if a == [] then c else a + [SLASH] + c;
    var k := if a == [] then -1 else |a|;
    assert forall j :: k < j < |p| ==> p[j] == c[j - k - 1];
    LastSlashIs(p, k);
  }

  lemma LastSlashIs(p: seq<byte>, k: int)
    requires -1 <= k < |p| && (k >= 0 ==> p[k] == SLASH) && forall j :: k < j < |p| ==> p[j] != SLASH
    ensures LastSlash(p) == k
  {
    var l := LastSlash(p);
    assert !(l < k) && !(k < l);
  }

  /** A normal path is tidy. */
  lemma {:induction false} JoinTidy(cs: seq<seq<byte>>)
    requires forall c :: c in cs ==> Good(c)
    ensures Tidy(Join(cs)) && (cs != [] ==> Join(cs) != [] && Parent(Join(cs)) == Join(cs[..|cs| - 1]))
    decreases |cs|
  {
    if cs != [] {
      var last, front := cs[|cs| - 1], cs[..|cs| - 1];
      assert Good(last);
      JoinTidy(front);
      TidyExtend(Join(front), last);
    }
  }
}
