/** The in-memory file system: a table of 512 nodes changed in place, with file payloads in the kernel heap. */
module FileTree {
  import opened ByteStrings
  import opened PathNames
  import opened PathNormalize
  import opened FileTreeSpec
  import opened FileTreeRoom

  /** What a caller hands in: a null pointer with a size, or bytes. */
  datatype Source = Missing(size: nat) | Given(bytes: seq<byte>)

  /** What clks_kmalloc answers: null, or a block. */
  datatype Allocation = NoMemory | Memory(addr: nat)

  /** The paths inside the disk's mount, and those that the disk has as directories. */
  datatype Disk = Disk(mounted: set<seq<byte>>, dirs: set<seq<byte>>)

  datatype Read = NoFile | Contents(bytes: seq<byte>)

  const TWO_TO_THE_64 := 0x1_0000_0000_0000_0000
  const PROC: seq<byte> := [112, 114, 111, 99]
  const DEV_FILES: seq<seq<byte>> := [
    [100, 101, 118, 47, 102, 98, 48], [100, 101, 118, 47, 110, 101, 116, 48],
    [100, 101, 118, 47, 100, 105, 115, 107, 48], [100, 101, 118, 47, 116, 116, 121, 48],
    [100, 101, 118, 47, 105, 110, 112, 117, 116, 47, 107, 98, 100],
    [100, 101, 118, 47, 105, 110, 112, 117, 116, 47, 109, 111, 117, 115, 101]
  ]

  /** "/dev" and "/dev/input", which are directories without a node. */
  const DEV_DIRS: seq<seq<byte>> := [
    [47, 100, 101, 118], [47, 100, 101, 118, 47, 105, 110, 112, 117, 116]
  ]

  /** clks_fs_internal_writable_node_path: not the root, not in the proc tree, not a device file. */
  predicate Writable(p: seq<byte>) { p != [] && !AtOrUnder(p, PROC) && p !in DEV_FILES }

  /** The path is absolute, without "..", and its normal form fits a node. */
  predicate Named(path: seq<byte>) { Accepts(path, true, PATH_MAX, false) }

  function Name(path: seq<byte>): seq<byte> { Normal(path, false) }

  /** The node cannot be had: its path is too long, names a node of the other kind, or the table is full. */
  ghost predicate Refused(nodes: seq<Node>, path: seq<byte>, dir: bool) {
    || |path| >= PATH_MAX
    || (var f := Find(nodes, path, 0); if f >= 0 then nodes[f].dir != dir else Full(nodes))
  }

  /** The node in `slot` was updated if the path had one, and otherwise made in a free slot. */
  ghost predicate Put(was: seq<Node>, now: seq<Node>, slot: int, path: seq<byte>, dir: bool, parent: nat,
                      data: Pointer, size: nat) {
    var f := Find(was, path, 0);
    && 0 <= slot < |was| && |path| < PATH_MAX
    && (if f >= 0 then
          && slot == f && was[f].dir == dir
          && now == was[f := if dir then was[f].(parent := parent)
                             else was[f].(parent := parent, data := data, size := size, owned := false)]
        else
          && !was[slot].used
          && now == was[slot := Node(true, dir, parent, false,
                                     if dir then Null else data, if dir then 0 else size, path)])
  }

  class Fs {
    const nodes: array<Node>
    var count: nat
    var ready: bool
    var heap: Heap

    ghost function At(p: seq<byte>): Entry
      reads this, nodes
      requires nodes.Length == MAX_NODES
    {
      Look(nodes[..], heap, p)
    }

    /** clks_fs_init up to the root node; other parts of the kernel may hold `blocks` by then. */
    constructor (blocks: Heap)
      ensures Valid(nodes[..], count, heap) && fresh(nodes) && !ready && heap == blocks && NoneOwned(nodes[..])
      ensures forall p: seq<byte> :: At(p) == if p == [] then Dir else Absent
    {
      nodes := new Node[MAX_NODES](_ => FREE_NODE);
      count, ready, heap := 1, false, blocks;
      new;
      nodes[0] := FREE_NODE.(used := true, dir := true);
      assert forall i :: 0 < i < |nodes[..]| ==> nodes[..][i] == FREE_NODE;
      hide *;
      RootAlone(nodes[..], heap);
    }

    /** clks_fs_find_node_by_internal */
    method FindNode(p: seq<byte>) returns (found: int)
      requires nodes.Length == MAX_NODES && count <= MAX_NODES
               && forall i :: count <= i < nodes.Length ==> !nodes[i].used
      ensures found == Find(nodes[..], p, 0)
    {
      for i := 0 to count
        invariant Find(nodes[..], p, 0) == Find(nodes[..], p, i)
      {
        if nodes[i].used && nodes[i].path == p {
          return i;
        }
      }
      assert Find(nodes[..], p, count) < count;
      return -1;
    }

    /** clks_fs_alloc_slot */
    method AllocSlot() returns (slot: int)
      requires nodes.Length == MAX_NODES && count <= MAX_NODES
               && forall i :: count <= i < nodes.Length ==> !nodes[i].used
      modifies this`count
      ensures old(count) <= count <= MAX_NODES && forall i :: count <= i < nodes.Length ==> !nodes[i].used
      ensures if slot == -1
              then forall i :: 0 <= i < nodes.Length ==> nodes[i].used else 0 <= slot < count && !nodes[slot].used
    {
      for i := 0 to count
        invariant forall j :: 0 <= j < i ==> nodes[j].used
      {
        if !nodes[i].used {
          return i;
        }
      }
      if count >= MAX_NODES {
        return -1;
      }
      count := count + 1;
      return count - 1;
    }

    /** clks_fs_split_parent: scans for the last slash from the end. */
    method SplitParent(p: seq<byte>) returns (parent: seq<byte>)
      ensures parent == Parent(p)
    {
      var i := |p|;
      while i != 0
        invariant 0 <= i <= |p| && forall j :: i <= j < |p| ==> p[j] != SLASH
      {
        if p[i - 1] == SLASH {
          LastSlashIs(p, i - 1);
          return p[..i - 1];
        }
        i := i - 1;
      }
      LastSlashIs(p, -1);
      return [];
    }

    /** clks_fs_create_or_update_node */
    method CreateOrUpdate(path: seq<byte>, dir: bool, parent: nat, data: Pointer, size: nat) returns (slot: int)
      requires nodes.Length == MAX_NODES && count <= MAX_NODES
               && forall i :: count <= i < nodes.Length ==> !nodes[i].used
      modifies this`count, nodes
      ensures old(count) <= count <= MAX_NODES && forall i :: count <= i < nodes.Length ==> !nodes[i].used
      ensures if slot == -1 then nodes[..] == old(nodes[..]) && Refused(nodes[..], path, dir)
              else 0 <= slot < count && Put(old(nodes[..]), nodes[..], slot, path, dir, parent, data, size)
    {
      if |path| >= PATH_MAX {
        return -1;
      }
      var existing := FindNode(path);
      if existing >= 0 {
        if nodes[existing].dir != dir {
          return -1;
        }
        nodes[existing] := nodes[existing].(parent := parent);
        if !dir {
          nodes[existing] := nodes[existing].(data := data, size := size, owned := false);
        }
        return existing;
      }
      slot := AllocSlot();
      if slot < 0 {
        return -1;
      }
      nodes[slot] := Node(true, dir, parent, false, if dir then Null else data, if dir then 0 else size, path);
    }

    /** One turn of clks_fs_ensure_dir_hierarchy: the directory at `prefix` is found or made. */
    method MakeDir(prefix: seq<byte>, parent: nat) returns (index: int)
      requires Valid(nodes[..], count, heap) && prefix != [] && Tidy(prefix) && |prefix| < PATH_MAX
      requires IsAt(nodes[..], parent, Parent(prefix)) && nodes[parent].dir
      modifies this`count, nodes
      ensures Valid(nodes[..], count, heap) && OthersKept(old(nodes[..]), heap, nodes[..], heap)
      ensures if index >= 0 then IsAt(nodes[..], index, prefix) && nodes[index].dir
              else nodes[..] == old(nodes[..]) && Refused(nodes[..], prefix, true)
      ensures NoneOwned(old(nodes[..])) ==> NoneOwned(nodes[..])
      ensures SameTree(old(nodes[..]), heap, nodes[..], heap) ||
              (Look(old(nodes[..]), heap, prefix) == Absent
                && Wrote(old(nodes[..]), heap, nodes[..], heap, prefix, Dir))
    {
      hide NoneOwned;
      index := FindNode(prefix);
      if index >= 0 {
        if !nodes[index].dir {
          index := -1;
        }
        return;
      }
      ghost var was := nodes[..];
      index := CreateOrUpdate(prefix, true, parent, Null, 0);
      if index >= 0 {
        DirMade(was, count, heap, index, prefix, parent);
        DirNotOwned(was, nodes[..], index, prefix, parent);
      }
    }

    /** clks_fs_ensure_dir_hierarchy */
    method EnsureDirs(d: seq<byte>) returns (ok: bool)
      requires Valid(nodes[..], count, heap)
      modifies this`count, nodes
      ensures Valid(nodes[..], count, heap) && OthersKept(old(nodes[..]), heap, nodes[..], heap)
      ensures DirsAdded(old(nodes[..]), heap, nodes[..], heap, d)
      ensures NoneOwned(old(nodes[..])) ==> NoneOwned(nodes[..])
      ensures ok && Tidy(d) ==> Look(nodes[..], heap, d) == Dir
      ensures Tidy(d) && |d| < PATH_MAX ==> (ok <==> CanMake(old(nodes[..]), heap, d))
    {
      hide Valid;
      hide OthersKept;
      hide DirsAdded;
      hide SameTree;
      hide Tidy;
      hide Look;
      hide CanMake;
      hide Blocked;
      ghost var was := nodes[..];
      RootThere(was, count, heap);
      NothingAdded(was, heap, d);
      Unchanged(was, heap);
      if |d| == 0 {
        DirsMade(was, heap, was, count, d);
        return true;
      }
      var parent, prefix;
      parent, prefix, ok := WalkDirs(d);
      if ok {
        LookDir(nodes[..], count, heap, parent, prefix);
        if prefix == d {
          DirsMade(was, heap, nodes[..], count, d);
        }
      } else if Blocked(nodes[..], heap, d) {
        DirsStopped(was, heap, nodes[..], count, d);
      }
    }

    /** The loop of clks_fs_ensure_dir_hierarchy. */
    method WalkDirs(d: seq<byte>) returns (parent: int, prefix: seq<byte>, ok: bool)
      requires Valid(nodes[..], count, heap) && d != []
      modifies this`count, nodes
      ensures Valid(nodes[..], count, heap) && OthersKept(old(nodes[..]), heap, nodes[..], heap)
              && DirsAdded(old(nodes[..]), heap, nodes[..], heap, d)
      ensures NoneOwned(old(nodes[..])) ==> NoneOwned(nodes[..])
      ensures ok ==> 0 <= parent && IsAt(nodes[..], parent, prefix) && nodes[parent].dir && (Tidy(d) ==> prefix == d)
      ensures !ok && Tidy(d) && |d| < PATH_MAX ==> Blocked(nodes[..], heap, d)
    {
      hide Valid;
      hide OthersKept;
      hide DirsAdded;
      hide SameTree;
      hide Wrote;
      hide Tidy;
      hide Look;
      hide Parent;
      hide AtOrUnder;
      hide Refused;
      hide Blocked;
      hide NoneOwned;
      var i := 0;
      parent, prefix, ok := 0, [], false;
      Unchanged(nodes[..], heap);
      NothingAdded(nodes[..], heap, d);
      WalkBegins(nodes[..], count, heap, d);
      hide Reached;
      while i < |d|
        invariant i <= |d| && Valid(nodes[..], count, heap) && OthersKept(old(nodes[..]), heap, nodes[..], heap)
        invariant DirsAdded(old(nodes[..]), heap, nodes[..], heap, d)
        invariant NoneOwned(old(nodes[..])) ==> NoneOwned(nodes[..])
        invariant Reached(d, i, prefix) && 0 <= parent && IsAt(nodes[..], parent, prefix) && nodes[parent].dir
        decreases |d| - i
      {
        var fits, next;
        fits, next, i := NextDir(d, i, prefix);
        if !fits {
          return;
        }
        ghost var was := nodes[..];
        var index := MakeDir(next, parent);
        DirsAddedStep(old(nodes[..]), heap, was, heap, nodes[..], heap, d, next);
        OthersKeptTwice(old(nodes[..]), heap, was, heap, nodes[..], heap);
        if index < 0 {
          RefusedBlocks(nodes[..], heap, next, d);
          return;
        }
        parent, prefix := index, next;
      }
      assert i == |d|;
      WalkEnds(d, prefix);
      ok := true;
    }

    /** Takes the next component of `d` behind the prefix, if it is not empty and fits. */
    method NextDir(d: seq<byte>, start: nat, prefix: seq<byte>) returns (ok: bool, next: seq<byte>, i: nat)
      requires Reached(d, start, prefix) && start < |d|
      ensures i <= |d|
      ensures ok ==> start < i <= |d| && Reached(d, i, next) && next != [] && Tidy(next) && Parent(next) == prefix
      ensures ok ==> AtOrUnder(d, next)
      ensures ok ==> |next| < PATH_MAX
      ensures Tidy(d) && |d| < PATH_MAX ==> ok
    {
      ok, next, i := false, prefix, start;
      while i < |d| && d[i] != SLASH
        invariant start <= i <= |d| && forall k :: start <= k < i ==> d[k] != SLASH
      {
        i := i + 1;
      }
      if i == start {
        return;
      }
      NextPrefix(d, start, i, prefix);
      if |next| != 0 {
        if |next| + 1 >= PATH_MAX {
          return;
        }
        next := next + [SLASH];
      }
      if |next| + (i - start) >= PATH_MAX {
        return;
      }
      next := next + d[start..i];
      ok := true;
      if i < |d| {
        i := i + 1;
      }
    }

    /** clks_fs_normalize_external_path */
    method NormalizeExternal(path: seq<byte>) returns (ok: bool, name: seq<byte>)
      requires NoNul(path)
      ensures ok <==> Named(path)
      ensures ok ==> name == Name(path) && Tidy(name) && |name| < PATH_MAX
    {
      var out := new byte[PATH_MAX];
      ok := Normalize(path, true, out, false);
      name := [];
      if ok {
        ghost var normal := Name(path);
        PiecesGood(path);
        JoinTidy(Components(path));
        assert normal == Join(Components(path));
        NameTerminated(path);
        hide Join;
        hide Components;
        hide Tidy;
        name := ReadString(out, normal);
      }
    }

    /** The string in the buffer. */
    method ReadString(buffer: array<byte>, ghost text: seq<byte>) returns (s: seq<byte>)
      requires |text| < buffer.Length && buffer[..|text|] == text && buffer[|text|] == 0 && NoNul(text)
      ensures s == text
    {
      assert forall k :: 0 <= k < |text| ==> buffer[k] == buffer[..|text|][k] == text[k] != 0;
      var len := 0;
      while buffer[len] != 0
        invariant len <= |text|
        decreases |text| - len
      {
        len := len + 1;
      }
      s := buffer[..len];
    }

    /** clks_fs_build_file_payload; `payload` is what clks_kmalloc answers if it is asked. */
    method BuildPayload(src: Source, payload: Allocation) returns (ok: bool, data: Pointer, owned: bool)
      requires payload.Memory? ==> payload.addr !in heap
      modifies this`heap
      ensures ok <==> Payable(src, payload)
      ensures if !ok then heap == old(heap)
              else if Bytes(src) == [] then data == Rom([]) && !owned && heap == old(heap)
              else data.Block? && owned && data.addr !in old(heap) && heap == old(heap)[data.addr := Bytes(src)]
    {
      ok, data, owned := true, Rom([]), false;
      if SizeOf(src) == 0 {
        return;
      }
      if src.Missing? || payload.NoMemory? {
        ok := false;
        return;
      }
      heap := heap[payload.addr := src.bytes];
      data, owned := Block(payload.addr), true;
    }

    /** clks_kfree of a live block. */
    method Free(addr: nat)
      requires addr in heap
      modifies this`heap
      ensures heap == old(heap) - {addr}
    {
      heap := heap - {addr};
    }

    /** clks_fs_node_release_heap_data */
    method ReleaseHeapData(index: nat)
      requires index < nodes.Length
               && (nodes[index].owned && nodes[index].data.Block? ==> nodes[index].data.addr in heap)
      requires nodes[index].owned ==> !nodes[index].dir && nodes[index].data.Block?
      modifies this`heap, nodes
      ensures nodes[..] == old(nodes[..])[index := old(nodes[index]).(owned := false)]
      ensures heap == if old(nodes[index]).owned then old(heap) - {old(nodes[index]).data.addr} else old(heap)
    {
      if nodes[index].dir {
        return;
      }
      if nodes[index].owned && nodes[index].data != Null {
        Free(nodes[index].data.addr);
      }
      nodes[index] := nodes[index].(owned := false);
    }

    /** clks_fs_write_all once the parent directory is known to be there. */
    method WriteUnder(name: seq<byte>, parent: nat, src: Source, payload: Allocation) returns (ok: bool)
      requires Valid(nodes[..], count, heap) && Tidy(name) && |name| < PATH_MAX && name != []
      requires IsAt(nodes[..], parent, Parent(name)) && nodes[parent].dir
      requires payload.Memory? ==> payload.addr !in heap
      modifies this`count, this`heap, nodes
      ensures Valid(nodes[..], count, heap) && OthersKept(old(nodes[..]), old(heap), nodes[..], heap)
      ensures if ok then Wrote(old(nodes[..]), old(heap), nodes[..], heap, name, File(Bytes(src)))
              else SameTree(old(nodes[..]), old(heap), nodes[..], heap)
      ensures ok ==> Payable(src, payload) && Look(old(nodes[..]), old(heap), name) != Dir
      ensures !ok && Payable(src, payload) ==>
        NoSlot(old(nodes[..]), old(heap), name) || Look(old(nodes[..]), old(heap), name) == Dir
    {
      Bounds(nodes[..], count, heap);
      hide Valid;
      hide Tidy;
      hide Parent;
      hide Find;
      hide Wrote;
      hide OthersKept;
      hide SameTree;
      hide Content;
      var index := FindNode(name);
      ok := index < 0 || !nodes[index].dir;
      if ok {
        hide Look;
        ok := PutPayload(index, name, parent, src, payload);
      } else {
        Unchanged(nodes[..], heap);
      }
    }

    /** clks_fs_write_all from the copy of the payload on. */
    method PutPayload(index: int, name: seq<byte>, parent: nat, src: Source, payload: Allocation) returns (ok: bool)
      requires Valid(nodes[..], count, heap) && Tidy(name) && |name| < PATH_MAX
      requires index == Find(nodes[..], name, 0) && (index >= 0 ==> !nodes[index].dir)
      requires IsAt(nodes[..], parent, Parent(name)) && nodes[parent].dir
      requires payload.Memory? ==> payload.addr !in heap
      modifies this`count, this`heap, nodes
      ensures Valid(nodes[..], count, heap) && OthersKept(old(nodes[..]), old(heap), nodes[..], heap)
      ensures if ok then Wrote(old(nodes[..]), old(heap), nodes[..], heap, name, File(Bytes(src)))
              else SameTree(old(nodes[..]), old(heap), nodes[..], heap)
      ensures ok ==> Payable(src, payload)
      ensures !ok && Payable(src, payload) ==> NoSlot(old(nodes[..]), old(heap), name)
    {
      hide Valid;
      hide Tidy;
      hide Parent;
      hide Find;
      hide OthersKept;
      hide Wrote;
      hide SameTree;
      ghost var was, heap0, count0 := nodes[..], heap, count;
      Bounds(was, count, heap);
      Unchanged(was, heap0);
      var data, owned;
      ok, data, owned := BuildPayload(src, payload);
      if !ok {
        return;
      }
      ghost var heap1 := heap;
      var n := Node(true, false, parent, owned, data, SizeOf(src), name);
      ok := AttachPayload(index, n, was, heap0);
      if ok {
        AttachedFile(was, count0, count, heap0, heap1, nodes[..], heap, n, Bytes(src));
      } else {
        CountGrows(was, count0, count, heap0);
        NoSlotAt(was, heap0, name, index);
        assert heap == heap0;
      }
    }

    method AttachPayload(index: int, n: Node, ghost was: seq<Node>, ghost heap0: Heap) returns (ok: bool)
      requires Valid(was, count, heap0) && was == nodes[..] && forall addr :: addr in heap0 ==> addr in heap
      requires index == Find(was, n.path, 0) && (index >= 0 ==> !nodes[index].dir)
      requires n.used && !n.dir && |n.path| < PATH_MAX
               && (n.owned ==> n.data.Block? && n.data.addr in heap && n.data.addr !in heap0)
      modifies this`count, this`heap, nodes
      ensures old(count) <= count <= MAX_NODES
      ensures if ok then Attached(was, nodes[..], count, n, old(heap), heap)
              else nodes[..] == was && index < 0 && Full(was)
                   && heap == if n.owned then old(heap) - {n.data.addr} else old(heap)
    {
      hide Valid;
      hide Find;
      hide Refused;
      hide Replaceable;
      hide Stored;
      hide Full;
      hide Without;
      Bounds(was, count, heap0);
      FileReplaceable(was, count, heap0, heap, n.path);
      PayloadApart(was, count, heap0, index, n);
      ghost var heap1 := heap;
      var slot := StoreNode(index, n);
      ok := slot >= 0;
      if ok {
        AttachedAt(was, nodes[..], count, slot, n, heap1, heap);
      } else {
        RefusedFull(was, n.path, index);
      }
    }

    /** clks_fs_write_all from the release of the old payload on; `n` is the node that is to be there in the end. */
    method StoreNode(index: int, n: Node) returns (slot: int)
      requires nodes.Length == MAX_NODES && count <= MAX_NODES
               && forall i :: count <= i < nodes.Length ==> !nodes[i].used
      requires Replaceable(nodes[..], heap, index, n.path) && |n.path| < PATH_MAX && n.used && !n.dir
      requires n.owned ==> n.data.Block? && n.data.addr in heap
      requires n.owned && index >= 0 && nodes[index].owned ==> nodes[index].data != n.data
      modifies this`count, this`heap, nodes
      ensures old(count) <= count <= MAX_NODES && forall i :: count <= i < nodes.Length ==> !nodes[i].used
      ensures if slot >= 0 then Stored(old(nodes[..]), nodes[..], count, slot, n)
              && heap == Without(old(heap), old(nodes[..])[slot])
              else index < 0 && Refused(nodes[..], n.path, false) && nodes[..] == old(nodes[..])
                   && heap == if n.owned then old(heap) - {n.data.addr} else old(heap)
    {
      if index >= 0 {
        ReleaseHeapData(index);
      }
      hide IsAt;
      slot := CreateOrUpdate(n.path, false, n.parent, n.data, n.size);
      if slot < 0 {
        if n.owned {
          Free(n.data.addr);
        }
        return;
      }
      nodes[slot] := nodes[slot].(owned := n.owned);
      assert nodes[..] == old(nodes[..])[slot := n];
    }

    /** What every call that changes the tree checks first. */
    method Resolve(path: seq<byte>) returns (ok: bool, name: seq<byte>)
      requires NoNul(path)
      ensures ok <==> ready && Named(path) && Writable(Name(path))
      ensures ok ==> name == Name(path) && name != [] && Tidy(name) && |name| < PATH_MAX
    {
      ok, name := false, [];
      hide Name;
      hide Named;
      hide Tidy;
      if ready {
        ok, name := NormalizeExternal(path);
        ok := ok && Writable(name);
      }
    }

    /** clks_fs_mkdir */
    method Mkdir(path: seq<byte>) returns (ok: bool)
      requires Valid(nodes[..], count, heap) && NoNul(path)
      modifies this`count, nodes
      ensures Valid(nodes[..], count, heap) && OthersKept(old(nodes[..]), heap, nodes[..], heap)
      ensures if ready && Named(path) && Writable(Name(path))
              then DirsAdded(old(nodes[..]), heap, nodes[..], heap, Name(path))
                   && (ok <==> CanMake(old(nodes[..]), heap, Name(path)))
                   && (ok ==> Look(nodes[..], heap, Name(path)) == Dir)
              else !ok && nodes[..] == old(nodes[..])
    {
      hide *;
      Unchanged(nodes[..], heap);
      var name;
      ok, name := Resolve(path);
      if ok {
        ok := EnsureDirs(name);
        if ok {
          DirFound(nodes[..], heap, name);
          Bounds(nodes[..], count, heap);
          var index := FindNode(name);
          ok := index >= 0 && nodes[index].dir;
        }
      }
    }

    /**
     clks_fs_write_all: the file gets exactly these bytes; nothing else changes but directories made on the way. The
     call succeeds exactly if the name can be written, no file is in the way, the table has room for what is missing, no
     directory has the name, the bytes are there, and the heap has a block for them, which `payload` says.
     */
    method WriteAll(path: seq<byte>, src: Source, payload: Allocation) returns (ok: bool)
      requires Valid(nodes[..], count, heap) && NoNul(path) && (payload.Memory? ==> payload.addr !in heap)
      modifies this`count, this`heap, nodes
      ensures Valid(nodes[..], count, heap) && OthersKept(old(nodes[..]), old(heap), nodes[..], heap)
      ensures ok <==> ready && Named(path) && Writable(Name(path)) && Payable(src, payload)
                      && CanWrite(old(nodes[..]), old(heap), Name(path))
      ensures if ok then Written(old(nodes[..]), old(heap), nodes[..], heap, Name(path), Bytes(src))
              else DirsAdded(old(nodes[..]), old(heap), nodes[..], heap, Parent(Name(path)))
    {
      hide *;
      Unchanged(nodes[..], heap);
      NothingAdded(nodes[..], heap, Parent(Name(path)));
      var name;
      ok, name := Resolve(path);
      if ok {
        ok := WriteName(name, src, payload);
      }
    }

    /** clks_fs_write_all once the path is a name that can be written. */
    method WriteName(name: seq<byte>, src: Source, payload: Allocation) returns (ok: bool)
      requires Valid(nodes[..], count, heap) && Tidy(name) && |name| < PATH_MAX && name != []
      requires payload.Memory? ==> payload.addr !in heap
      modifies this`count, this`heap, nodes
      ensures Valid(nodes[..], count, heap) && OthersKept(old(nodes[..]), old(heap), nodes[..], heap)
      ensures ok <==> Payable(src, payload) && CanWrite(old(nodes[..]), old(heap), name)
      ensures if ok then Written(old(nodes[..]), old(heap), nodes[..], heap, name, Bytes(src))
              else DirsAdded(old(nodes[..]), old(heap), nodes[..], heap, Parent(name))
    {
      hide *;
      ghost var was, heap0 := nodes[..], heap;
      ParentTidy(name);
      ParentShorter(name);
      ParentStops(was, heap0, name);
      var parent := SplitParent(name);
      ok := EnsureDirs(parent);
      if !ok {
        return;
      }
      ghost var nodes1, count1 := nodes[..], count;
      ok := WriteAt(name, parent, src, payload);
      ghost var nodes2, heap2 := nodes[..], heap;
      OthersKeptTwice(was, heap0, nodes1, heap0, nodes2, heap2);
      if ok {
        DirsThenFile(was, heap0, nodes1, heap0, nodes2, heap2, name, Bytes(src));
        WrittenCan(was, heap0, nodes2, count, heap2, name, Bytes(src));
      } else {
        DirsThenSame(was, heap0, nodes1, heap0, nodes2, heap2, parent);
        if Payable(src, payload) {
          FileStopped(was, heap0, nodes1, count1, heap0, name);
        }
      }
    }

    method WriteAt(name: seq<byte>, parentPath: seq<byte>, src: Source, payload: Allocation) returns (ok: bool)
      requires Valid(nodes[..], count, heap) && Tidy(name) && |name| < PATH_MAX && name != []
      requires parentPath == Parent(name) && Look(nodes[..], heap, parentPath) == Dir
      requires payload.Memory? ==> payload.addr !in heap
      modifies this`count, this`heap, nodes
      ensures Valid(nodes[..], count, heap) && OthersKept(old(nodes[..]), old(heap), nodes[..], heap)
      ensures if ok then Wrote(old(nodes[..]), old(heap), nodes[..], heap, name, File(Bytes(src)))
              else SameTree(old(nodes[..]), old(heap), nodes[..], heap)
      ensures ok ==> Payable(src, payload) && Look(old(nodes[..]), old(heap), name) != Dir
      ensures !ok && Payable(src, payload) ==>
        NoSlot(old(nodes[..]), old(heap), name) || Look(old(nodes[..]), old(heap), name) == Dir
    {
      Bounds(nodes[..], count, heap);
      Unchanged(nodes[..], heap);
      FoundEntry(nodes[..], heap, parentPath);
      hide Valid;
      hide Tidy;
      hide Parent;
      hide Wrote;
      hide OthersKept;
      hide SameTree;
      hide Look;
      var parent := FindNode(parentPath);
      ok := parent >= 0 && nodes[parent].dir;
      if ok {
        ok := WriteUnder(name, parent, src, payload);
      }
    }

    /** clks_fs_read_all */
    method ReadAll(path: seq<byte>) returns (r: Read)
      requires Valid(nodes[..], count, heap) && NoNul(path)
      ensures r == if ready && Named(path) && Look(nodes[..], heap, Name(path)).File?
                   then Contents(Look(nodes[..], heap, Name(path)).bytes) else NoFile
    {
      r := NoFile;
      Bounds(nodes[..], count, heap);
      hide Valid;
      hide Named;
      hide Name;
      hide Tidy;
      if !ready {
        return;
      }
      var named, name := NormalizeExternal(path);
      if !named {
        return;
      }
      var index := FindNode(name);
      if index < 0 || nodes[index].dir {
        return;
      }
      r := Contents(if nodes[index].size == 0 then [] else Content(nodes[index], heap));
      SizeRight(nodes[..], count, heap, index);
    }

    /**
     clks_fs_append: the bytes go behind those the file had; a missing file is made. `merged` and `payload` are what
     clks_kmalloc answers for the bytes together and for the file's own copy of them. The call succeeds exactly where
     clks_fs_write_all would and the size of the file stays within 64 bits.
     */
    method Append(path: seq<byte>, src: Source, merged: Allocation, payload: Allocation) returns (ok: bool)
      requires Valid(nodes[..], count, heap) && NoNul(path)
      requires (merged.Memory? ==> merged.addr !in heap) && (payload.Memory? ==> payload.addr !in heap)
      requires merged.Memory? ==> merged != payload
      modifies this`count, this`heap, nodes
      ensures Valid(nodes[..], count, heap) && OthersKept(old(nodes[..]), old(heap), nodes[..], heap)
      ensures var was := Look(old(nodes[..]), old(heap), Name(path));
        var bytes := OldBytes(was) + Bytes(src);
        && (ok <==> ready && Named(path) && Writable(Name(path)) && Payable(src, payload)
                    && CanWrite(old(nodes[..]), old(heap), Name(path))
                    && (was.File? ==> Extends(was.bytes, src, merged, payload)))
        && (if ok then Written(old(nodes[..]), old(heap), nodes[..], heap, Name(path), bytes)
            else DirsAdded(old(nodes[..]), old(heap), nodes[..], heap, Parent(Name(path))))
    {
      hide *;
      ghost var was, heap0 := nodes[..], heap;
      Unchanged(nodes[..], heap);
      NothingAdded(nodes[..], heap, Parent(Name(path)));
      NullNotPayable(src, payload);
      if NullWithSize(src) {
        return false;
      }
      var name;
      ok, name := Resolve(path);
      if !ok {
        return;
      }
      Bounds(nodes[..], count, heap);
      var index := FindNode(name);
      FoundEntry(nodes[..], heap, name);
      if index < 0 {
        assert OldBytes(Absent) + Bytes(src) == Bytes(src);
        ok := WriteAll(path, src, payload);
        return;
      }
      NoDirWritten(nodes[..], heap, name);
      if nodes[index].dir {
        return false;
      }
      SizeRight(nodes[..], count, heap, index);
      ExtendsMeans(Content(nodes[index], heap), src, merged, payload);
      if SizeOf(src) + nodes[index].size >= TWO_TO_THE_64 {
        return false;
      }
      if nodes[index].size + SizeOf(src) == 0 {
        ok := WriteAll(path, Given([]), payload);
      } else {
        ok := WriteMerged(path, Content(nodes[index], heap) + Bytes(src), merged, payload);
      }
    }

    /** Writes bytes that lie in a heap block of their own, and gives that block back. */
    method WriteMerged(path: seq<byte>, bytes: seq<byte>, merged: Allocation, payload: Allocation) returns (ok: bool)
      requires Valid(nodes[..], count, heap) && NoNul(path)
      requires (merged.Memory? ==> merged.addr !in heap) && (payload.Memory? ==> payload.addr !in heap)
      requires merged.Memory? ==> merged != payload
      modifies this`count, this`heap, nodes
      ensures Valid(nodes[..], count, heap) && OthersKept(old(nodes[..]), old(heap), nodes[..], heap)
      ensures ok <==> ready && Named(path) && Writable(Name(path)) && merged.Memory? && Payable(Given(bytes), payload)
                      && CanWrite(old(nodes[..]), old(heap), Name(path))
      ensures if ok then Written(old(nodes[..]), old(heap), nodes[..], heap, Name(path), bytes)
              else DirsAdded(old(nodes[..]), old(heap), nodes[..], heap, Parent(Name(path)))
    {
      hide *;
      ghost var was, heap0, count0 := nodes[..], heap, count;
      Unchanged(nodes[..], heap);
      NothingAdded(nodes[..], heap, Parent(Name(path)));
      if merged.NoMemory? {
        return false;
      }
      var addr := merged.addr;
      heap := heap[addr := bytes];
      BlockAdded(was, count, heap0, addr, bytes);
      GivenBytes(bytes);
      ok := WriteAll(path, Given(heap[addr]), payload);
      SameRoom(was, heap0, heap0[addr := bytes], Name(path));
      ghost var heap2 := heap;
      BlockGone(was, count0, heap0, addr, bytes, nodes[..], count, heap2, Name(path));
      Free(addr);
    }

    /** clks_fs_remove: a file or a directory without children goes; whether it does is decided by the tree alone. */
    method Remove(path: seq<byte>) returns (ok: bool)
      requires Valid(nodes[..], count, heap) && NoNul(path)
      modifies this`heap, nodes
      ensures Valid(nodes[..], count, heap) && OthersKept(old(nodes[..]), old(heap), nodes[..], heap)
      ensures ok <==> ready && Named(path) && Writable(Name(path)) && Removable(old(nodes[..]), old(heap), Name(path))
      ensures if ok then Wrote(old(nodes[..]), old(heap), nodes[..], heap, Name(path), Absent)
              else nodes[..] == old(nodes[..]) && heap == old(heap)
    {
      hide *;
      Unchanged(nodes[..], heap);
      var name;
      ok, name := Resolve(path);
      if !ok {
        return;
      }
      Bounds(nodes[..], count, heap);
      var index := FindNode(name);
      FoundEntry(nodes[..], heap, name);
      if index < 0 {
        NotRemovable(nodes[..], heap, name);
        return false;
      }
      WhenRemovable(nodes[..], count, heap, index, name);
      if nodes[index].dir {
        for i := 0 to count
          invariant forall j :: 0 <= j < i && nodes[j].used ==> nodes[j].parent != index
        {
          if nodes[i].used && nodes[i].parent == index {
            HasChild(nodes[..], i, index);
            return false;
          }
        }
        NoChild(nodes[..], count, index);
      }
      Clear(index);
    }

    /** clks_fs_remove once the node may go. */
    method Clear(index: nat)
      requires Valid(nodes[..], count, heap) && 0 < index < count <= nodes.Length && nodes[index].used
               && Childless(nodes[..], index)
      modifies this`heap, nodes
      ensures Valid(nodes[..], count, heap) && OthersKept(old(nodes[..]), old(heap), nodes[..], heap)
      ensures Wrote(old(nodes[..]), old(heap), nodes[..], heap, old(nodes[index]).path, Absent)
    {
      hide *;
      ghost var was, heap0 := nodes[..], heap;
      OwnerFacts(was, count, heap, index);
      ReleaseHeapData(index);
      nodes[index] := FREE_NODE;
      assert nodes[..] == was[index := FREE_NODE];
      Removed(was, count, heap0, index, heap);
    }

    /**
     clks_fs_ramdisk_visit for a file: its bytes stay in the boot image, and no heap block is touched. The archive's
     paths neither start nor end with a slash; one with a doubled slash inside is turned away.
     */
    method VisitFile(path: seq<byte>, bytes: seq<byte>) returns (ok: bool)
      requires Valid(nodes[..], count, heap) && NoneOwned(nodes[..])
      requires path != [] ==> path[0] != SLASH && path[|path| - 1] != SLASH
      modifies this`count, nodes
      ensures Valid(nodes[..], count, heap) && NoneOwned(nodes[..])
      ensures ok <==> Tidy(path) && |path| < PATH_MAX && CanWrite(old(nodes[..]), heap, path)
      ensures if ok then Written(old(nodes[..]), heap, nodes[..], heap, path, bytes)
              else DirsAdded(old(nodes[..]), heap, nodes[..], heap, Parent(path))
    {
      hide *;
      NothingAdded(nodes[..], heap, Parent(path));
      ghost var was, count0 := nodes[..], count;
      var parentPath := SplitParent(path);
      ParentTidy(path);
      ParentShorter(path);
      ParentStops(was, heap, path);
      RootThere(was, count, heap);
      ok := EnsureDirs(parentPath);
      ghost var nodes1, count1 := nodes[..], count;
      if !ok {
        return;
      }
      Bounds(nodes1, count, heap);
      var parent := FindNode(parentPath);
      FoundEntry(nodes1, heap, parentPath);
      FoundTidy(nodes1, count, heap, path);
      ok := parent >= 0;
      if ok {
        var slot := CreateOrUpdate(path, false, parent, Rom(bytes), |bytes|);
        ok := slot >= 0;
        CountGrows(nodes1, count1, count, heap);
        if ok {
          DirFound(nodes1, heap, parentPath);
          RomFile(nodes1, count, heap, nodes[..], slot, path, parent, bytes);
          DirsThenFile(was, heap, nodes1, heap, nodes[..], heap, path, bytes);
          WrittenCan(was, heap, nodes[..], count, heap, path, bytes);
        } else {
          RefusedFile(was, count0, heap, nodes1, count1, path);
        }
      }
    }

    /** The end of clks_fs_init: the file system goes into service if the directories it needs are there. */
    method FinishInit(required: seq<seq<byte>>, disk: Disk)
      requires Valid(nodes[..], count, heap) && forall k :: 0 <= k < |required| ==> NoNul(required[k])
      modifies this`ready
      ensures ready <==> forall k :: 0 <= k < |required| ==> HasDir(nodes[..], heap, disk, required[k])
    {
      hide *;
      ready := false;
      for k := 0 to |required|
        invariant !ready && forall j :: 0 <= j < k ==> HasDir(nodes[..], heap, disk, required[j])
      {
        var there := RequireDirectory(required[k], disk);
        if !there {
          return;
        }
      }
      ready := true;
    }

    /** clks_fs_require_directory */
    method RequireDirectory(path: seq<byte>, disk: Disk) returns (ok: bool)
      requires Valid(nodes[..], count, heap) && NoNul(path)
      ensures ok <==> HasDir(nodes[..], heap, disk, path)
    {
      Bounds(nodes[..], count, heap);
      hide Valid;
      hide Named;
      hide Name;
      hide Tidy;
      if path in DEV_DIRS {
        return true;
      }
      if path in disk.mounted {
        return path in disk.dirs;
      }
      var named, name := NormalizeExternal(path);
      if !named {
        return false;
      }
      var index := FindNode(name);
      return index >= 0 && nodes[index].dir;
    }
  }

  /** A directory of the file system: a device directory, one the disk has under its mount, or a node of the table. */
  ghost predicate HasDir(nodes: seq<Node>, heap: Heap, disk: Disk, path: seq<byte>) {
    || path in DEV_DIRS
    || (if path in disk.mounted then path in disk.dirs else Named(path) && Look(nodes, heap, Name(path)) == Dir)
  }

  lemma ParentTidy(p: seq<byte>)
    ensures Tidy(p) ==> Tidy(Parent(p))
  {
  }

  lemma RefusedFile(nodes: seq<Node>, count: nat, heap: Heap, nodes1: seq<Node>, count1: nat, path: seq<byte>)
    requires Valid(nodes, count, heap) && Valid(nodes1, count1, heap)
    requires DirsAdded(nodes, heap, nodes1, heap, Parent(path)) && Refused(nodes1, path, false)
    ensures |path| >= PATH_MAX || !CanWrite(nodes, heap, path)
  {
    RootThere(nodes, count, heap);
    if |path| < PATH_MAX && path != [] {
      FoundEntry(nodes1, heap, path);
      hide Valid;
      hide CanWrite;
      hide DirsAdded;
      hide Look;
      FileStopped(nodes, heap, nodes1, count1, heap, path);
    }
  }

  /** What CanWrite says of the tree before, if the file is there afterwards. */
  lemma WrittenCan(nodes: seq<Node>, heap: Heap, nodes': seq<Node>, count': nat, heap': Heap, name: seq<byte>,
                   bytes: seq<byte>)
    requires Valid(nodes', count', heap') && Written(nodes, heap, nodes', heap', name, bytes)
    ensures CanWrite(nodes, heap, name)
  {
    hide Valid;
    hide Look;
    hide CanWrite;
    FileMade(nodes, heap, nodes', count', heap', name);
  }

  lemma RootAlone(nodes: seq<Node>, heap: Heap)
    requires |nodes| == MAX_NODES && nodes[0] == FREE_NODE.(used := true, dir := true)
    requires forall i :: 0 < i < |nodes| ==> nodes[i] == FREE_NODE
    ensures Valid(nodes, 1, heap) && NoneOwned(nodes)
    ensures forall p: seq<byte> :: Look(nodes, heap, p) == if p == [] then Dir else Absent
  {
    forall p: seq<byte> ensures Look(nodes, heap, p) == if p == [] then Dir else Absent {
      assert p == [] ==> IsAt(nodes, 0, p);
    }
  }

  lemma RootThere(nodes: seq<Node>, count: nat, heap: Heap)
    requires Valid(nodes, count, heap)
    ensures Look(nodes, heap, []) == Dir
  {
    LookDir(nodes, count, heap, 0, []);
  }

  /** As long as only the archive's files are there, no payload lies in the heap. */
  ghost predicate NoneOwned(nodes: seq<Node>) { forall i :: 0 <= i < |nodes| ==> !nodes[i].owned }

  /** A directory that is found has a tidy path, and so has what lies in it. */
  lemma FoundTidy(nodes: seq<Node>, count: nat, heap: Heap, path: seq<byte>)
    requires Valid(nodes, count, heap) && (path != [] ==> path[0] != SLASH && path[|path| - 1] != SLASH)
    ensures Find(nodes, Parent(path), 0) >= 0 ==> Tidy(path)
    ensures Tidy(path) && Look(nodes, heap, Parent(path)) == Dir ==> Find(nodes, Parent(path), 0) >= 0
  {
    var f := Find(nodes, Parent(path), 0);
    if f >= 0 {
      assert NodeOk(nodes[f], heap);
      hide Valid;
      hide Find;
      TidyFromParent(path);
    }
  }

  lemma TidyFromParent(p: seq<byte>)
    requires Tidy(Parent(p)) && (p != [] ==> p[0] != SLASH && p[|p| - 1] != SLASH)
    ensures Tidy(p)
  {
    var s := LastSlash(p);
    if s >= 0 {
      assert Parent(p) != [] && p[s - 1] == Parent(p)[s - 1];
      forall k, l | 0 <= k && l == k + 1 && l < |p| && p[k] == SLASH ensures p[l] != SLASH {
        if l < s {
          assert Parent(p)[k] == p[k] && Parent(p)[l] == p[l];
        }
      }
    }
  }

  lemma DirNotOwned(nodes: seq<Node>, nodes': seq<Node>, slot: nat, path: seq<byte>, parent: nat)
    requires Put(nodes, nodes', slot, path, true, parent, Null, 0)
    ensures NoneOwned(nodes) ==> NoneOwned(nodes')
  {
  }

  lemma RomFile(nodes: seq<Node>, count: nat, heap: Heap, nodes': seq<Node>, slot: nat, path: seq<byte>, parent: nat,
                bytes: seq<byte>)
    requires Valid(nodes, count, heap) && NoneOwned(nodes) && Tidy(path) && slot < count
    requires Put(nodes, nodes', slot, path, false, parent, Rom(bytes), |bytes|)
    requires parent < |nodes| && nodes[parent].used && nodes[parent].path == Parent(path) && nodes[parent].dir
    ensures Valid(nodes', count, heap) && Wrote(nodes, heap, nodes', heap, path, File(bytes))
            && Look(nodes, heap, path) != Dir && NoneOwned(nodes')
  {
    var n := Node(true, false, parent, false, Rom(bytes), |bytes|, path);
    OnlyOneAt(nodes, path);
    FoundEntry(nodes, heap, path);
    assert NodeOk(n, heap) && EntryOf(n, heap) == File(bytes);
    hide Valid;
    hide Find;
    hide Look;
    hide NodeOk;
    hide Tidy;
    hide Wrote;
    assert nodes' == nodes[slot := n];
    PutKeeps(nodes, count, heap, slot, n);
  }

  /** Two spellings name the same thing exactly if they have the same components. */
  lemma SameName(p: seq<byte>, q: seq<byte>)
    ensures Name(p) == Name(q) <==> Components(p) == Components(q)
  {
    NormalIsStable(p, false);
    NormalIsStable(q, false);
  }

  /** In terms of component lists: whatever is in the tree lies in a directory of the tree, up to the root. */
  lemma ComponentsClosed(nodes: seq<Node>, count: nat, heap: Heap, cs: seq<seq<byte>>)
    requires Valid(nodes, count, heap) && (forall c :: c in cs ==> Good(c)) && cs != []
             && Look(nodes, heap, Join(cs)) != Absent
    ensures Look(nodes, heap, Join(cs[..|cs| - 1])) == Dir
  {
    JoinTidy(cs);
    TreeClosed(nodes, count, heap, Join(cs));
  }

  lemma SizeRight(nodes: seq<Node>, count: nat, heap: Heap, index: nat)
    requires Valid(nodes, count, heap) && index < |nodes| && nodes[index].used && !nodes[index].dir
    ensures |Content(nodes[index], heap)| == nodes[index].size
  {
    hide Unique;
    hide AllParented;
    hide OneOwner;
    assert NodeOk(nodes[index], heap);
  }

  lemma FoundEntry(nodes: seq<Node>, heap: Heap, p: seq<byte>)
    ensures var f := Find(nodes, p, 0);
      && f < |nodes| && (f < 0 ==> Look(nodes, heap, p) == Absent)
      && (f >= 0 ==> nodes[f].used && nodes[f].path == p
                     && Look(nodes, heap, p) == if nodes[f].dir then Dir else File(Content(nodes[f], heap)))
    ensures OldBytes(Look(nodes, heap, p)) == if Look(nodes, heap, p).File? then Look(nodes, heap, p).bytes else []
  {
  }

  /** The bytes to be written are there, and so is a block for them if there are any. */
  predicate Payable(src: Source, payload: Allocation) { !NullWithSize(src) && (Bytes(src) == [] || payload.Memory?) }

  /** The bytes can be put behind those of a file: together they have a size, and a block to put them together in. */
  predicate Extends(had: seq<byte>, src: Source, merged: Allocation, payload: Allocation) {
    && |had| + SizeOf(src) < TWO_TO_THE_64
    && (had + Bytes(src) == [] || (merged.Memory? && payload.Memory?))
  }

  lemma ExtendsMeans(had: seq<byte>, src: Source, merged: Allocation, payload: Allocation)
    requires !NullWithSize(src)
    ensures SizeOf(src) == |Bytes(src)|
    ensures Payable(src, payload) && Extends(had, src, merged, payload)
            <==> |had| + SizeOf(src) < TWO_TO_THE_64
                 && if |had| + SizeOf(src) == 0 then Payable(Given([]), payload)
                    else merged.Memory? && Payable(Given(had + Bytes(src)), payload)
    ensures |had| + SizeOf(src) == 0 ==> had + Bytes(src) == [] == Bytes(Given([]))
  {
  }

  lemma NullNotPayable(src: Source, payload: Allocation)
    ensures NullWithSize(src) ==> !Payable(src, payload)
  {
  }

  lemma NoDirWritten(nodes: seq<Node>, heap: Heap, name: seq<byte>)
    ensures Look(nodes, heap, name) == Dir ==> !CanWrite(nodes, heap, name)
  {
  }

  lemma NotRemovable(nodes: seq<Node>, heap: Heap, name: seq<byte>)
    requires Look(nodes, heap, name) == Absent
    ensures !Removable(nodes, heap, name)
  {
  }

  lemma FileChildless(nodes: seq<Node>, index: nat)
    requires AllParented(nodes) && index < |nodes| && !nodes[index].dir
    ensures Childless(nodes, index)
  {
    forall i | 0 <= i < |nodes| && nodes[i].used ensures nodes[i].parent != index {
      assert Parented(nodes, nodes[i]);
    }
  }

  lemma WhenRemovable(nodes: seq<Node>, count: nat, heap: Heap, index: nat, name: seq<byte>)
    requires Valid(nodes, count, heap) && index == Find(nodes, name, 0) && name != []
    ensures 0 < index < count <= |nodes| && nodes[index].used && nodes[index].path == name
    ensures Removable(nodes, heap, name) <==> Childless(nodes, index)
    ensures !nodes[index].dir ==> Childless(nodes, index)
  {
    hide Childless;
    hide Unique;
    hide AllParented;
    hide NodesOk;
    hide OneOwner;
    FoundEntry(nodes, heap, name);
    hide Find;
    hide Look;
    ChildrenAreNames(nodes, heap, index);
    if !nodes[index].dir {
      FileChildless(nodes, index);
    }
  }

  lemma HasChild(nodes: seq<Node>, i: nat, index: nat)
    requires i < |nodes| && nodes[i].used && nodes[i].parent == index
    ensures !Childless(nodes, index)
  {
  }

  lemma NoChild(nodes: seq<Node>, count: nat, index: nat)
    requires count <= |nodes| && forall j :: count <= j < |nodes| ==> !nodes[j].used
    requires forall j :: 0 <= j < count && nodes[j].used ==> nodes[j].parent != index
    ensures Childless(nodes, index)
  {
  }

  lemma OwnerFacts(nodes: seq<Node>, count: nat, heap: Heap, index: nat)
    requires Valid(nodes, count, heap) && index < |nodes|
    ensures nodes[index].owned ==> !nodes[index].dir && nodes[index].data.Block? && nodes[index].data.addr in heap
  {
    if nodes[index].owned {
      OwnerApart(nodes, count, heap, index, index);
      hide Unique;
      hide AllParented;
      hide OneOwner;
      assert NodeOk(nodes[index], heap);
    }
  }

  // ---------- a block of the caller's beside the payloads ----------

  lemma NotOwned(nodes: seq<Node>, count: nat, heap: Heap, addr: nat)
    requires Valid(nodes, count, heap) && addr !in heap
    ensures !OwnedBy(nodes, addr)
  {
    if OwnedBy(nodes, addr) {
      var i :| 0 <= i < |nodes| && Owns(nodes[i], addr);
      OwnerApart(nodes, count, heap, i, i);
    }
  }

  lemma BlockAdded(nodes: seq<Node>, count: nat, heap: Heap, addr: nat, bytes: seq<byte>)
    requires Valid(nodes, count, heap) && addr !in heap
    ensures Valid(nodes, count, heap[addr := bytes]) && SameTree(nodes, heap, nodes, heap[addr := bytes])
  {
    hide Valid;
    assert OwnedKept(nodes, heap, heap[addr := bytes]);
    HeapElsewhere(nodes, count, heap, heap[addr := bytes]);
  }

  /** Whatever was done meanwhile, the caller's block is still there, and without it the others are as they were. */
  lemma BlockStays(nodes: seq<Node>, count: nat, heap: Heap, addr: nat, bytes: seq<byte>, nodes': seq<Node>,
                   heap': Heap)
    requires Valid(nodes, count, heap) && addr !in heap && OthersKept(nodes, heap[addr := bytes], nodes', heap')
    ensures addr in heap' && !OwnedBy(nodes', addr) && OthersKept(nodes, heap, nodes', heap' - {addr})
  {
    hide Valid;
    NotOwned(nodes, count, heap, addr);
    hide OwnedBy;
    assert addr in heap[addr := bytes];
  }

  lemma OwnerCounts(nodes: seq<Node>, i: nat, addr: nat)
    requires i < |nodes|
    ensures nodes[i].used && nodes[i].owned && nodes[i].data == Block(addr) ==> OwnedBy(nodes, addr)
  {
    assert nodes[i].used && nodes[i].owned && nodes[i].data == Block(addr) ==> Owns(nodes[i], addr);
  }

  lemma BlockDropped(nodes: seq<Node>, count: nat, heap: Heap, addr: nat)
    requires Valid(nodes, count, heap) && !OwnedBy(nodes, addr)
    ensures Valid(nodes, count, heap - {addr}) && SameTree(nodes, heap, nodes, heap - {addr})
  {
    hide Valid;
    hide OwnedBy;
    forall i | 0 <= i < |nodes| && nodes[i].used && nodes[i].owned && nodes[i].data.Block?
      ensures nodes[i].data.addr != addr {
      OwnerCounts(nodes, i, addr);
    }
    HeapElsewhere(nodes, count, heap, heap - {addr});
  }

  lemma BlockGone(nodes: seq<Node>, count: nat, heap: Heap, addr: nat, bytes: seq<byte>, nodes': seq<Node>, count': nat,
                  heap2: Heap, name: seq<byte>)
    requires Valid(nodes, count, heap) && addr !in heap && OthersKept(nodes, heap[addr := bytes], nodes', heap2)
    requires Valid(nodes', count', heap2)
    ensures addr in heap2 && Valid(nodes', count', heap2 - {addr}) && OthersKept(nodes, heap, nodes', heap2 - {addr})
    ensures Written(nodes, heap[addr := bytes], nodes', heap2, name, bytes)
            ==> Written(nodes, heap, nodes', heap2 - {addr}, name, bytes)
    ensures DirsAdded(nodes, heap[addr := bytes], nodes', heap2, Parent(name))
            ==> DirsAdded(nodes, heap, nodes', heap2 - {addr}, Parent(name))
  {
    hide Valid;
    hide Written;
    hide DirsAdded;
    hide SameTree;
    hide OthersKept;
    hide OwnedBy;
    BlockAdded(nodes, count, heap, addr, bytes);
    BlockStays(nodes, count, heap, addr, bytes, nodes', heap2);
    BlockDropped(nodes', count', heap2, addr);
    Around(nodes, heap, heap[addr := bytes], nodes', heap2, heap2 - {addr}, name, bytes);
  }

  lemma Around(nodes: seq<Node>, heap: Heap, heap1: Heap, nodes': seq<Node>, heap2: Heap, heap': Heap, name: seq<byte>,
               bytes: seq<byte>)
    requires SameTree(nodes, heap, nodes, heap1) && SameTree(nodes', heap2, nodes', heap')
    ensures Written(nodes, heap1, nodes', heap2, name, bytes) ==> Written(nodes, heap, nodes', heap', name, bytes)
    ensures DirsAdded(nodes, heap1, nodes', heap2, Parent(name)) ==> DirsAdded(nodes, heap, nodes', heap', Parent(name))
  {
  }

  predicate NullWithSize(src: Source) { src.Missing? && src.size > 0 }

  function OldBytes(e: Entry): seq<byte> { if e.File? then e.bytes else [] }

  lemma GivenBytes(bytes: seq<byte>)
    ensures Bytes(Given(bytes)) == bytes
  {
  }

  ghost predicate Removable(nodes: seq<Node>, heap: Heap, name: seq<byte>) {
    && Look(nodes, heap, name) != Absent
    && (Look(nodes, heap, name) == Dir ==> forall p: seq<byte> :: Parent(p) == name ==> Look(nodes, heap, p) == Absent)
  }

  /** The file has these bytes, it was no directory before, and otherwise only directories on the way to it are new. */
  ghost predicate Written(nodes: seq<Node>, heap: Heap, nodes': seq<Node>, heap': Heap, name: seq<byte>,
                          bytes: seq<byte>) {
    && Look(nodes', heap', name) == File(bytes) && Look(nodes, heap, name) != Dir
    && forall p: seq<byte> :: p != name ==>
         (Look(nodes', heap', p) == Look(nodes, heap, p)
          || (Look(nodes, heap, p) == Absent && Look(nodes', heap', p) == Dir && p != [] && AtOrUnder(Parent(name), p)))
  }

  lemma NothingAdded(nodes: seq<Node>, heap: Heap, d: seq<byte>)
    ensures DirsAdded(nodes, heap, nodes, heap, d)
  {
  }

  lemma DirFound(nodes: seq<Node>, heap: Heap, p: seq<byte>)
    requires Look(nodes, heap, p) == Dir
    ensures 0 <= Find(nodes, p, 0) < |nodes| && nodes[Find(nodes, p, 0)].dir
  {
  }

  lemma DirsThenFile(nodes: seq<Node>, heap: Heap, nodes1: seq<Node>, heap1: Heap, nodes2: seq<Node>, heap2: Heap,
                     name: seq<byte>, bytes: seq<byte>)
    requires DirsAdded(nodes, heap, nodes1, heap1, Parent(name))
             && Wrote(nodes1, heap1, nodes2, heap2, name, File(bytes))
    requires Look(nodes1, heap1, name) != Dir
    ensures Written(nodes, heap, nodes2, heap2, name, bytes)
  {
  }

  lemma DirsThenSame(nodes: seq<Node>, heap: Heap, nodes1: seq<Node>, heap1: Heap, nodes2: seq<Node>, heap2: Heap,
                     d: seq<byte>)
    requires DirsAdded(nodes, heap, nodes1, heap1, d) && SameTree(nodes1, heap1, nodes2, heap2)
    ensures DirsAdded(nodes, heap, nodes2, heap2, d)
  {
  }

  function Without(heap: Heap, was: Node): Heap {
    if was.owned && was.data.Block? then heap - {was.data.addr} else heap
  }

  /** The file in slot `index`, if there is one, is the only node with the path, and its payload can be given up. */
  ghost predicate Replaceable(nodes: seq<Node>, heap: Heap, index: int, path: seq<byte>) {
    && index == Find(nodes, path, 0)
    && (index >= 0 ==> !nodes[index].dir)
    && (index >= 0 && nodes[index].owned ==> nodes[index].data.Block? && nodes[index].data.addr in heap)
    && (index >= 0 ==> Find(nodes[index := nodes[index].(owned := false)], path, 0) == index)
    && (forall j :: 0 <= j < |nodes| && j != index ==> !IsAt(nodes, j, path))
    && (forall j :: 0 <= j < |nodes| && !nodes[j].used ==> !nodes[j].owned)
  }

  lemma FileReplaceable(nodes: seq<Node>, count: nat, heap: Heap, heap': Heap, path: seq<byte>)
    requires Valid(nodes, count, heap) && forall addr :: addr in heap ==> addr in heap'
    requires Find(nodes, path, 0) >= 0 ==> !nodes[Find(nodes, path, 0)].dir
    ensures Replaceable(nodes, heap', Find(nodes, path, 0), path)
  {
    hide Unique;
    hide AllParented;
    hide NodesOk;
    hide OneOwner;
    var index := Find(nodes, path, 0);
    FoundEntry(nodes, heap, path);
    hide Find;
    FreeNotOwned(nodes, count, heap);
    OnlyOneAt(nodes, path);
    if index >= 0 {
      if nodes[index].owned {
        OwnerApart(nodes, count, heap, index, index);
      }
      FindAfterPut(nodes, index, nodes[index].(owned := false), path);
    }
  }

  /** `n` took its place: that of the file it replaces, or a free one. */
  ghost predicate Stored(was: seq<Node>, now: seq<Node>, count: nat, slot: int, n: Node) {
    && 0 <= slot < count <= |was| && now == was[slot := n]
      && (was[slot].used ==> was[slot].path == n.path && !was[slot].dir)
    && forall j :: 0 <= j < |was| && j != slot ==> !IsAt(was, j, n.path)
  }

  lemma OnlyOneAt(nodes: seq<Node>, p: seq<byte>)
    requires Unique(nodes)
    ensures forall j :: 0 <= j < |nodes| && j != Find(nodes, p, 0) ==> !IsAt(nodes, j, p)
  {
    forall j | 0 <= j < |nodes| && j != Find(nodes, p, 0) ensures !IsAt(nodes, j, p) {
      if IsAt(nodes, j, p) {
        FindIs(nodes, p, j);
      }
    }
  }

  lemma Unchanged(nodes: seq<Node>, heap: Heap)
    ensures OthersKept(nodes, heap, nodes, heap) && SameTree(nodes, heap, nodes, heap)
  {
  }

  lemma Bounds(nodes: seq<Node>, count: nat, heap: Heap)
    requires Valid(nodes, count, heap)
    ensures |nodes| == MAX_NODES && count <= MAX_NODES && forall i :: count <= i < |nodes| ==> !nodes[i].used
  {
  }

  lemma CountGrows(nodes: seq<Node>, count: nat, count': nat, heap: Heap)
    requires Valid(nodes, count, heap) && count <= count' <= MAX_NODES
    ensures Valid(nodes, count', heap)
  {
  }

  ghost predicate Attached(was: seq<Node>, now: seq<Node>, count: nat, n: Node, heap: Heap, heap': Heap) {
    exists slot: nat :: Stored(was, now, count, slot, n) && heap' == Without(heap, was[slot])
  }

  lemma AttachedAt(was: seq<Node>, now: seq<Node>, count: nat, slot: nat, n: Node, heap: Heap, heap': Heap)
    requires Stored(was, now, count, slot, n) && heap' == Without(heap, was[slot])
    ensures Attached(was, now, count, n, heap, heap')
  {
  }

  lemma NoSlotAt(nodes: seq<Node>, heap: Heap, name: seq<byte>, index: int)
    requires index == Find(nodes, name, 0) && index < 0 && Full(nodes)
    ensures NoSlot(nodes, heap, name)
  {
  }

  lemma RefusedFull(nodes: seq<Node>, path: seq<byte>, index: int)
    requires Refused(nodes, path, false) && |path| < PATH_MAX && index == Find(nodes, path, 0) && index < 0
    ensures Full(nodes)
  {
  }

  lemma AttachedFile(was: seq<Node>, count0: nat, count: nat, heap0: Heap, heap1: Heap, now: seq<Node>, heap: Heap,
                     n: Node, bytes: seq<byte>)
    requires Valid(was, count0, heap0) && count0 <= count <= MAX_NODES && Attached(was, now, count, n, heap1, heap)
    requires Holds(n, heap0, bytes) && heap1 == (if n.owned then heap0[n.data.addr := bytes] else heap0)
    requires Tidy(n.path) && |n.path| < PATH_MAX && IsAt(was, n.parent, Parent(n.path)) && was[n.parent].dir
    ensures Valid(now, count, heap) && OthersKept(was, heap0, now, heap)
    ensures Wrote(was, heap0, now, heap, n.path, File(bytes))
  {
    hide Valid;
    hide Tidy;
    hide Parent;
    hide OthersKept;
    hide Wrote;
    var slot: nat :| Stored(was, now, count, slot, n) && heap == Without(heap1, was[slot]);
    CountGrows(was, count0, count, heap0);
    FileWritten(was, count, heap0, slot, n, bytes);
    assert heap == Exchanged(heap0, was[slot], n, bytes);
  }

  lemma PayloadApart(nodes: seq<Node>, count: nat, heap: Heap, index: int, n: Node)
    requires Valid(nodes, count, heap) && index < |nodes| && (n.owned ==> n.data.Block? && n.data.addr !in heap)
    ensures n.owned && index >= 0 && nodes[index].owned ==> nodes[index].data != n.data
  {
    if index >= 0 && nodes[index].owned {
      OwnerApart(nodes, count, heap, index, index);
    }
  }

  lemma FreeNotOwned(nodes: seq<Node>, count: nat, heap: Heap)
    requires Valid(nodes, count, heap)
    ensures forall i :: 0 <= i < |nodes| && !nodes[i].used ==> !nodes[i].owned
  {
    forall i | 0 <= i < |nodes| && !nodes[i].used ensures !nodes[i].owned {
      assert NodeOk(nodes[i], heap);
    }
  }

  function SizeOf(src: Source): nat { if src.Missing? then src.size else |src.bytes| }

  function Bytes(src: Source): seq<byte> { if src.Missing? then [] else src.bytes }

  /** A normal form has no terminator inside. */
  lemma NameTerminated(path: seq<byte>)
    requires NoNul(path)
    ensures NoNul(Name(path))
  {
    PiecesNoNul(path);
    JoinNoNul(Components(path));
  }

  lemma {:induction false} PiecesNoNul(p: seq<byte>)
    requires NoNul(p)
    ensures forall c :: c in Components(p) ==> NoNul(c)
    decreases |p|
  {
    var e := FirstSlash(p);
    FirstPiece(p, e);
    if e < |p| {
      assert p[e..] == [SLASH] + p[e + 1..];
      SkipSlash(p[e + 1..]);
      PiecesNoNul(p[e + 1..]);
    } else {
      assert p[e..] == [] && Split([]) == [[]];
    }
  }

  lemma {:induction false} JoinNoNul(cs: seq<seq<byte>>)
    requires forall c :: c in cs ==> NoNul(c)
    ensures NoNul(Join(cs))
    decreases |cs|
  {
    if |cs| > 0 {
      assert NoNul(cs[|cs| - 1]);
      JoinNoNul(cs[..|cs| - 1]);
    }
  }

  /** A directory that is refused on the way to `d`: a file has its name, or the table is full. */
  lemma RefusedBlocks(nodes: seq<Node>, heap: Heap, p: seq<byte>, d: seq<byte>)
    requires Refused(nodes, p, true) && |p| < PATH_MAX && AtOrUnder(d, p) && p != []
    ensures Blocked(nodes, heap, d)
  {
    OnTheWayIs(d, p);
    FoundEntry(nodes, heap, p);
  }

  lemma LookDir(nodes: seq<Node>, count: nat, heap: Heap, i: nat, p: seq<byte>)
    requires Valid(nodes, count, heap) && IsAt(nodes, i, p) && nodes[i].dir
    ensures Look(nodes, heap, p) == Dir
  {
    FindIs(nodes, p, i);
  }

  /** After the component before place `i`, `prefix` is what has been gone through of `d`. */
  ghost predicate Reached(d: seq<byte>, i: nat, prefix: seq<byte>) {
    && i <= |d| && Tidy(prefix) && prefix <= d
    && (if i == 0 then prefix == []
        else prefix != [] && ((i == |prefix| + 1 && d[|prefix|] == SLASH) || i == |prefix| == |d|))
  }

  lemma WalkBegins(nodes: seq<Node>, count: nat, heap: Heap, d: seq<byte>)
    requires Valid(nodes, count, heap)
    ensures Reached(d, 0, []) && IsAt(nodes, 0, []) && nodes[0].dir && |nodes| == MAX_NODES
  {
  }

  lemma WalkEnds(d: seq<byte>, prefix: seq<byte>)
    requires Reached(d, |d|, prefix)
    ensures Tidy(d) ==> prefix == d
  {
  }

  lemma NextPrefix(d: seq<byte>, start: nat, i: nat, prefix: seq<byte>)
    requires Reached(d, start, prefix) && start < i <= |d| && (i < |d| ==> d[i] == SLASH)
             && forall k :: start <= k < i ==> d[k] != SLASH
    ensures var next := (if prefix == [] then [] else prefix + [SLASH]) + d[start..i];
      && next == d[..i] && Tidy(next) && Parent(next) == prefix && AtOrUnder(d, next)
      && Reached(d, if i < |d| then i + 1 else i, next)
  {
    TidyExtend(prefix, d[start..i]);
    if prefix == [] {
      assert d[start..i] == d[..i];
    } else {
      assert prefix + [SLASH] + d[start..i] == d[..i];
    }
  }

  lemma DirMade(nodes: seq<Node>, count: nat, heap: Heap, slot: nat, prefix: seq<byte>, parent: nat)
    requires Valid(nodes, count, heap) && slot < count && !nodes[slot].used && Find(nodes, prefix, 0) < 0
    requires prefix != [] && Tidy(prefix) && |prefix| < PATH_MAX && IsAt(nodes, parent, Parent(prefix))
             && nodes[parent].dir
    ensures var nodes' := nodes[slot := Node(true, true, parent, false, Null, 0, prefix)];
      && Valid(nodes', count, heap) && OthersKept(nodes, heap, nodes', heap)
      && Look(nodes, heap, prefix) == Absent && Wrote(nodes, heap, nodes', heap, prefix, Dir)
  {
    var n := Node(true, true, parent, false, Null, 0, prefix);
    assert NodeOk(nodes[slot], heap) && NodeOk(n, heap);
    hide Tidy;
    PlainPutKeepsOthers(nodes, heap, slot, n);
    hide NodeOk;
    hide Valid;
    hide OthersKept;
    hide Wrote;
    PutKeeps(nodes, count, heap, slot, n);
  }
}
