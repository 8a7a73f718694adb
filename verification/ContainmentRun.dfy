/** Runs of a contained session over the shared graph, its unlink guard, and the reap. */
module ContainmentRun {
  import opened Machine
  import opened SotfsGraph
  import opened Containment

  const ENOENT: int := -2

  /** lucas_sotfs_unlink_root for an isolated session.  The guard looks up the owner of the
      inode numbered like the EDGE that sotfs_find_edge returned. */
  function SessionUnlink(fs: Fs, s: U32, parent: int, name: string): (r: (int, Fs)) {
    var k := FindEdge(fs.edges, parent, name);
    if k == 0 then (ENOENT, fs)
    else if Owner(fs, k) != s then (0, fs)
    else
      var (rc, g) := RewriteUnlink(fs, parent, name);
      if rc != OK then (ENOENT, g) else (0, g)
  }

  /** op_write by an isolated session: its own files are written in the graph, a write to any
      other file goes to the overlay and leaves the graph alone. */
  function SessionWrite(fs: Fs, s: U32, id: int, off: nat, buf: seq<Byte>): (f: Fs) {
    if Owner(fs, id) == s then WriteFile(fs, id, off, buf).1 else fs
  }

  datatype Op =
    | MakeNode(parent: int, name: string, kind: Kind, mode: nat)
    | OpenNode(id: int)
    | CloseNode(id: int)
    | WriteNode(id: int, off: nat, buf: seq<Byte>)
    | UnlinkNode(parent: int, name: string)

  function Step(fs: Fs, s: U32, op: Op): (f: Fs) {
    match op
    case MakeNode(p, name, kind, mode) => Create(fs, s, p, name, kind, mode).1
    case OpenNode(id) => OpenInode(fs, id)
    case CloseNode(id) => CloseInode(fs, id)
    case WriteNode(id, off, buf) => SessionWrite(fs, s, id, off, buf)
    case UnlinkNode(p, name) => SessionUnlink(fs, s, p, name).1
  }

  /** The unlink guard fires on somebody else's file: the edge's number happens to be the
      number of an inode the session owns, and the file behind the edge is not its own. */
  predicate GuardMisfires(fs: Fs, s: U32, parent: int, name: string) {
    var k := FindEdge(fs.edges, parent, name);
    && k != 0 && Owner(fs, k) == s && Owner(fs, fs.edges[k].child) != s
    && name != "" && parent in fs.inodes && fs.inodes[parent].kind == Dir
    && fs.edges[k].child in fs.inodes && fs.inodes[fs.edges[k].child].kind == File
  }

  /** The unlink guard does not misfire, and a close is not the last one of somebody else's
      unlinked file, which it would delete. */
  predicate Allowed(fs: Fs, s: U32, op: Op) {
    match op
    case UnlinkNode(p, name) => !GuardMisfires(fs, s, p, name)
    case CloseNode(id) => id in fs.inodes && fs.inodes[id].orphan && fs.inodes[id].opens <= 1 ==> Owner(fs, id) == s
    case _ => true
  }

  ghost predicate Kept(fs: Fs, g: Fs, s: U32) {
    Wf(g, s) && Same(fs, g, s)
  }

  // ---- every operation keeps everybody else's part ----------------------------------

  /** A new node: fresh ids, and no entry of that name in the directory. */
  predicate Linkable(fs: Fs, p: int, name: string, id: int, k: int) {
    && 1 <= id <= MAX_INODES && id !in fs.inodes && 1 <= k <= MAX_EDGES && k !in fs.edges
    && p in fs.inodes && fs.inodes[p].kind == Dir
    && forall j :: j in fs.edges ==> !IsEdge(fs.edges[j], p, name)
  }

  lemma LinkEdges(fs: Fs, s: U32, p: int, name: string, kind: Kind, mode: nat, id: int, k: int)
    requires EdgesOk(fs) && Linkable(fs, p, name, id, k)
    ensures EdgesOk(Link(fs, s, p, name, kind, mode, id, k))
  {
    var g := Link(fs, s, p, name, kind, mode, id, k);
    assert forall j :: j in g.edges ==> j == k || (j in fs.edges && g.edges[j] == fs.edges[j]);
    assert forall i :: i in fs.inodes ==> g.inodes[i] == fs.inodes[i];
  }

  lemma LinkClosed(fs: Fs, s: U32, p: int, name: string, kind: Kind, mode: nat, id: int, k: int)
    requires s != 0 && Wf(fs, s) && Linkable(fs, p, name, id, k)
    ensures Closed(Link(fs, s, p, name, kind, mode, id, k), s)
  {
    var g := Link(fs, s, p, name, kind, mode, id, k);
    forall j | j in g.edges
      ensures Owner(g, g.edges[j].parent) == s ==> Owner(g, g.edges[j].child) == s
    {
      if j != k {
        assert g.edges[j].parent != id && g.edges[j].child != id;
      }
    }
  }

  lemma LinkSame(fs: Fs, s: U32, p: int, name: string, kind: Kind, mode: nat, id: int, k: int)
    requires s != 0 && Wf(fs, s) && Linkable(fs, p, name, id, k)
    ensures Same(fs, Link(fs, s, p, name, kind, mode, id, k), s)
  {
    var g := Link(fs, s, p, name, kind, mode, id, k);
    assert forall i :: i != id ==> Owner(g, i) == Owner(fs, i);
    forall j
      ensures ForeignEdge(fs, s, j) <==> ForeignEdge(g, s, j)
    {
      assert j in fs.edges ==> fs.edges[j].child != id;
    }
    forall j
      ensures ForeignBlock(fs, s, j) <==> ForeignBlock(g, s, j)
    {
      assert j in fs.blocks ==> fs.blocks[j].file != id;
    }
    assert forall d :: Page(g, d) == Page(fs, d);
  }

  lemma LinkKeeps(fs: Fs, s: U32, p: int, name: string, kind: Kind, mode: nat, id: int, k: int)
    requires s != 0 && Wf(fs, s) && Linkable(fs, p, name, id, k)
    ensures Kept(fs, Link(fs, s, p, name, kind, mode, id, k), s)
  {
    var g := Link(fs, s, p, name, kind, mode, id, k);
    LinkEdges(fs, s, p, name, kind, mode, id, k);
    LinkClosed(fs, s, p, name, kind, mode, id, k);
    LinkSame(fs, s, p, name, kind, mode, id, k);
    assert BlocksOk(g);
  }

  lemma CreateKeeps(fs: Fs, s: U32, p: int, name: string, kind: Kind, mode: nat)
    requires s != 0 && Wf(fs, s)
    ensures Kept(fs, Create(fs, s, p, name, kind, mode).1, s)
  {
    var (rc, g) := Create(fs, s, p, name, kind, mode);
    if rc <= 0 {
      HintsKeep(fs, g, s);
    } else {
      var k := NextFree(fs.edges.Keys, fs.nextEdge, MAX_EDGES);
      var h := fs.(nextInode := rc % MAX_INODES, nextEdge := k % MAX_EDGES);
      HintsKeep(fs, h, s);
      LinkKeeps(h, s, p, name, kind, mode, rc, k);
      SameTransitive(fs, h, g, s);
    }
  }

  lemma HintsKeep(fs: Fs, g: Fs, s: U32)
    requires Wf(fs, s)
    requires g == fs.(nextInode := g.nextInode, nextEdge := g.nextEdge, nextBlock := g.nextBlock)
    ensures Kept(fs, g, s)
  {
    assert forall i :: Owner(g, i) == Owner(fs, i);
    assert forall d :: Page(g, d) == Page(fs, d);
  }

  /** Open counts are invisible. */
  lemma OpensKeep(fs: Fs, s: U32, id: int, opens: nat)
    requires Wf(fs, s) && id in fs.inodes
    ensures Kept(fs, fs.(inodes := fs.inodes[id := fs.inodes[id].(opens := opens)]), s)
  {
    var g := fs.(inodes := fs.inodes[id := fs.inodes[id].(opens := opens)]);
    assert Wf(g, s) by {
      assert forall i :: Owner(g, i) == Owner(fs, i);
      assert forall i :: i in fs.inodes ==>
        g.inodes[i].kind == fs.inodes[i].kind && g.inodes[i].orphan == fs.inodes[i].orphan;
    }
    assert forall d :: Page(g, d) == Page(fs, d);
  }

  lemma FreeStorageWf(fs: Fs, s: U32, id: int)
    requires Wf(fs, s) && id in fs.inodes
    requires forall k :: k in fs.edges ==> fs.edges[k].child != id && fs.edges[k].parent != id
    ensures Wf(FreeStorage(fs, id), s)
  {
    var g := FreeStorage(fs, id);
    assert forall i :: Owner(g, i) == Owner(fs, i);
    assert forall k :: k in g.blocks ==> k in fs.blocks && g.blocks[k] == fs.blocks[k];
  }

  lemma FreeStorageSame(fs: Fs, s: U32, id: int)
    requires id in fs.inodes && Owner(fs, id) == s
    ensures Same(fs, FreeStorage(fs, id), s)
  {
    var g := FreeStorage(fs, id);
    assert forall i :: Owner(g, i) == Owner(fs, i);
    assert forall d :: Page(g, d) == Page(fs, d);
    forall k
      ensures ForeignBlock(fs, s, k) <==> ForeignBlock(g, s, k)
    {
    }
  }

  lemma NotAParent(fs: Fs, id: int)
    requires EdgesOk(fs) && id in fs.inodes && fs.inodes[id].orphan && fs.inodes[id].kind == File
    ensures forall k :: k in fs.edges ==> fs.edges[k].child != id && fs.edges[k].parent != id
  {
  }

  /** A close frees storage only for the session's own unlinked files. */
  lemma CloseKeeps(fs: Fs, s: U32, id: int)
    requires Wf(fs, s) && id in fs.inodes && Allowed(fs, s, CloseNode(id))
    ensures Kept(fs, CloseInode(fs, id), s)
  {
    var opens := if fs.inodes[id].opens > 0 then fs.inodes[id].opens - 1 else 0;
    var g := fs.(inodes := fs.inodes[id := fs.inodes[id].(opens := opens)]);
    OpensKeep(fs, s, id, opens);
    if opens == 0 && fs.inodes[id].orphan {
      NotAParent(g, id);
      FreeStorageWf(g, s, id);
      FreeStorageSame(g, s, id);
      SameTransitive(fs, g, FreeStorage(g, id), s);
    }
  }

  lemma CutKeeps(fs: Fs, s: U32, k: int)
    requires Wf(fs, s) && k in fs.edges && Owner(fs, fs.edges[k].child) == s
    ensures Kept(fs, fs.(edges := fs.edges - {k}), s)
  {
    var g := fs.(edges := fs.edges - {k});
    assert forall i :: Owner(g, i) == Owner(fs, i);
    assert forall d :: Page(g, d) == Page(fs, d);
    assert forall j :: j in g.edges ==> j in fs.edges && g.edges[j] == fs.edges[j];
  }

  /** A session's own inode may change, but it may be orphaned only when nothing links to it. */
  lemma OwnInodeKeeps(fs: Fs, s: U32, id: int, n: Inode)
    requires Wf(fs, s) && id in fs.inodes && Owner(fs, id) == s
    requires n.kind == fs.inodes[id].kind && (n.orphan ==> n.kind == File)
    requires n.orphan ==> forall k :: k in fs.edges ==> fs.edges[k].child != id
    ensures Kept(fs, fs.(inodes := fs.inodes[id := n]), s)
  {
    var g := fs.(inodes := fs.inodes[id := n]);
    assert forall i :: Owner(g, i) == Owner(fs, i);
    assert forall d :: Page(g, d) == Page(fs, d);
    assert EdgesOk(g) by {
      assert forall i :: i in fs.inodes ==> g.inodes[i].kind == fs.inodes[i].kind;
    }
  }

  lemma UnlinkedKeeps(fs: Fs, s: U32, k: int)
    requires Wf(fs, s) && k in fs.edges
    requires var id := fs.edges[k].child; Owner(fs, id) == s && fs.inodes[id].kind == File
    ensures Kept(fs, Unlinked(fs, k, fs.edges[k].child), s)
  {
    var id := fs.edges[k].child;
    var cut := fs.(edges := fs.edges - {k});
    var n := fs.inodes[id].(nlink := fs.inodes[id].nlink - 1);
    CutKeeps(fs, s, k);
    assert forall j :: j in cut.edges ==> cut.edges[j].child != id && cut.edges[j].parent != id;
    if n.nlink > 0 {
      OwnInodeKeeps(cut, s, id, n);
    } else if n.opens > 0 {
      OwnInodeKeeps(cut, s, id, n.(orphan := true));
    } else {
      FreeStorageWf(cut, s, id);
      FreeStorageSame(cut, s, id);
    }
    SameTransitive(fs, cut, Unlinked(fs, k, id), s);
  }

  lemma UnlinkKeeps(fs: Fs, s: U32, p: int, name: string)
    requires Wf(fs, s) && !GuardMisfires(fs, s, p, name)
    ensures Kept(fs, SessionUnlink(fs, s, p, name).1, s)
  {
    var k := FindEdge(fs.edges, p, name);
    if k != 0 && Owner(fs, k) == s && RewriteUnlink(fs, p, name).0 == OK {
      UnlinkedKeeps(fs, s, k);
    } else {
      assert SessionUnlink(fs, s, p, name).1 == fs;
      HintsKeep(fs, fs, s);
    }
  }

  // ---- writes to own files ----------------------------------------------------------

  lemma AddBlockKeeps(fs: Fs, s: U32, k: int, b: Block)
    requires Wf(fs, s) && b.file in fs.inodes && Owner(fs, b.file) == s
    requires 1 <= k <= MAX_BLOCKS && k !in fs.blocks && b.disk !in fs.used
    ensures Kept(fs, AddBlock(fs, k, b), s)
  {
    var g := AddBlock(fs, k, b);
    assert forall i :: Owner(g, i) == Owner(fs, i);
    assert forall d :: Page(g, d) == Page(fs, d);
    assert BlocksOk(g) by {
      assert forall j :: j in g.blocks ==> j == k || (j in fs.blocks && g.blocks[j] == fs.blocks[j]);
    }
  }

  /** Kept, and nothing but mappings, bitmap and pages touched. */
  ghost predicate DataKept(fs: Fs, g: Fs, s: U32) {
    Kept(fs, g, s) && g.inodes == fs.inodes && g.owner == fs.owner
  }

  lemma DataKeptTransitive(a: Fs, b: Fs, c: Fs, s: U32)
    requires DataKept(a, b, s) && DataKept(b, c, s)
    ensures DataKept(a, c, s)
  {
    SameTransitive(a, b, c, s);
  }

  predicate Mine(fs: Fs, s: U32, file: int) {
    Wf(fs, s) && file in fs.inodes && Owner(fs, file) == s
  }

  lemma DataKeptMine(fs: Fs, g: Fs, s: U32, file: int)
    requires Mine(fs, s, file)
    ensures DataKept(fs, fs, s)
    ensures DataKept(fs, g, s) ==> Mine(g, s, file)
  {
    HintsKeep(fs, fs, s);
  }

  lemma BlockForKeeps(fs: Fs, s: U32, file: int, off: nat, orig: nat)
    requires Mine(fs, s, file)
    ensures DataKept(fs, BlockFor(fs, file, off, orig).1, s)
  {
    HintsKeep(fs, fs, s);
    var k := NextFree(fs.blocks.Keys, fs.nextBlock, MAX_BLOCKS);
    var d := DiskAlloc(fs.used, fs.diskBlocks);
    if k != 0 && d != 0 {
      AddBlockKeeps(fs, s, k, Block(file, off, d));
    }
  }

  lemma PatchKeeps(fs: Fs, s: U32, k: int, at: nat, chunk: seq<Byte>)
    requires k in fs.blocks && Mine(fs, s, fs.blocks[k].file)
    requires at + |chunk| <= BLOCK
    ensures DataKept(fs, Patch(fs, fs.blocks[k].disk, at, chunk), s)
  {
    var d := fs.blocks[k].disk;
    var g := Patch(fs, d, at, chunk);
    assert forall i :: Owner(g, i) == Owner(fs, i);
    assert forall e :: e != d ==> Page(g, e) == Page(fs, e);
  }

  /** A round maps the block, then patches its page. */
  lemma ChunkUnfolds(fs: Fs, file: int, cur: nat, chunk: seq<Byte>, orig: nat)
    requires cur % BLOCK + |chunk| <= BLOCK
    ensures var r := BlockFor(fs, file, cur - cur % BLOCK, orig);
            WriteChunk(fs, file, cur, chunk, orig)
            == if r.0 == 0 then (false, r.1) else (true, Patch(r.1, r.1.blocks[r.0].disk, cur % BLOCK, chunk))
  {
  }

  lemma ChunkKeeps(fs: Fs, s: U32, file: int, cur: nat, chunk: seq<Byte>, orig: nat)
    requires Mine(fs, s, file)
    requires cur % BLOCK + |chunk| <= BLOCK
    ensures DataKept(fs, WriteChunk(fs, file, cur, chunk, orig).1, s)
  {
    hide Mine, DataKept, WriteChunk, BlockFor, Patch;
    var r := BlockFor(fs, file, cur - cur % BLOCK, orig);
    ChunkUnfolds(fs, file, cur, chunk, orig);
    BlockForKeeps(fs, s, file, cur - cur % BLOCK, orig);
    if r.0 != 0 {
      DataKeptMine(fs, r.1, s, file);
      PatchKeeps(r.1, s, r.0, cur % BLOCK, chunk);
      DataKeptTransitive(fs, r.1, Patch(r.1, r.1.blocks[r.0].disk, cur % BLOCK, chunk), s);
    }
  }

  /** One round of the write loop, then the rest of it. */
  lemma LoopUnfolds(fs: Fs, file: int, off: nat, buf: seq<Byte>, orig: nat, done: nat)
    requires done <= |buf|
    ensures WriteLoop(fs, file, off, buf, orig, done) ==
            if done == |buf| then (done, fs)
            else
              var n := ChunkLen(off + done, |buf| - done);
              var r := WriteChunk(fs, file, off + done, buf[done..done + n], orig);
              if r.0 then WriteLoop(r.1, file, off, buf, orig, done + n) else (done, r.1)
  {
  }

  lemma {:induction false} LoopKeeps(fs: Fs, s: U32, file: int, off: nat, buf: seq<Byte>, orig: nat, done: nat)
    requires Mine(fs, s, file) && done <= |buf|
    ensures DataKept(fs, WriteLoop(fs, file, off, buf, orig, done).1, s)
    decreases |buf| - done
  {
    hide *;
    DataKeptMine(fs, fs, s, file);
    LoopUnfolds(fs, file, off, buf, orig, done);
    if done < |buf| {
      var n := ChunkLen(off + done, |buf| - done);
      var r := WriteChunk(fs, file, off + done, buf[done..done + n], orig);
      ChunkKeeps(fs, s, file, off + done, buf[done..done + n], orig);
      if r.0 {
        DataKeptMine(fs, r.1, s, file);
        LoopKeeps(r.1, s, file, off, buf, orig, done + n);
        DataKeptTransitive(fs, r.1, WriteLoop(r.1, file, off, buf, orig, done + n).1, s);
      }
    }
  }

  lemma GrowKeeps(fs: Fs, s: U32, file: int, end: nat)
    requires Wf(fs, s) && Owner(fs, file) == s
    ensures Kept(fs, Grow(fs, file, end), s)
  {
    HintsKeep(fs, fs, s);
    if file in fs.inodes && end > fs.inodes[file].size {
      OwnInodeKeeps(fs, s, file, fs.inodes[file].(size := end));
    }
  }

  lemma DataThenGrow(fs: Fs, g: Fs, s: U32, file: int, end: nat)
    requires Mine(fs, s, file) && DataKept(fs, g, s)
    ensures Kept(fs, g, s) && Kept(fs, Grow(g, file, end), s)
  {
    GrowKeeps(g, s, file, end);
    SameTransitive(fs, g, Grow(g, file, end), s);
  }

  /** A write that reaches the graph is the loop, then the size update if it was full. */
  lemma WriteUnfolds(fs: Fs, s: U32, file: int, off: nat, buf: seq<Byte>)
    ensures var g := SessionWrite(fs, s, file, off, buf);
            || g == fs
            || (Owner(fs, file) == s && file in fs.inodes
                && var r := WriteLoop(fs, file, off, buf, fs.inodes[file].size, 0);
                   g == r.1 || g == Grow(r.1, file, off + r.0))
  {
  }

  lemma WriteKeeps(fs: Fs, s: U32, file: int, off: nat, buf: seq<Byte>)
    requires Wf(fs, s)
    ensures Kept(fs, SessionWrite(fs, s, file, off, buf), s)
  {
    WriteUnfolds(fs, s, file, off, buf);
    HintsKeep(fs, fs, s);
    assert file in fs.inodes && Owner(fs, file) == s ==> Mine(fs, s, file);
    hide *;
    if Owner(fs, file) == s && file in fs.inodes {
      var r := WriteLoop(fs, file, off, buf, fs.inodes[file].size, 0);
      LoopKeeps(fs, s, file, off, buf, fs.inodes[file].size, 0);
      DataThenGrow(fs, r.1, s, file, off + r.0);
    }
  }

  // ---- runs -------------------------------------------------------------------------

  lemma OpenKeeps(fs: Fs, s: U32, id: int)
    requires Wf(fs, s)
    ensures Kept(fs, OpenInode(fs, id), s)
  {
    HintsKeep(fs, fs, s);
    if id in fs.inodes && fs.inodes[id].opens < 255 {
      OpensKeep(fs, s, id, fs.inodes[id].opens + 1);
    }
  }

  lemma StepKeeps(fs: Fs, s: U32, op: Op)
    requires s != 0 && Wf(fs, s) && Allowed(fs, s, op)
    ensures Kept(fs, Step(fs, s, op), s)
  {
    hide Wf, Kept, Create, OpenInode, SessionWrite, SessionUnlink;
    match op {
      case MakeNode(p, name, kind, mode) => CreateKeeps(fs, s, p, name, kind, mode);
      case OpenNode(id) => OpenKeeps(fs, s, id);
      case CloseNode(id) =>
        if id in fs.inodes {
          CloseKeeps(fs, s, id);
        } else {
          HintsKeep(fs, fs, s);
        }
      case WriteNode(id, off, buf) => WriteKeeps(fs, s, id, off, buf);
      case UnlinkNode(p, name) => UnlinkKeeps(fs, s, p, name);
    }
  }

  predicate AllowedRun(fs: Fs, s: U32, ops: seq<Op>)
    decreases |ops|
  {
    ops == [] || (Allowed(fs, s, ops[0]) && AllowedRun(Step(fs, s, ops[0]), s, ops[1..]))
  }

  function Run(fs: Fs, s: U32, ops: seq<Op>): (f: Fs)
    decreases |ops|
  {
    if ops == [] then fs else Run(Step(fs, s, ops[0]), s, ops[1..])
  }

  lemma {:induction false} RunKeeps(fs: Fs, s: U32, ops: seq<Op>)
    requires s != 0 && Wf(fs, s) && AllowedRun(fs, s, ops)
    ensures Kept(fs, Run(fs, s, ops), s)
    decreases |ops|
  {
    if ops == [] {
      HintsKeep(fs, fs, s);
    } else {
      var g := Step(fs, s, ops[0]);
      StepKeeps(fs, s, ops[0]);
      RunKeeps(g, s, ops[1..]);
      SameTransitive(fs, g, Run(g, s, ops[1..]), s);
    }
  }

  /** Containment: whatever a session does, at every path from every root the operator (t = 0)
      and every other session see exactly what they saw before. */
  lemma RunIsInvisible(fs: Fs, s: U32, ops: seq<Op>, t: U32, root: int, path: seq<string>)
    requires s != 0 && s != t && Wf(fs, s) && AllowedRun(fs, s, ops)
    ensures Look(Run(fs, s, ops), t, root, path) == Look(fs, t, root, path)
  {
    RunKeeps(fs, s, ops);
    LookSame(fs, Run(fs, s, ops), s, t, root, path);
  }

  // ---- what a session gets ----------------------------------------------------------

  lemma LinkedIsFound(fs: Fs, k: int, e: Edge)
    requires EdgesOk(fs) && 1 <= k <= MAX_EDGES && k !in fs.edges && FindEdge(fs.edges, e.parent, e.name) == 0
    ensures FindEdge(fs.edges[k := e], e.parent, e.name) == k
  {
    assert IsEdge(fs.edges[k := e][k], e.parent, e.name);
  }

  /** A created node is there under its name, empty and the session's own, and nothing else
      has changed; a refused creation changes no node and no edge. */
  lemma CreateEffect(fs: Fs, s: U32, p: int, name: string, kind: Kind, mode: nat)
    requires EdgesOk(fs)
    ensures var (rc, g) := Create(fs, s, p, name, kind, mode);
            if rc > 0 then
              && rc !in fs.inodes
              && g.inodes == fs.inodes[rc := Inode(kind, mode, 0, if kind == Dir then 2 else 1, false, 0)]
              && FindEdge(g.edges, p, name) != 0 && g.edges[FindEdge(g.edges, p, name)] == Edge(p, rc, name)
              && (forall k :: k in fs.edges ==> k in g.edges && g.edges[k] == fs.edges[k])
              && (s != 0 ==> Owner(g, rc) == s) && g.blocks == fs.blocks
            else g.inodes == fs.inodes && g.edges == fs.edges && g.blocks == fs.blocks && g.owner == fs.owner
  {
    hide NextFree, FindEdge, EdgesOk;
    var r := Create(fs, s, p, name, kind, mode);
    if r.0 > 0 {
      var k := NextFree(fs.edges.Keys, fs.nextEdge, MAX_EDGES);
      LinkedIsFound(fs, k, Edge(p, r.0, name));
    }
  }

  /** A session's unlink of its own file, when the guard lets it through, takes the name away;
      while a handle is open the file's bytes stay. */
  lemma UnlinkEffect(fs: Fs, s: U32, p: int, name: string)
    requires Wf(fs, s)
    requires var k := FindEdge(fs.edges, p, name); k != 0 && Owner(fs, k) == s && RewriteUnlink(fs, p, name).0 == OK
    ensures var (rc, g) := SessionUnlink(fs, s, p, name);
            var id := fs.edges[FindEdge(fs.edges, p, name)].child;
            && rc == 0 && FindEdge(g.edges, p, name) == 0
            && (fs.inodes[id].opens > 0 ==>
                  id in g.inodes && g.inodes[id].opens == fs.inodes[id].opens && FileBytes(g, id) == FileBytes(fs, id))
            && (fs.inodes[id].opens == 0 && fs.inodes[id].nlink <= 1 ==> id !in g.inodes)
  {
    hide FileBytes;
    var (rc, g) := SessionUnlink(fs, s, p, name);
    var k := FindEdge(fs.edges, p, name);
    var id := fs.edges[k].child;
    assert g == Unlinked(fs, k, id);
    CutPath(fs, g, k);
    if fs.inodes[id].opens > 0 {
      BytesByBlocks(fs, g, id);
    }
  }

  /** A file's bytes depend on its size, its mappings and their pages alone. */
  lemma BytesByBlocks(fs: Fs, g: Fs, id: int)
    requires id in fs.inodes && id in g.inodes && g.blocks == fs.blocks && g.pages == fs.pages
    requires g.inodes[id].kind == fs.inodes[id].kind && g.inodes[id].size == fs.inodes[id].size
    ensures FileBytes(g, id) == FileBytes(fs, id)
  {
    assert forall d :: Page(g, d) == Page(fs, d);
  }

  /** The last close of an unlinked file deletes it; any other close keeps its bytes. */
  lemma CloseEffect(fs: Fs, id: int)
    requires id in fs.inodes
    ensures var g := CloseInode(fs, id);
            if fs.inodes[id].orphan && fs.inodes[id].opens <= 1 then
              id !in g.inodes && forall k :: k in g.blocks ==> g.blocks[k].file != id
            else id in g.inodes && FileBytes(g, id) == FileBytes(fs, id)
  {
    hide FileBytes;
    var g := CloseInode(fs, id);
    if id in g.inodes {
      BytesByBlocks(fs, g, id);
    }
  }

  // ---- the unlink guard -------------------------------------------------------------

  /** With the edge gone, so is the path. */
  lemma CutPath(fs: Fs, g: Fs, k: int)
    requires EdgesOk(fs) && k in fs.edges && g.edges == fs.edges - {k}
    ensures FindEdge(g.edges, fs.edges[k].parent, fs.edges[k].name) == 0
  {
    var j := FindEdge(g.edges, fs.edges[k].parent, fs.edges[k].name);
    assert forall i :: i in g.edges ==> i in fs.edges && g.edges[i] == fs.edges[i] && i != k;
  }

  /** A misfire takes a file away from its owner, or from the operator if it is a base file. */
  lemma MisfireIsSeen(fs: Fs, s: U32, p: int, name: string)
    requires Wf(fs, s) && GuardMisfires(fs, s, p, name)
    ensures var t := Owner(fs, fs.edges[FindEdge(fs.edges, p, name)].child);
            t != s && Look(fs, t, p, [name]).Found? && Look(SessionUnlink(fs, s, p, name).1, t, p, [name]) == NotFound
  {
    var k := FindEdge(fs.edges, p, name);
    var g := SessionUnlink(fs, s, p, name).1;
    assert g == Unlinked(fs, k, fs.edges[k].child) && g.edges == fs.edges - {k};
    CutPath(fs, g, k);
    assert [name][..0] == [];
    assert Resolve(fs, p, []) == p && Resolve(g, p, []) == p;
    assert Resolve(fs, p, [name]) == fs.edges[k].child;
    assert Resolve(g, p, [name]) == 0;
    assert 0 !in g.inodes;
  }

  ghost predicate Unseen(fs: Fs, g: Fs, s: U32) {
    forall t: U32, root: int, path: seq<string> :: t != s ==> Look(g, t, root, path) == Look(fs, t, root, path)
  }

  /** The documented promise of the guard, that a session can never delete a base file, holds
      exactly when the guard does not misfire. */
  lemma UnlinkUnseenIff(fs: Fs, s: U32, p: int, name: string)
    requires s != 0 && Wf(fs, s)
    ensures Unseen(fs, SessionUnlink(fs, s, p, name).1, s) <==> !GuardMisfires(fs, s, p, name)
  {
    var g := SessionUnlink(fs, s, p, name).1;
    if GuardMisfires(fs, s, p, name) {
      MisfireIsSeen(fs, s, p, name);
    } else {
      UnlinkKeeps(fs, s, p, name);
      forall t: U32, root: int, path: seq<string> | t != s
        ensures Look(g, t, root, path) == Look(fs, t, root, path)
      {
        LookSame(fs, g, s, t, root, path);
      }
    }
  }
}
