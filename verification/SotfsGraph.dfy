/**
 The shared file graph (src/sotfs/graph.c, rewrite.c, io.c): inodes, named parent-child
 edges and 4 KiB block mappings over a disk block store, plus the side table that records
 which session owns an inode (src/lucas/sotfs_session.c).  Ids are slot numbers plus one;
 0 means none.  All sessions and the operator share the one graph.
 */
module SotfsGraph {
  import opened Machine

  const MAX_INODES: nat := 1024
  const MAX_EDGES: nat := 2048
  const MAX_BLOCKS: nat := 49152
  const MAX_NAME: nat := 128
  const BLOCK: nat := 4096

  datatype Kind = File | Dir
  datatype Inode = Inode(kind: Kind, mode: nat, size: nat, nlink: int, orphan: bool, opens: nat)
  datatype Edge = Edge(parent: int, child: int, name: string)
  datatype Block = Block(file: int, off: nat, disk: int)

  /** `used` is the disk bitmap, `pages` the disk contents, `owner` the session side table. */
  datatype Fs = Fs(
    inodes: map<int, Inode>, edges: map<int, Edge>, blocks: map<int, Block>,
    nextInode: nat, nextEdge: nat, nextBlock: nat,
    used: set<int>, pages: map<int, seq<Byte>>, diskBlocks: nat,
    owner: map<int, U32>)

  const OK: int := 0
  const ERR_EXISTS: int := -1
  const ERR_NOENT: int := -2
  const ERR_NOTDIR: int := -3
  const ERR_ISDIR: int := -4
  const ERR_NOSPACE: int := -6
  const ERR_NAMETOOLONG: int := -7
  const ERR_INVAL: int := -8

  /** lucas_sotfs_session_owner: 0 is the base. */
  function Owner(fs: Fs, id: int): (s: U32) {
    if id in fs.owner then fs.owner[id] else 0
  }

  /** lucas_sotfs_session_visible: base nodes are visible to all, others to their owner. */
  predicate Visible(fs: Fs, id: int, session: U32) {
    Owner(fs, id) == 0 || Owner(fs, id) == session
  }

  // ---- searches ---------------------------------------------------------------------

  /** Next-fit allocation: the first free slot from the hint on, as an id, or 0. */
  function NextFree(taken: set<int>, hint: nat, max: nat, i: nat := 0): (id: int)
    requires 0 < max && i <= max
    ensures id == 0 || (1 <= id <= max && id !in taken)
    decreases max - i
  {
    if i == max then 0
    else
      var id := (hint + i) % max + 1;
      if id !in taken then id else NextFree(taken, hint, max, i + 1)
  }

  predicate IsEdge(e: Edge, parent: int, name: string) {
    e.parent == parent && e.name == name
  }

  /** sotfs_find_edge: the id of the EDGE, not of the child inode. */
  function FindEdge(edges: map<int, Edge>, parent: int, name: string, i: nat := 1): (k: int)
    requires 1 <= i <= MAX_EDGES + 1
    ensures k == 0 || (i <= k <= MAX_EDGES && k in edges && IsEdge(edges[k], parent, name))
    ensures k == 0 ==> forall j :: i <= j <= MAX_EDGES && j in edges ==> !IsEdge(edges[j], parent, name)
    decreases MAX_EDGES + 1 - i
  {
    if i > MAX_EDGES then 0
    else if i in edges && IsEdge(edges[i], parent, name) then i
    else FindEdge(edges, parent, name, i + 1)
  }

  predicate IsBlock(b: Block, file: int, off: nat) {
    b.file == file && b.off == off
  }

  function FindBlock(blocks: map<int, Block>, file: int, off: nat, i: nat := 1): (k: int)
    requires 1 <= i <= MAX_BLOCKS + 1
    ensures k == 0 || (i <= k <= MAX_BLOCKS && k in blocks && IsBlock(blocks[k], file, off))
    ensures k == 0 ==> forall j :: i <= j <= MAX_BLOCKS && j in blocks ==> !IsBlock(blocks[j], file, off)
    decreases MAX_BLOCKS + 1 - i
  {
    if i > MAX_BLOCKS then 0
    else if i in blocks && IsBlock(blocks[i], file, off) then i
    else FindBlock(blocks, file, off, i + 1)
  }

  // ---- rewrites ---------------------------------------------------------------------

  /** sotfs_rewrite_create_file and sotfs_rewrite_mkdir, then the ownership tag.  The status
      is the new inode id or a negative error. */
  function Create(fs: Fs, session: U32, parent: int, name: string, kind: Kind, mode: nat): (r: (int, Fs)) {
    if name == "" then (ERR_INVAL, fs)
    else if |name| >= MAX_NAME then (ERR_NAMETOOLONG, fs)
    else if parent !in fs.inodes then (ERR_NOENT, fs)
    else if fs.inodes[parent].kind != Dir then (ERR_NOTDIR, fs)
    else if FindEdge(fs.edges, parent, name) != 0 then (ERR_EXISTS, fs)
    else
      var id := NextFree(fs.inodes.Keys, fs.nextInode, MAX_INODES);
      var k := NextFree(fs.edges.Keys, fs.nextEdge, MAX_EDGES);
      if id == 0 then (ERR_NOSPACE, fs)
      else if k == 0 then (ERR_NOSPACE, fs.(nextInode := id % MAX_INODES))
      else (id, Link(fs.(nextInode := id % MAX_INODES, nextEdge := k % MAX_EDGES), session, parent, name, kind, mode, id, k))
  }

  function Link(fs: Fs, session: U32, parent: int, name: string, kind: Kind, mode: nat, id: int, k: int): (f: Fs) {
    fs.(inodes := fs.inodes[id := Inode(kind, mode, 0, if kind == Dir then 2 else 1, false, 0)],
        edges := fs.edges[k := Edge(parent, id, name)],
        owner := if session != 0 then fs.owner[id := session] else fs.owner)
  }

  /** sotfs_free_file_storage: drop the inode and its block mappings.  The disk bitmap is not
      told, so the disk blocks stay marked used. */
  function FreeStorage(fs: Fs, id: int): (f: Fs) {
    if id !in fs.inodes then fs
    else fs.(inodes := fs.inodes - {id}, blocks := map k | k in fs.blocks && fs.blocks[k].file != id :: fs.blocks[k])
  }

  /** sotfs_rewrite_unlink. */
  function RewriteUnlink(fs: Fs, parent: int, name: string): (r: (int, Fs)) {
    if name == "" then (ERR_INVAL, fs)
    else if parent !in fs.inodes then (ERR_NOENT, fs)
    else if fs.inodes[parent].kind != Dir then (ERR_NOTDIR, fs)
    else
      var k := FindEdge(fs.edges, parent, name);
      if k == 0 then (ERR_NOENT, fs)
      else
        var id := fs.edges[k].child;
        if id !in fs.inodes then (ERR_INVAL, fs)
        else if fs.inodes[id].kind == Dir then (ERR_ISDIR, fs)
        else (OK, Unlinked(fs, k, id))
  }

  function Unlinked(fs: Fs, k: int, id: int): (f: Fs)
    requires id in fs.inodes
  {
    var n := fs.inodes[id].(nlink := fs.inodes[id].nlink - 1);
    var cut := fs.(edges := fs.edges - {k});
    if n.nlink > 0 then cut.(inodes := fs.inodes[id := n])
    else if n.opens > 0 then cut.(inodes := fs.inodes[id := n.(orphan := true)])
    else FreeStorage(cut, id)
  }

  /** sotfs_inode_open and sotfs_inode_close: the open count of a handle, with the deferred
      delete on the last close of an unlinked file. */
  function OpenInode(fs: Fs, id: int): (f: Fs) {
    if id !in fs.inodes || fs.inodes[id].opens >= 255 then fs
    else fs.(inodes := fs.inodes[id := fs.inodes[id].(opens := fs.inodes[id].opens + 1)])
  }

  function CloseInode(fs: Fs, id: int): (f: Fs) {
    if id !in fs.inodes then fs
    else
      var n := fs.inodes[id].(opens := if fs.inodes[id].opens > 0 then fs.inodes[id].opens - 1 else 0);
      var g := fs.(inodes := fs.inodes[id := n]);
      if n.opens == 0 && n.orphan then FreeStorage(g, id) else g
  }

  // ---- file data --------------------------------------------------------------------

  function Page(fs: Fs, disk: int): (p: seq<Byte>)
    ensures |p| == BLOCK
  {
    if disk in fs.pages && |fs.pages[disk]| == BLOCK then fs.pages[disk] else Zeros(BLOCK)
  }

  /** sotfs_blk_alloc: the lowest clear bit, or 0. */
  function DiskAlloc(used: set<int>, total: nat, i: nat := 1): (d: int)
    requires 1 <= i <= total + 1
    ensures d == 0 || (i <= d <= total && d !in used)
    decreases total + 1 - i
  {
    if i > total then 0 else if i !in used then i else DiskAlloc(used, total, i + 1)
  }

  function AddBlock(fs: Fs, k: int, b: Block): (f: Fs) {
    fs.(blocks := fs.blocks[k := b], used := fs.used + {b.disk}, nextBlock := if k > 0 then k % MAX_BLOCKS else 0)
  }

  /** sotfs_alloc_block: mapping slot and backing disk block, or 0 and nothing taken. */
  function AllocBlock(fs: Fs, file: int, off: nat): (r: (int, Fs))
    ensures r.0 != 0 ==> r.0 in r.1.blocks && r.1.blocks[r.0].file == file
  {
    var k := NextFree(fs.blocks.Keys, fs.nextBlock, MAX_BLOCKS);
    var d := DiskAlloc(fs.used, fs.diskBlocks);
    if k == 0 || d == 0 then (0, fs) else (k, AddBlock(fs, k, Block(file, off, d)))
  }

  /** The block a write at `off` goes to: an existing one, unless the offset is at or past the
      size the write started from, else a new one. */
  function BlockFor(fs: Fs, file: int, off: nat, orig: nat): (r: (int, Fs))
    ensures r.0 != 0 ==> r.0 in r.1.blocks && r.1.blocks[r.0].file == file
  {
    var found := if off >= orig then 0 else FindBlock(fs.blocks, file, off);
    if found != 0 then (found, fs) else AllocBlock(fs, file, off)
  }

  function Patch(fs: Fs, d: int, at: nat, chunk: seq<Byte>): (f: Fs)
    requires at + |chunk| <= BLOCK
  {
    fs.(pages := fs.pages[d := Splice(Page(fs, d), at, chunk)])
  }

  /** One round of the write loop: find or allocate the block, read-modify-write its page. */
  function WriteChunk(fs: Fs, file: int, cur: nat, chunk: seq<Byte>, orig: nat): (r: (bool, Fs))
    requires cur % BLOCK + |chunk| <= BLOCK
  {
    var (k, g) := BlockFor(fs, file, cur - cur % BLOCK, orig);
    if k == 0 then (false, g) else (true, Patch(g, g.blocks[k].disk, cur % BLOCK, chunk))
  }

  function ChunkLen(cur: nat, left: nat): (n: nat)
    requires left > 0
    ensures 0 < n <= left && cur % BLOCK + n <= BLOCK
  {
    Min(left, BLOCK - cur % BLOCK)
  }

  /** The write loop from byte `done` on; it stops early when no block can be had. */
  function WriteLoop(fs: Fs, file: int, off: nat, buf: seq<Byte>, orig: nat, done: nat): (r: (nat, Fs))
    requires done <= |buf|
    ensures done <= r.0 <= |buf|
    decreases |buf| - done
  {
    if done == |buf| then (done, fs)
    else
      var n := ChunkLen(off + done, |buf| - done);
      var (ok, g) := WriteChunk(fs, file, off + done, buf[done..done + n], orig);
      if !ok then (done, g) else WriteLoop(g, file, off, buf, orig, done + n)
  }

  /** sotfs_file_write: bytes written or an error; the size grows only after a full write. */
  function WriteFile(fs: Fs, file: int, off: nat, buf: seq<Byte>): (r: (int, Fs)) {
    if buf == [] then (0, fs)
    else if file !in fs.inodes then (ERR_NOENT, fs)
    else if fs.inodes[file].kind != File then (ERR_ISDIR, fs)
    else
      var (n, g) := WriteLoop(fs, file, off, buf, fs.inodes[file].size, 0);
      if n < |buf| then (if n > 0 then n else ERR_NOSPACE, g) else (n, Grow(g, file, off + n))
  }

  function Grow(fs: Fs, file: int, end: nat): (f: Fs) {
    if file !in fs.inodes || end <= fs.inodes[file].size then fs
    else fs.(inodes := fs.inodes[file := fs.inodes[file].(size := end)])
  }

  /** sotfs_file_read of one byte below the size: a hole reads as zero. */
  function ByteAt(fs: Fs, file: int, i: nat): (b: Byte) {
    var k := FindBlock(fs.blocks, file, i - i % BLOCK);
    if k == 0 then 0 else Page(fs, fs.blocks[k].disk)[i % BLOCK]
  }

  // ---- reap -------------------------------------------------------------------------

  /** lucas_sotfs_session_reap: every node the session owns goes, with its blocks (disk bits
      included) and the edge to it; then its tags are cleared. */
  function Reap(fs: Fs, session: U32): (f: Fs) {
    if session == 0 then fs
    else fs.(
      inodes := map i | i in fs.inodes && Owner(fs, i) != session :: fs.inodes[i],
      edges := map k | k in fs.edges && Owner(fs, fs.edges[k].child) != session :: fs.edges[k],
      blocks := map k | k in fs.blocks && Owner(fs, fs.blocks[k].file) != session :: fs.blocks[k],
      used := fs.used - (set k | k in fs.blocks && Owner(fs, fs.blocks[k].file) == session :: fs.blocks[k].disk),
      owner := map i | i in fs.owner && fs.owner[i] != session :: fs.owner[i])
  }
}
