/**
 Containment of a Tier-2 session in the shared file graph (src/lucas/backends_sotfs.c):
 what the operator and the other sessions can see does not depend on what the session
 does, and reaping it restores the graph.
 */
module Containment {
  import opened Machine
  import opened SotfsGraph

  // ---- well-formed graphs -----------------------------------------------------------

  /** Edges join allocated nodes, parents are directories, names are unique in a directory, a
      node has one edge to it and an unlinked file has none. */
  predicate EdgesOk(fs: Fs) {
    && (forall k :: k in fs.edges ==>
          && 1 <= k <= MAX_EDGES
          && fs.edges[k].parent in fs.inodes && fs.inodes[fs.edges[k].parent].kind == Dir
          && fs.edges[k].child in fs.inodes && !fs.inodes[fs.edges[k].child].orphan)
    && (forall k, j :: k in fs.edges && j in fs.edges && k != j ==>
          && fs.edges[k].child != fs.edges[j].child
          && (fs.edges[k].parent != fs.edges[j].parent || fs.edges[k].name != fs.edges[j].name))
  }

  /** Everything in a directory of session s belongs to session s. */
  predicate Closed(fs: Fs, s: U32) {
    forall k :: k in fs.edges && Owner(fs, fs.edges[k].parent) == s ==> Owner(fs, fs.edges[k].child) == s
  }

  /** Mappings belong to allocated files and no two share a disk block. */
  predicate BlocksOk(fs: Fs) {
    && (forall k :: k in fs.blocks ==>
          1 <= k <= MAX_BLOCKS && fs.blocks[k].file in fs.inodes && fs.blocks[k].disk in fs.used)
    && (forall k, j :: k in fs.blocks && j in fs.blocks && k != j ==> fs.blocks[k].disk != fs.blocks[j].disk)
  }

  /** Ids are in range and only a file can be unlinked while open. */
  predicate InodesOk(fs: Fs) {
    forall i :: i in fs.inodes ==> 1 <= i <= MAX_INODES && (fs.inodes[i].orphan ==> fs.inodes[i].kind == File)
  }

  predicate Wf(fs: Fs, s: U32) {
    InodesOk(fs) && EdgesOk(fs) && Closed(fs, s) && BlocksOk(fs)
  }

  // ---- the part of the graph a session does not own ---------------------------------

  predicate ForeignInode(fs: Fs, s: U32, i: int) {
    i in fs.inodes && Owner(fs, i) != s
  }

  predicate ForeignEdge(fs: Fs, s: U32, k: int) {
    k in fs.edges && Owner(fs, fs.edges[k].child) != s
  }

  predicate ForeignBlock(fs: Fs, s: U32, k: int) {
    k in fs.blocks && Owner(fs, fs.blocks[k].file) != s
  }

  /** An inode apart from its open count, which no observer can read. */
  function Face(n: Inode): (m: Inode) {
    n.(opens := 0)
  }

  /** Both graphs have the same nodes, edges, mappings and pages outside session s. */
  ghost predicate Same(fs: Fs, g: Fs, s: U32) {
    && (forall i {:trigger ForeignInode(g, s, i)} {:trigger ForeignInode(fs, s, i)} ::
          && (ForeignInode(fs, s, i) <==> ForeignInode(g, s, i))
          && (ForeignInode(fs, s, i) ==> Face(fs.inodes[i]) == Face(g.inodes[i]) && Owner(fs, i) == Owner(g, i)))
    && (forall k {:trigger ForeignEdge(g, s, k)} {:trigger ForeignEdge(fs, s, k)} ::
          && (ForeignEdge(fs, s, k) <==> ForeignEdge(g, s, k))
          && (ForeignEdge(fs, s, k) ==> fs.edges[k] == g.edges[k]))
    && (forall k {:trigger ForeignBlock(g, s, k)} {:trigger ForeignBlock(fs, s, k)} ::
          && (ForeignBlock(fs, s, k) <==> ForeignBlock(g, s, k))
          && (ForeignBlock(fs, s, k) ==>
                fs.blocks[k] == g.blocks[k] && Page(fs, fs.blocks[k].disk) == Page(g, fs.blocks[k].disk)))
  }

  lemma SameTransitive(a: Fs, b: Fs, c: Fs, s: U32)
    requires Same(a, b, s) && Same(b, c, s)
    ensures Same(a, c, s)
  {
  }

  // ---- what an observer sees --------------------------------------------------------

  /** sotfs_resolve_path_from on a list of components: the inode id reached, or 0. */
  function Resolve(fs: Fs, root: int, path: seq<string>): (id: int) {
    if path == [] then root
    else
      var dir := Resolve(fs, root, path[..|path| - 1]);
      var k := FindEdge(fs.edges, dir, path[|path| - 1]);
      if dir == 0 || k == 0 then 0 else fs.edges[k].child
  }

  /** What op_stat, op_read and op_getdents show a caller of session t at a path: nothing, or
      the inode's attributes, its bytes, and its children in slot order. */
  datatype View =
    | NotFound
    | Found(id: int, attr: Inode, bytes: seq<Byte>, children: map<int, Edge>)

  function Look(fs: Fs, t: U32, root: int, path: seq<string>): (v: View) {
    var id := Resolve(fs, root, path);
    if id !in fs.inodes || !Visible(fs, id, t) then NotFound
    else Found(id, Face(fs.inodes[id]), FileBytes(fs, id), Children(fs, t, id))
  }

  function FileBytes(fs: Fs, id: int): (b: seq<Byte>)
    requires id in fs.inodes
  {
    if fs.inodes[id].kind == Dir then [] else seq(fs.inodes[id].size, i requires i >= 0 => ByteAt(fs, id, i))
  }

  function Children(fs: Fs, t: U32, id: int): (m: map<int, Edge>) {
    map k | k in fs.edges && fs.edges[k].parent == id && Visible(fs, fs.edges[k].child, t) :: fs.edges[k]
  }

  // ---- graphs that agree outside s look the same to everybody else -------------------

  lemma {:induction false} FindBlockSame(a: map<int, Block>, b: map<int, Block>, file: int, off: nat, i: nat)
    requires 1 <= i <= MAX_BLOCKS + 1
    requires forall k :: (k in a && a[k].file == file) <==> (k in b && b[k].file == file)
    requires forall k :: k in a && a[k].file == file ==> a[k] == b[k]
    ensures FindBlock(a, file, off, i) == FindBlock(b, file, off, i)
    decreases MAX_BLOCKS + 1 - i
  {
    if i <= MAX_BLOCKS {
      FindBlockSame(a, b, file, off, i + 1);
    }
  }

  /** The one edge with a given parent and name is the one FindEdge returns. */
  lemma FindEdgeUnique(fs: Fs, k: int)
    requires EdgesOk(fs) && k in fs.edges
    ensures FindEdge(fs.edges, fs.edges[k].parent, fs.edges[k].name) == k
  {
    var j := FindEdge(fs.edges, fs.edges[k].parent, fs.edges[k].name);
    assert IsEdge(fs.edges[k], fs.edges[k].parent, fs.edges[k].name);
  }

  /** A path that leads to a node not owned by s leads to it in both graphs: every directory
      on the way is not owned by s either. */
  lemma {:induction false} ResolveSame(fs: Fs, g: Fs, s: U32, root: int, path: seq<string>)
    requires s != 0 && Wf(fs, s) && Wf(g, s) && Same(fs, g, s)
    requires ForeignInode(fs, s, Resolve(fs, root, path))
    ensures Resolve(g, root, path) == Resolve(fs, root, path)
    decreases |path|
  {
    if path != [] {
      var dir, name := Resolve(fs, root, path[..|path| - 1]), path[|path| - 1];
      var k := FindEdge(fs.edges, dir, name);
      assert ForeignEdge(fs, s, k);
      assert ForeignEdge(g, s, k);
      assert ForeignInode(fs, s, dir);
      ResolveSame(fs, g, s, root, path[..|path| - 1]);
      FindEdgeUnique(g, k);
    }
  }

  lemma SameSymmetric(fs: Fs, g: Fs, s: U32)
    requires Same(fs, g, s)
    ensures Same(g, fs, s)
  {
  }

  lemma BytesSame(fs: Fs, g: Fs, s: U32, id: int)
    requires Same(fs, g, s) && ForeignInode(fs, s, id)
    ensures ForeignInode(g, s, id) && FileBytes(g, id) == FileBytes(fs, id)
  {
    assert ForeignInode(g, s, id);
    assert Face(fs.inodes[id]) == Face(g.inodes[id]);
    forall k
      ensures (k in fs.blocks && fs.blocks[k].file == id) <==> (k in g.blocks && g.blocks[k].file == id)
      ensures k in fs.blocks && fs.blocks[k].file == id ==> fs.blocks[k] == g.blocks[k]
    {
      assert ForeignBlock(fs, s, k) <==> ForeignBlock(g, s, k);
    }
    forall i: nat
      ensures ByteAt(fs, id, i) == ByteAt(g, id, i)
    {
      FindBlockSame(fs.blocks, g.blocks, id, i - i % BLOCK, 1);
      var k := FindBlock(fs.blocks, id, i - i % BLOCK);
      if k != 0 {
        assert ForeignBlock(fs, s, k);
      }
    }
  }

  lemma ChildrenSame(fs: Fs, g: Fs, s: U32, t: U32, id: int)
    requires s != 0 && s != t && EdgesOk(fs) && EdgesOk(g) && Same(fs, g, s)
    ensures Children(fs, t, id) == Children(g, t, id)
  {
    forall k
      ensures k in Children(fs, t, id) <==> k in Children(g, t, id)
      ensures k in Children(fs, t, id) ==> Children(fs, t, id)[k] == Children(g, t, id)[k]
    {
      assert ForeignEdge(fs, s, k) <==> ForeignEdge(g, s, k);
      if ForeignEdge(fs, s, k) {
        assert ForeignInode(fs, s, fs.edges[k].child);
      }
    }
  }

  /** Two graphs that agree outside s are indistinguishable, at every path from every root, to
      the operator (t = 0) and to every other session. */
  lemma LookSame(fs: Fs, g: Fs, s: U32, t: U32, root: int, path: seq<string>)
    requires s != 0 && s != t && Wf(fs, s) && Wf(g, s) && Same(fs, g, s)
    ensures Look(fs, t, root, path) == Look(g, t, root, path)
  {
    var id, id' := Resolve(fs, root, path), Resolve(g, root, path);
    if ForeignInode(fs, s, id) {
      ResolveSame(fs, g, s, root, path);
      BytesSame(fs, g, s, id);
      ChildrenSame(fs, g, s, t, id);
    } else if ForeignInode(g, s, id') {
      SameSymmetric(fs, g, s);
      ResolveSame(g, fs, s, root, path);
    }
  }
}
