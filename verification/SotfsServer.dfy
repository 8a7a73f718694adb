/**
 The file server's own code: one graph changed in place by search, allocation and deletion
 loops.  Each method is proved to take the graph where the graph functions say.
 */
module SotfsServer {
  import opened Machine
  import opened SotfsGraph
  import opened ContainmentRun

  /** The nodes a session owns with ids below n. */
  predicate Owned(fs: Fs, s: U32, n: int, i: int) {
    i < n && Owner(fs, i) == s
  }

  /** The state of the reap loop when the ids below n are done. */
  function ReapBelow(fs: Fs, s: U32, n: int): (f: Fs) {
    fs.(inodes := map i | i in fs.inodes && !Owned(fs, s, n, i) :: fs.inodes[i],
        edges := map k | k in fs.edges && !Owned(fs, s, n, fs.edges[k].child) :: fs.edges[k],
        blocks := map k | k in fs.blocks && !Owned(fs, s, n, fs.blocks[k].file) :: fs.blocks[k],
        used := fs.used - (set k | k in fs.blocks && Owned(fs, s, n, fs.blocks[k].file) :: fs.blocks[k].disk))
  }

  class Server {
    var g: Fs

    constructor (fs: Fs)
      ensures g == fs
    {
      g := fs;
    }

    /** Slots are numbered from 1 and bounded by the table sizes. */
    predicate Valid()
      reads this
    {
      && (forall i :: i in g.inodes ==> 1 <= i <= MAX_INODES)
      && (forall k :: k in g.edges ==> 1 <= k <= MAX_EDGES)
      && (forall k :: k in g.blocks ==> 1 <= k <= MAX_BLOCKS)
      && (forall i :: i in g.owner ==> 1 <= i <= MAX_INODES)
    }

    method SearchEdge(parent: int, name: string) returns (k: int)
      ensures k == FindEdge(g.edges, parent, name)
    {
      var i := 1;
      while i <= MAX_EDGES
        invariant 1 <= i <= MAX_EDGES + 1
        invariant FindEdge(g.edges, parent, name) == FindEdge(g.edges, parent, name, i)
      {
        if i in g.edges && IsEdge(g.edges[i], parent, name) {
          return i;
        }
        i := i + 1;
      }
      k := 0;
    }

    /** The next-fit scan shared by the three allocators. */
    static method Scan(taken: set<int>, hint: nat, max: nat) returns (id: int)
      requires 0 < max
      ensures id == NextFree(taken, hint, max)
    {
      var i := 0;
      while i < max
        invariant 0 <= i <= max
        invariant NextFree(taken, hint, max) == NextFree(taken, hint, max, i)
      {
        var slot := (hint + i) % max;
        if slot + 1 !in taken {
          return slot + 1;
        }
        i := i + 1;
      }
      id := 0;
    }

    method MakeNode(session: U32, parent: int, name: string, kind: Kind, mode: nat) returns (rc: int)
      modifies this
      ensures (rc, g) == Create(old(g), session, parent, name, kind, mode)
    {
      hide NextFree, FindEdge;
      if name == "" {
        return ERR_INVAL;
      }
      if |name| >= MAX_NAME {
        return ERR_NAMETOOLONG;
      }
      if parent !in g.inodes {
        return ERR_NOENT;
      }
      if g.inodes[parent].kind != Dir {
        return ERR_NOTDIR;
      }
      var e := SearchEdge(parent, name);
      if e != 0 {
        return ERR_EXISTS;
      }
      var id := Scan(g.inodes.Keys, g.nextInode, MAX_INODES);
      if id == 0 {
        return ERR_NOSPACE;
      }
      var before := g.inodes;
      g := g.(inodes := g.inodes[id := Inode(kind, mode, 0, if kind == Dir then 2 else 1, false, 0)],
              nextInode := id % MAX_INODES);
      var k := Scan(g.edges.Keys, g.nextEdge, MAX_EDGES);
      if k == 0 {
        g := g.(inodes := g.inodes - {id});
        assert g.inodes == before;
        return ERR_NOSPACE;
      }
      g := g.(edges := g.edges[k := Edge(parent, id, name)], nextEdge := k % MAX_EDGES);
      if session != 0 {
        g := g.(owner := g.owner[id := session]);
      }
      rc := id;
    }

    method FreeFileStorage(id: int)
      requires Valid()
      modifies this
      ensures g == FreeStorage(old(g), id)
    {
      if id !in g.inodes {
        return;
      }
      ghost var was := g;
      assert forall k :: k in was.blocks ==> k <= MAX_BLOCKS;
      var i := 1;
      while i <= MAX_BLOCKS
        invariant 1 <= i <= MAX_BLOCKS + 1
        invariant g == was.(blocks := g.blocks)
        invariant forall k :: k in g.blocks <==> k in was.blocks && !(k < i && was.blocks[k].file == id)
        invariant forall k :: k in g.blocks ==> g.blocks[k] == was.blocks[k]
      {
        if i in g.blocks && g.blocks[i].file == id {
          g := g.(blocks := g.blocks - {i});
        }
        i := i + 1;
      }
      g := g.(inodes := g.inodes - {id});
      ghost var want := FreeStorage(was, id);
      assert forall k :: k in g.blocks <==> k in want.blocks;
      assert forall k :: k in g.blocks ==> g.blocks[k] == want.blocks[k];
      assert g.blocks == want.blocks;
    }

    method Unlink(session: U32, parent: int, name: string) returns (rc: int)
      requires Valid()
      modifies this
      ensures (rc, g) == SessionUnlink(old(g), session, parent, name)
    {
      var target := SearchEdge(parent, name);
      if target == 0 {
        return ENOENT;
      }
      if Owner(g, target) != session {
        return 0;
      }
      if name == "" || parent !in g.inodes || g.inodes[parent].kind != Dir {
        return ENOENT;
      }
      var id := g.edges[target].child;
      if id !in g.inodes || g.inodes[id].kind == Dir {
        return ENOENT;
      }
      g := g.(edges := g.edges - {target});
      var n := g.inodes[id].(nlink := g.inodes[id].nlink - 1);
      if n.nlink > 0 {
        g := g.(inodes := g.inodes[id := n]);
      } else if n.opens > 0 {
        g := g.(inodes := g.inodes[id := n.(orphan := true)]);
      } else {
        FreeFileStorage(id);
      }
      rc := 0;
    }

    /** sotfs_file_write. */
    method FileWrite(file: int, off: nat, buf: seq<Byte>) returns (rc: int)
      modifies this
      ensures (rc, g) == WriteFile(old(g), file, off, buf)
    {
      if buf == [] {
        return 0;
      }
      if file !in g.inodes {
        return ERR_NOENT;
      }
      if g.inodes[file].kind != File {
        return ERR_ISDIR;
      }
      var written := WriteBlocks(file, off, buf);
      if written < |buf| {
        return if written > 0 then written else ERR_NOSPACE;
      }
      if file in g.inodes && off + |buf| > g.inodes[file].size {
        g := g.(inodes := g.inodes[file := g.inodes[file].(size := off + |buf|)]);
      }
      rc := written;
    }

    /** Its loop, a block at a time until one cannot be had. */
    method WriteBlocks(file: int, off: nat, buf: seq<Byte>) returns (written: nat)
      requires file in g.inodes
      modifies this
      ensures (written, g) == WriteLoop(old(g), file, off, buf, old(g).inodes[file].size, 0)
    {
      hide WriteLoop, WriteChunk;
      ghost var was := g;
      var orig := g.inodes[file].size;
      written := 0;
      while written < |buf|
        invariant 0 <= written <= |buf|
        invariant WriteLoop(was, file, off, buf, orig, 0) == WriteLoop(g, file, off, buf, orig, written)
      {
        LoopUnfolds(g, file, off, buf, orig, written);
        var n := ChunkLen(off + written, |buf| - written);
        var ok := WriteBlock(file, off + written, buf[written..written + n], orig);
        if !ok {
          return;
        }
        written := written + n;
      }
      LoopUnfolds(g, file, off, buf, orig, written);
    }

    /** sotfs_file_read: the bytes of the range below the size, a block at a time; what a block
        has is what its bytes are, and a hole is zeros. */
    method FileRead(file: int, off: nat, len: nat) returns (rc: int, out: seq<Byte>)
      ensures if len == 0 then rc == 0 && out == []
              else if file !in g.inodes then rc == -2 && out == []
              else if g.inodes[file].kind != File then rc == -4 && out == []
              else rc == |out| == (if off >= g.inodes[file].size then 0 else Min(len, g.inodes[file].size - off))
                   && forall i :: 0 <= i < |out| ==> out[i] == ByteAt(g, file, off + i)
    {
      out := [];
      if len == 0 {
        return 0, [];
      }
      if file !in g.inodes {
        return ERR_NOENT, [];
      }
      if g.inodes[file].kind != File {
        return ERR_ISDIR, [];
      }
      if off >= g.inodes[file].size {
        return 0, [];
      }
      var readLen := Min(len, g.inodes[file].size - off);
      while |out| < readLen
        invariant |out| <= readLen
        invariant forall i :: 0 <= i < |out| ==> out[i] == ByteAt(g, file, off + i)
      {
        var chunk := ReadBlock(file, off + |out|, readLen - |out|);
        out := out + chunk;
      }
      rc := |out|;
    }

    /** One turn of its loop: up to the end of the block. */
    method ReadBlock(file: int, cur: nat, want: nat) returns (chunk: seq<Byte>)
      requires want > 0
      ensures |chunk| == ChunkLen(cur, want)
      ensures forall i :: 0 <= i < |chunk| ==> chunk[i] == ByteAt(g, file, cur + i)
    {
      hide FindBlock, Page;
      var n := ChunkLen(cur, want);
      var k := SearchBlock(file, cur - cur % BLOCK);
      if k == 0 {
        chunk := seq(n, _ => 0);
      } else {
        chunk := Page(g, g.blocks[k].disk)[cur % BLOCK..cur % BLOCK + n];
      }
      forall i | 0 <= i < n
        ensures chunk[i] == ByteAt(g, file, cur + i)
      {
        SameBlock(cur, i);
      }
    }

    /** Find or allocate the block for a block-aligned offset. */
    method BlockAt(file: int, base: nat, orig: nat) returns (k: int)
      modifies this
      ensures (k, g) == BlockFor(old(g), file, base, orig)
    {
      hide NextFree, DiskAlloc, FindBlock;
      if base < orig {
        k := SearchBlock(file, base);
        if k != 0 {
          return;
        }
      }
      k := Scan(g.blocks.Keys, g.nextBlock, MAX_BLOCKS);
      if k == 0 {
        return;
      }
      var d := LowestClear();
      if d == 0 {
        return 0;
      }
      g := g.(blocks := g.blocks[k := Block(file, base, d)], used := g.used + {d}, nextBlock := k % MAX_BLOCKS);
    }

    method WriteBlock(file: int, cur: nat, chunk: seq<Byte>, orig: nat) returns (ok: bool)
      requires cur % BLOCK + |chunk| <= BLOCK
      modifies this
      ensures (ok, g) == WriteChunk(old(g), file, cur, chunk, orig)
    {
      hide BlockFor;
      var k := BlockAt(file, cur - cur % BLOCK, orig);
      if k == 0 {
        return false;
      }
      var d := g.blocks[k].disk;
      g := g.(pages := g.pages[d := Splice(Page(g, d), cur % BLOCK, chunk)]);
      ok := true;
    }

    method SearchBlock(file: int, off: nat) returns (k: int)
      ensures k == FindBlock(g.blocks, file, off)
    {
      var i := 1;
      while i <= MAX_BLOCKS
        invariant 1 <= i <= MAX_BLOCKS + 1
        invariant FindBlock(g.blocks, file, off) == FindBlock(g.blocks, file, off, i)
      {
        if i in g.blocks && IsBlock(g.blocks[i], file, off) {
          return i;
        }
        i := i + 1;
      }
      k := 0;
    }

    method LowestClear() returns (d: int)
      ensures d == DiskAlloc(g.used, g.diskBlocks)
    {
      var i := 1;
      while i <= g.diskBlocks
        invariant 1 <= i <= g.diskBlocks + 1
        invariant DiskAlloc(g.used, g.diskBlocks) == DiskAlloc(g.used, g.diskBlocks, i)
      {
        if i !in g.used {
          return i;
        }
        i := i + 1;
      }
      d := 0;
    }

    /** sotfs_free_block on every block of the file: the disk bit goes with the mapping. */
    method FreeBlocks(file: int)
      requires Valid()
      modifies this
      ensures g == WithoutBlocks(old(g), file)
    {
      ghost var was := g;
      assert forall k :: k in was.blocks ==> k <= MAX_BLOCKS;
      var b := 1;
      while b <= MAX_BLOCKS
        invariant 1 <= b <= MAX_BLOCKS + 1
        invariant g == was.(blocks := g.blocks, used := g.used)
        invariant forall k :: k in g.blocks <==> k in was.blocks && !(k < b && was.blocks[k].file == file)
        invariant forall k :: k in g.blocks ==> g.blocks[k] == was.blocks[k]
        invariant g.used == was.used - (set k | k in was.blocks && k < b && was.blocks[k].file == file :: was.blocks[k].disk)
      {
        if b in g.blocks && g.blocks[b].file == file {
          g := g.(used := g.used - {g.blocks[b].disk}, blocks := g.blocks - {b});
        }
        b := b + 1;
      }
      ghost var want := WithoutBlocks(was, file);
      assert forall k :: k in g.blocks <==> k in want.blocks;
      assert forall k :: k in g.blocks ==> g.blocks[k] == want.blocks[k];
      assert g.blocks == want.blocks;
      assert g.used == want.used;
    }

    method FreeEdges(child: int)
      requires Valid()
      modifies this
      ensures g == WithoutEdges(old(g), child)
    {
      ghost var was := g;
      assert forall k :: k in was.edges ==> k <= MAX_EDGES;
      var e := 1;
      while e <= MAX_EDGES
        invariant 1 <= e <= MAX_EDGES + 1
        invariant g == was.(edges := g.edges)
        invariant forall k :: k in g.edges <==> k in was.edges && !(k < e && was.edges[k].child == child)
        invariant forall k :: k in g.edges ==> g.edges[k] == was.edges[k]
      {
        if e in g.edges && g.edges[e].child == child {
          g := g.(edges := g.edges - {e});
        }
        e := e + 1;
      }
      ghost var want := WithoutEdges(was, child);
      assert forall k :: k in g.edges <==> k in want.edges;
      assert forall k :: k in g.edges ==> g.edges[k] == want.edges[k];
      assert g.edges == want.edges;
    }

    /** The reap loop over the session's inodes in id order, then the tags. */
    method SessionReap(session: U32)
      requires Valid()
      modifies this
      ensures g == Reap(old(g), session)
    {
      hide ReapBelow, Reap, WithoutBlocks, WithoutEdges;
      ZeroReapsNothing(g);
      if session == 0 {
        return;
      }
      ghost var was := g;
      ReapNone(was, session);
      var id := 1;
      while id <= MAX_INODES
        invariant 1 <= id <= MAX_INODES + 1
        invariant Valid() && g == ReapBelow(was, session, id)
      {
        BelowShape(was, session, id);
        BelowShape(was, session, id + 1);
        if Owner(g, id) == session {
          FreeBlocks(id);
          WithoutShape(ReapBelow(was, session, id), id);
          FreeEdges(id);
          g := g.(inodes := g.inodes - {id});
        }
        ReapOne(was, session, id);
        id := id + 1;
      }
      BelowShape(was, session, MAX_INODES + 1);
      g := g.(owner := map i | i in g.owner && g.owner[i] != session :: g.owner[i]);
      ReapAll(was, session, MAX_INODES + 1);
    }
  }

  lemma SameBlock(cur: nat, i: nat)
    requires cur % BLOCK + i < BLOCK
    ensures (cur + i) % BLOCK == cur % BLOCK + i
    ensures cur + i - (cur + i) % BLOCK == cur - cur % BLOCK
  {
  }

  function WithoutBlocks(fs: Fs, file: int): (f: Fs) {
    fs.(blocks := map k | k in fs.blocks && fs.blocks[k].file != file :: fs.blocks[k],
        used := fs.used - (set k | k in fs.blocks && fs.blocks[k].file == file :: fs.blocks[k].disk))
  }

  function WithoutEdges(fs: Fs, child: int): (f: Fs) {
    fs.(edges := map k | k in fs.edges && fs.edges[k].child != child :: fs.edges[k])
  }

  lemma ZeroReapsNothing(fs: Fs)
    ensures Reap(fs, 0) == fs
  {
  }

  lemma BelowShape(fs: Fs, s: U32, n: int)
    ensures var f := ReapBelow(fs, s, n);
            && f.owner == fs.owner && f.inodes.Keys <= fs.inodes.Keys
            && f.edges.Keys <= fs.edges.Keys && f.blocks.Keys <= fs.blocks.Keys
  {
  }

  lemma WithoutShape(fs: Fs, id: int)
    ensures var f := WithoutBlocks(fs, id);
            f.owner == fs.owner && f.inodes == fs.inodes && f.edges == fs.edges && f.blocks.Keys <= fs.blocks.Keys
  {
  }

  lemma ReapNone(fs: Fs, s: U32)
    requires forall i :: i in fs.owner ==> 1 <= i
    requires s != 0
    ensures ReapBelow(fs, s, 1) == fs
  {
    var g := ReapBelow(fs, s, 1);
    assert forall i :: !Owned(fs, s, 1, i);
    assert g.inodes == fs.inodes && g.edges == fs.edges && g.blocks == fs.blocks && g.used == fs.used;
  }

  lemma OneMore(fs: Fs, s: U32, id: int)
    requires Owner(fs, id) == s
    ensures forall i :: Owned(fs, s, id + 1, i) <==> Owned(fs, s, id, i) || i == id
  {
  }

  lemma ReapOneBits(fs: Fs, s: U32, id: int)
    requires Owner(fs, id) == s
    ensures WithoutBlocks(ReapBelow(fs, s, id), id).used == ReapBelow(fs, s, id + 1).used
  {
    var f, h := ReapBelow(fs, s, id), ReapBelow(fs, s, id + 1);
    var e := WithoutBlocks(f, id);
    OneMore(fs, s, id);
    forall d | d in fs.used
      ensures d in e.used <==> d in h.used
    {
      if d !in h.used {
        var k :| k in fs.blocks && Owned(fs, s, id + 1, fs.blocks[k].file) && fs.blocks[k].disk == d;
        assert k in f.blocks ==> f.blocks[k] == fs.blocks[k];
      }
    }
  }

  lemma ReapOneEdges(fs: Fs, s: U32, id: int)
    requires Owner(fs, id) == s
    ensures WithoutEdges(ReapBelow(fs, s, id), id).edges == ReapBelow(fs, s, id + 1).edges
  {
    OneMore(fs, s, id);
    var e, h := WithoutEdges(ReapBelow(fs, s, id), id).edges, ReapBelow(fs, s, id + 1).edges;
    forall k
      ensures k in e <==> k in h
      ensures k in e ==> e[k] == h[k]
    {
    }
  }

  lemma ReapOneNode(fs: Fs, s: U32, id: int)
    requires Owner(fs, id) == s
    ensures WithoutBlocks(ReapBelow(fs, s, id), id).blocks == ReapBelow(fs, s, id + 1).blocks
    ensures ReapBelow(fs, s, id).inodes - {id} == ReapBelow(fs, s, id + 1).inodes
  {
    OneMore(fs, s, id);
    var b, h := WithoutBlocks(ReapBelow(fs, s, id), id).blocks, ReapBelow(fs, s, id + 1).blocks;
    forall k
      ensures k in b <==> k in h
      ensures k in b ==> b[k] == h[k]
    {
    }
  }

  lemma ReapOne(fs: Fs, s: U32, id: int)
    ensures var f := ReapBelow(fs, s, id);
            var e := WithoutEdges(WithoutBlocks(f, id), id);
            ReapBelow(fs, s, id + 1) == if Owner(fs, id) == s then e.(inodes := e.inodes - {id}) else f
  {
    if Owner(fs, id) == s {
      ReapOneBits(fs, s, id);
      ReapOneEdges(fs, s, id);
      ReapOneNode(fs, s, id);
    } else {
      var f, h := ReapBelow(fs, s, id), ReapBelow(fs, s, id + 1);
      assert forall i :: Owned(fs, s, id + 1, i) <==> Owned(fs, s, id, i);
      assert f.edges == h.edges && f.blocks == h.blocks && f.used == h.used && f.inodes == h.inodes;
    }
  }

  lemma ReapAll(fs: Fs, s: U32, n: int)
    requires s != 0 && forall i :: i in fs.owner ==> i < n
    ensures Reap(fs, s) == ReapBelow(fs, s, n).(owner := map i | i in fs.owner && fs.owner[i] != s :: fs.owner[i])
  {
    hide Owned, Owner;
    OwnedBelow(fs, s, n);
    ReapAllUsed(fs, s, n);
    ReapAllEdges(fs, s, n);
    ReapAllNodes(fs, s, n);
  }

  lemma ReapAllEdges(fs: Fs, s: U32, n: int)
    requires s != 0 && forall i :: Owned(fs, s, n, i) <==> Owner(fs, i) == s
    ensures ReapBelow(fs, s, n).edges == Reap(fs, s).edges
  {
    hide Owned, Owner;
  }

  lemma ReapAllNodes(fs: Fs, s: U32, n: int)
    requires s != 0 && forall i :: Owned(fs, s, n, i) <==> Owner(fs, i) == s
    ensures ReapBelow(fs, s, n).blocks == Reap(fs, s).blocks && ReapBelow(fs, s, n).inodes == Reap(fs, s).inodes
  {
    hide Owned, Owner;
  }

  lemma ReapAllUsed(fs: Fs, s: U32, n: int)
    requires s != 0 && forall i :: Owned(fs, s, n, i) <==> Owner(fs, i) == s
    ensures ReapBelow(fs, s, n).used == Reap(fs, s).used
  {
    hide Owned, Owner;
    var a := set k | k in fs.blocks && Owned(fs, s, n, fs.blocks[k].file) :: fs.blocks[k].disk;
    var b := set k | k in fs.blocks && Owner(fs, fs.blocks[k].file) == s :: fs.blocks[k].disk;
    assert a == b;
  }

  lemma OwnedBelow(fs: Fs, s: U32, n: int)
    requires s != 0 && forall i :: i in fs.owner ==> i < n
    ensures forall i :: Owned(fs, s, n, i) <==> Owner(fs, i) == s
  {
  }
}
