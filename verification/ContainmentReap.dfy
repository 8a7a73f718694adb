/**
 The end of a session (lucas_sotfs_session_reap): reaping it gives back the graph it found,
 and the disk bitmap up to exactly the blocks of the files the session deleted itself.
 */
module ContainmentReap {
  import opened Machine
  import opened SotfsGraph
  import opened Containment
  import opened ContainmentRun

  // ---- reap -------------------------------------------------------------------------

  /** No node carries the session's tag. */
  ghost predicate Gone(fs: Fs, s: U32) {
    forall i :: Owner(fs, i) != s
  }

  lemma ReapWf(fs: Fs, s: U32)
    requires s != 0 && Wf(fs, s)
    ensures Wf(Reap(fs, s), s)
  {
    var g := Reap(fs, s);
    assert forall i :: Owner(fs, i) != s ==> Owner(g, i) == Owner(fs, i);
    assert forall k :: k in g.edges ==> k in fs.edges && g.edges[k] == fs.edges[k];
    assert BlocksOk(g) by {
      assert forall k :: k in g.blocks ==> k in fs.blocks && g.blocks[k] == fs.blocks[k];
    }
  }

  lemma ReapOwner(fs: Fs, s: U32, i: int)
    requires s != 0
    ensures Owner(Reap(fs, s), i) == if Owner(fs, i) == s then 0 else Owner(fs, i)
  {
  }

  lemma ReapForeign(fs: Fs, s: U32, i: int)
    requires s != 0
    ensures var g := Reap(fs, s);
            && (ForeignInode(fs, s, i) <==> ForeignInode(g, s, i))
            && (ForeignInode(fs, s, i) ==> fs.inodes[i] == g.inodes[i])
            && (ForeignEdge(fs, s, i) <==> ForeignEdge(g, s, i))
            && (ForeignEdge(fs, s, i) ==> fs.edges[i] == g.edges[i])
            && (ForeignBlock(fs, s, i) <==> ForeignBlock(g, s, i))
            && (ForeignBlock(fs, s, i) ==> fs.blocks[i] == g.blocks[i])
  {
    ReapOwner(fs, s, i);
    if i in fs.edges {
      ReapOwner(fs, s, fs.edges[i].child);
    }
    if i in fs.blocks {
      ReapOwner(fs, s, fs.blocks[i].file);
    }
  }

  lemma ReapPage(fs: Fs, s: U32, d: int)
    ensures Page(Reap(fs, s), d) == Page(fs, d)
  {
  }

  lemma ReapSame(fs: Fs, s: U32)
    requires s != 0
    ensures Same(fs, Reap(fs, s), s) && Gone(Reap(fs, s), s)
  {
    hide Reap, Owner, ForeignInode, ForeignEdge, ForeignBlock, Page;
    var g := Reap(fs, s);
    forall i
      ensures Owner(g, i) == if Owner(fs, i) == s then 0 else Owner(fs, i)
    {
      ReapOwner(fs, s, i);
    }
    forall i {:trigger ForeignInode(g, s, i)} {:trigger ForeignInode(fs, s, i)}
      ensures ForeignInode(fs, s, i) <==> ForeignInode(g, s, i)
      ensures ForeignInode(fs, s, i) ==>
                i in fs.inodes && i in g.inodes && fs.inodes[i] == g.inodes[i] && Owner(g, i) == Owner(fs, i)
    {
      ReapForeign(fs, s, i);
      ForeignMeans(fs, s, i);
      ForeignMeans(g, s, i);
    }
    forall k {:trigger ForeignEdge(g, s, k)} {:trigger ForeignEdge(fs, s, k)}
      ensures ForeignEdge(fs, s, k) <==> ForeignEdge(g, s, k)
      ensures ForeignEdge(fs, s, k) ==> k in fs.edges && k in g.edges && fs.edges[k] == g.edges[k]
    {
      ReapForeign(fs, s, k);
      ForeignMeans(fs, s, k);
      ForeignMeans(g, s, k);
    }
    forall k {:trigger ForeignBlock(g, s, k)} {:trigger ForeignBlock(fs, s, k)}
      ensures ForeignBlock(fs, s, k) <==> ForeignBlock(g, s, k)
      ensures ForeignBlock(fs, s, k) ==>
                && k in fs.blocks && k in g.blocks && fs.blocks[k] == g.blocks[k]
                && Page(fs, fs.blocks[k].disk) == Page(g, fs.blocks[k].disk)
    {
      ReapForeign(fs, s, k);
      ForeignMeans(fs, s, k);
      ForeignMeans(g, s, k);
      if k in fs.blocks {
        ReapPage(fs, s, fs.blocks[k].disk);
      }
    }
  }

  lemma ForeignMeans(fs: Fs, s: U32, i: int)
    ensures ForeignInode(fs, s, i) ==> i in fs.inodes && Owner(fs, i) != s
    ensures ForeignEdge(fs, s, i) ==> i in fs.edges
    ensures ForeignBlock(fs, s, i) ==> i in fs.blocks
  {
  }

  /** What a session's run and reap leave: every node, edge, mapping and page it found, open
      counts and free slots aside, and nothing else. */
  ghost predicate Restored(fs: Fs, g: Fs) {
    && g.edges == fs.edges && g.blocks == fs.blocks
    && (forall i :: i in g.inodes <==> i in fs.inodes)
    && (forall i :: i in fs.inodes ==> Face(g.inodes[i]) == Face(fs.inodes[i]) && Owner(g, i) == Owner(fs, i))
    && (forall k :: k in fs.blocks ==> Page(g, fs.blocks[k].disk) == Page(fs, fs.blocks[k].disk))
  }

  lemma SameIsRestored(fs: Fs, g: Fs, s: U32)
    requires Same(fs, g, s) && Gone(fs, s) && Gone(g, s)
    ensures Restored(fs, g)
  {
    forall i
      ensures i in fs.inodes <==> i in g.inodes
      ensures i in fs.inodes ==> Face(fs.inodes[i]) == Face(g.inodes[i]) && Owner(g, i) == Owner(fs, i)
    {
      assert ForeignInode(fs, s, i) <==> ForeignInode(g, s, i);
    }
    forall k
      ensures k in fs.edges <==> k in g.edges
      ensures k in fs.edges ==> fs.edges[k] == g.edges[k]
    {
      assert ForeignEdge(fs, s, k) <==> ForeignEdge(g, s, k);
    }
    forall k
      ensures k in fs.blocks <==> k in g.blocks
      ensures k in fs.blocks ==>
                fs.blocks[k] == g.blocks[k] && Page(g, fs.blocks[k].disk) == Page(fs, fs.blocks[k].disk)
    {
      assert ForeignBlock(fs, s, k) <==> ForeignBlock(g, s, k);
    }
  }

  lemma SessionLeavesNothing(fs: Fs, s: U32, ops: seq<Op>)
    requires s != 0 && Wf(fs, s) && Gone(fs, s) && AllowedRun(fs, s, ops)
    ensures var g := Reap(Run(fs, s, ops), s); Wf(g, s) && Gone(g, s) && Restored(fs, g)
  {
    hide Wf, Same, Restored, Kept, Reap;
    var r := Run(fs, s, ops);
    RunKeeps(fs, s, ops);
    KeptGives(fs, r, s);
    ReapWf(r, s);
    ReapSame(r, s);
    SameTransitive(fs, r, Reap(r, s), s);
    SameIsRestored(fs, Reap(r, s), s);
  }

  lemma KeptGives(fs: Fs, g: Fs, s: U32)
    requires Kept(fs, g, s)
    ensures Wf(g, s) && Same(fs, g, s)
  {
  }

  // ---- disk blocks ------------------------------------------------------------------

  ghost predicate Mapped(blocks: map<int, Block>, d: int) {
    exists k :: k in blocks && blocks[k].disk == d
  }

  /** Disk blocks marked used that no mapping refers to: lost until the next format. */
  ghost function Leaked(fs: Fs): (l: set<int>) {
    set d | d in fs.used && !Mapped(fs.blocks, d)
  }

  /** The inode whose storage the step frees, or 0. */
  function Deleted(fs: Fs, s: U32, op: Op): (id: int) {
    match op
    case CloseNode(id) =>
      if id in fs.inodes && fs.inodes[id].orphan && fs.inodes[id].opens <= 1 then id else 0
    case UnlinkNode(p, name) =>
      var k := FindEdge(fs.edges, p, name);
      if k == 0 || Owner(fs, k) != s || RewriteUnlink(fs, p, name).0 != OK then 0
      else
        var id := fs.edges[k].child;
        if fs.inodes[id].nlink <= 1 && fs.inodes[id].opens == 0 then id else 0
    case _ => 0
  }

  ghost function DisksOf(blocks: map<int, Block>, id: int): (l: set<int>) {
    set k | k in blocks && blocks[k].file == id :: blocks[k].disk
  }

  lemma FreeLeaks(fs: Fs, id: int)
    requires BlocksOk(fs) && id in fs.inodes
    ensures Leaked(FreeStorage(fs, id)) == Leaked(fs) + DisksOf(fs.blocks, id)
  {
    var g := FreeStorage(fs, id);
    forall d
      ensures d in Leaked(g) <==> d in Leaked(fs) || d in DisksOf(fs.blocks, id)
    {
      if d in DisksOf(fs.blocks, id) {
        var k :| k in fs.blocks && fs.blocks[k].file == id && fs.blocks[k].disk == d;
        assert forall j :: j in g.blocks ==> j in fs.blocks && g.blocks[j] == fs.blocks[j] && j != k;
      } else if Mapped(fs.blocks, d) {
        var k :| k in fs.blocks && fs.blocks[k].disk == d;
        assert k in g.blocks && g.blocks[k].disk == d;
      } else {
        assert forall j :: j in g.blocks ==> j in fs.blocks && g.blocks[j] == fs.blocks[j];
      }
    }
  }

  lemma AddLeaksNothing(fs: Fs, k: int, b: Block)
    requires BlocksOk(fs) && k !in fs.blocks && b.disk !in fs.used
    ensures Leaked(AddBlock(fs, k, b)) == Leaked(fs)
  {
    var g := AddBlock(fs, k, b);
    assert k in g.blocks && g.blocks[k].disk == b.disk;
    forall d | d != b.disk
      ensures Mapped(g.blocks, d) <==> Mapped(fs.blocks, d)
    {
      if Mapped(fs.blocks, d) {
        var j :| j in fs.blocks && fs.blocks[j].disk == d;
        assert j in g.blocks && g.blocks[j].disk == d;
      }
      if Mapped(g.blocks, d) {
        var j :| j in g.blocks && g.blocks[j].disk == d;
        assert j in fs.blocks && fs.blocks[j].disk == d;
      }
    }
  }

  lemma ChunkLeaksNothing(fs: Fs, file: int, cur: nat, chunk: seq<Byte>, orig: nat)
    requires BlocksOk(fs) && cur % BLOCK + |chunk| <= BLOCK
    ensures Leaked(WriteChunk(fs, file, cur, chunk, orig).1) == Leaked(fs)
  {
    var k := NextFree(fs.blocks.Keys, fs.nextBlock, MAX_BLOCKS);
    var d := DiskAlloc(fs.used, fs.diskBlocks);
    if k != 0 && d != 0 {
      AddLeaksNothing(fs, k, Block(file, cur - cur % BLOCK, d));
    }
  }

  lemma {:induction false} LoopLeaksNothing(fs: Fs, s: U32, file: int, off: nat, buf: seq<Byte>, orig: nat, done: nat)
    requires Mine(fs, s, file) && done <= |buf|
    ensures Leaked(WriteLoop(fs, file, off, buf, orig, done).1) == Leaked(fs)
    decreases |buf| - done
  {
    hide DataKept, WriteChunk, WriteLoop, Leaked;
    LoopUnfolds(fs, file, off, buf, orig, done);
    if done < |buf| {
      var n := ChunkLen(off + done, |buf| - done);
      var r := WriteChunk(fs, file, off + done, buf[done..done + n], orig);
      ChunkKeeps(fs, s, file, off + done, buf[done..done + n], orig);
      ChunkLeaksNothing(fs, file, off + done, buf[done..done + n], orig);
      if r.0 {
        DataKeptMine(fs, r.1, s, file);
        LoopLeaksNothing(r.1, s, file, off, buf, orig, done + n);
      }
    }
  }

  lemma WriteLeaksNothing(fs: Fs, s: U32, file: int, off: nat, buf: seq<Byte>)
    requires Wf(fs, s)
    ensures Leaked(SessionWrite(fs, s, file, off, buf)) == Leaked(fs)
  {
    WriteUnfolds(fs, s, file, off, buf);
    if Owner(fs, file) == s && file in fs.inodes {
      LoopLeaksNothing(fs, s, file, off, buf, fs.inodes[file].size, 0);
    }
  }

  lemma NoFileZero(fs: Fs)
    requires InodesOk(fs) && BlocksOk(fs)
    ensures DisksOf(fs.blocks, 0) == {}
  {
    assert forall k :: k in fs.blocks ==> fs.blocks[k].file != 0;
  }

  lemma MakeLeaksNothing(fs: Fs, s: U32, p: int, name: string, kind: Kind, mode: nat)
    ensures Leaked(Create(fs, s, p, name, kind, mode).1) == Leaked(fs)
  {
    hide FindEdge, NextFree;
  }

  /** A step leaks the blocks of the file it deletes and no others. */
  lemma StepLeaks(fs: Fs, s: U32, op: Op)
    requires Wf(fs, s)
    ensures Leaked(Step(fs, s, op)) == Leaked(fs) + DisksOf(fs.blocks, Deleted(fs, s, op))
  {
    hide FindEdge, NextFree, WriteFile;
    NoFileZero(fs);
    match op {
      case MakeNode(p, name, kind, mode) => MakeLeaksNothing(fs, s, p, name, kind, mode);
      case OpenNode(id) =>
      case CloseNode(id) =>
        if Deleted(fs, s, op) != 0 {
          FreeLeaks(fs.(inodes := fs.inodes[id := fs.inodes[id].(opens := 0)]), id);
        }
      case WriteNode(id, off, buf) => WriteLeaksNothing(fs, s, id, off, buf);
      case UnlinkNode(p, name) =>
        var id := Deleted(fs, s, op);
        if id != 0 {
          FreeLeaks(fs.(edges := fs.edges - {FindEdge(fs.edges, p, name)}), id);
        }
    }
  }

  /** The disk blocks of every file the run deleted, taken at the moment it was deleted. */
  ghost function RunLeak(fs: Fs, s: U32, ops: seq<Op>): (l: set<int>)
    decreases |ops|
  {
    if ops == [] then {}
    else DisksOf(fs.blocks, Deleted(fs, s, ops[0])) + RunLeak(Step(fs, s, ops[0]), s, ops[1..])
  }

  lemma {:induction false} RunLeaks(fs: Fs, s: U32, ops: seq<Op>)
    requires s != 0 && Wf(fs, s) && AllowedRun(fs, s, ops)
    ensures Leaked(Run(fs, s, ops)) == Leaked(fs) + RunLeak(fs, s, ops)
    decreases |ops|
  {
    if ops != [] {
      var g := Step(fs, s, ops[0]);
      StepKeeps(fs, s, ops[0]);
      StepLeaks(fs, s, ops[0]);
      RunLeaks(g, s, ops[1..]);
    }
  }

  /** Reaping frees the bits of the blocks it unmaps. */
  lemma ReapLeaksNothing(fs: Fs, s: U32)
    requires s != 0 && BlocksOk(fs)
    ensures Leaked(Reap(fs, s)) == Leaked(fs)
  {
    var g := Reap(fs, s);
    forall d
      ensures d in Leaked(g) <==> d in Leaked(fs)
    {
      if Mapped(fs.blocks, d) {
        var k :| k in fs.blocks && fs.blocks[k].disk == d;
        if Owner(fs, fs.blocks[k].file) != s {
          assert k in g.blocks && g.blocks[k].disk == d;
        } else {
          assert d !in g.used;
        }
      } else {
        assert forall j :: j in g.blocks ==> j in fs.blocks && g.blocks[j] == fs.blocks[j];
      }
    }
  }

  /** Nothing the run leaks was in use before it. */
  lemma LeakIsNew(fs: Fs, g: Fs, s: U32, id: int)
    requires Gone(fs, s) && Same(fs, g, s) && BlocksOk(g) && Leaked(fs) <= Leaked(g) && Owner(g, id) == s
    ensures DisksOf(g.blocks, id) !! fs.used
  {
    forall d | d in DisksOf(g.blocks, id)
      ensures d !in fs.used
    {
      var k :| k in g.blocks && g.blocks[k].file == id && g.blocks[k].disk == d;
      if Mapped(fs.blocks, d) {
        var j :| j in fs.blocks && fs.blocks[j].disk == d;
        assert ForeignBlock(fs, s, j);
      }
      assert Mapped(g.blocks, d);
      assert d !in Leaked(fs);
    }
  }

  /** Deletions hit the session's own files only. */
  lemma DeletedIsOwn(fs: Fs, s: U32, op: Op)
    requires Allowed(fs, s, op)
    ensures Deleted(fs, s, op) != 0 ==> Owner(fs, Deleted(fs, s, op)) == s
  {
  }

  lemma {:induction false} RunLeakIsNew(fs: Fs, g: Fs, s: U32, ops: seq<Op>)
    requires s != 0 && Gone(fs, s) && Wf(g, s) && AllowedRun(g, s, ops)
    requires Same(fs, g, s) && Leaked(fs) <= Leaked(g)
    ensures RunLeak(g, s, ops) !! fs.used
    decreases |ops|
  {
    if ops != [] {
      var h, id := Step(g, s, ops[0]), Deleted(g, s, ops[0]);
      DeletedIsOwn(g, s, ops[0]);
      if id != 0 {
        LeakIsNew(fs, g, s, id);
      }
      assert DisksOf(g.blocks, 0) == {} by {
        assert forall k :: k in g.blocks ==> g.blocks[k].file != 0;
      }
      StepKeeps(g, s, ops[0]);
      StepLeaks(g, s, ops[0]);
      SameTransitive(fs, g, h, s);
      RunLeakIsNew(fs, h, s, ops[1..]);
    }
  }

  lemma UsedIsMappedOrLeaked(fs: Fs)
    requires BlocksOk(fs)
    ensures forall d :: d in fs.used <==> d in Leaked(fs) || Mapped(fs.blocks, d)
  {
  }

  /** After the reap the disk bitmap is what it was plus the blocks of the files the session
      deleted, none of which was in use before.  So the bitmap is restored exactly when the
      session deleted no file that had a block. */
  lemma DiskAfterSession(fs: Fs, s: U32, ops: seq<Op>)
    requires s != 0 && Wf(fs, s) && Gone(fs, s) && AllowedRun(fs, s, ops)
    ensures var g := Reap(Run(fs, s, ops), s);
            && g.used == fs.used + RunLeak(fs, s, ops)
            && RunLeak(fs, s, ops) !! fs.used
            && (g.used == fs.used <==> RunLeak(fs, s, ops) == {})
  {
    hide Reap, Run, AllowedRun, RunLeak, Leaked, Face;
    var r := Run(fs, s, ops);
    var g := Reap(r, s);
    RunKeeps(fs, s, ops);
    RunLeaks(fs, s, ops);
    ReapLeaksNothing(r, s);
    SelfSame(fs, s);
    RunLeakIsNew(fs, fs, s, ops);
    SessionLeavesNothing(fs, s, ops);
    UsedIsMappedOrLeaked(fs);
    UsedIsMappedOrLeaked(g);
    var l := RunLeak(fs, s, ops);
    assert Leaked(g) == Leaked(fs) + l && g.blocks == fs.blocks;
    assert forall d :: d in g.used <==> d in fs.used || d in l;
  }

  lemma SelfSame(fs: Fs, s: U32)
    ensures Same(fs, fs, s)
  {
  }
}
