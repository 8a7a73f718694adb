/**
 Disk contents after a session: the blocks in use before it hold what they held, and the
 blocks it gives back still hold what it wrote.
 */
module ContainmentDisk {
  import opened Machine
  import opened SotfsGraph
  import opened Containment
  import opened ContainmentRun
  import opened ContainmentReap
  import opened ContainmentExample
  import opened SotfsFile

  // ---- free blocks ------------------------------------------------------------------

  /** Every block of the session holds only zeros. */
  predicate NothingWritten(fs: Fs, s: U32) {
    forall k :: k in fs.blocks && Owner(fs, fs.blocks[k].file) == s ==> Page(fs, fs.blocks[k].disk) == Zeros(BLOCK)
  }

  /** The reap clears the disk bits and not the pages, so the free blocks are all zero after it
      exactly when the session's blocks were. */
  lemma BlankAfterReapIff(fs: Fs, s: U32)
    requires s != 0 && BlocksOk(fs) && Blank(fs)
    ensures Blank(Reap(fs, s)) <==> NothingWritten(fs, s)
  {
    var g := Reap(fs, s);
    assert forall d :: Page(g, d) == Page(fs, d);
    forall k | k in fs.blocks && Owner(fs, fs.blocks[k].file) == s
      ensures fs.blocks[k].disk !in g.used
    {
    }
    if !NothingWritten(fs, s) {
      var k :| k in fs.blocks && Owner(fs, fs.blocks[k].file) == s && Page(fs, fs.blocks[k].disk) != Zeros(BLOCK);
      assert fs.blocks[k].disk in g.pages;
    } else {
      forall d | d in g.pages && d !in g.used
        ensures Page(g, d) == Zeros(BLOCK)
      {
        if d in fs.used {
          var k :| k in fs.blocks && Owner(fs, fs.blocks[k].file) == s && fs.blocks[k].disk == d;
        }
      }
    }
  }

  /** Whoever is given one of those blocks next reads the ended session's bytes around the
      bytes just written. */
  lemma ReapedBytesShow(fs: Fs, s: U32, k: int, file: int, cur: nat, chunk: seq<Byte>, orig: nat, i: nat)
    requires Wf(fs, s) && s != 0 && k in fs.blocks && Owner(fs, fs.blocks[k].file) == s
    requires var g := Reap(fs, s);
             && file in g.inodes && cur % BLOCK + |chunk| <= BLOCK
             && FindBlock(g.blocks, file, Base(cur)) == 0 && BlockFor(g, file, Base(cur), orig).0 != 0
             && DiskAlloc(g.used, g.diskBlocks) == fs.blocks[k].disk
    requires Base(i) == Base(cur) && !(cur <= i < cur + |chunk|)
    ensures ByteAt(WriteChunk(Reap(fs, s), file, cur, chunk, orig).1, file, i) == Page(fs, fs.blocks[k].disk)[i % BLOCK]
  {
    hide ByteAt, WriteChunk, FindBlock, BlockFor, DiskAlloc, Reap;
    ReapWf(fs, s);
    NewBlockShowsDisk(Reap(fs, s), file, cur, chunk, orig, i);
    ReapPage(fs, s, fs.blocks[k].disk);
  }

  // ---- pages over a run -------------------------------------------------------------

  lemma {:induction false} LoopBlank(fs: Fs, s: U32, file: int, off: nat, buf: seq<Byte>, orig: nat, done: nat)
    requires Mine(fs, s, file) && done <= |buf| && Blank(fs)
    ensures Blank(WriteLoop(fs, file, off, buf, orig, done).1)
    decreases |buf| - done
  {
    hide Mine, DataKept, WriteChunk, WriteLoop, Blank;
    LoopUnfolds(fs, file, off, buf, orig, done);
    if done < |buf| {
      var n := ChunkLen(off + done, |buf| - done);
      var r := WriteChunk(fs, file, off + done, buf[done..done + n], orig);
      ChunkKeeps(fs, s, file, off + done, buf[done..done + n], orig);
      ChunkBlank(fs, s, file, off + done, buf[done..done + n], orig);
      if r.0 {
        DataKeptMine(fs, r.1, s, file);
        LoopBlank(r.1, s, file, off, buf, orig, done + n);
      }
    }
  }

  lemma ChunkBlank(fs: Fs, s: U32, file: int, cur: nat, chunk: seq<Byte>, orig: nat)
    requires Mine(fs, s, file) && Blank(fs) && cur % BLOCK + |chunk| <= BLOCK
    ensures Blank(WriteChunk(fs, file, cur, chunk, orig).1)
  {
    hide FindBlock, NextFree, DiskAlloc, Splice;
  }

  lemma StepBlank(fs: Fs, s: U32, op: Op)
    requires Wf(fs, s) && Blank(fs)
    ensures Blank(Step(fs, s, op))
  {
    hide WriteLoop, WriteFile, FindEdge, NextFree, Wf, Holds;
    if op.WriteNode? {
      WriteUnfolds(fs, s, op.id, op.off, op.buf);
      if Owner(fs, op.id) == s && op.id in fs.inodes {
        LoopBlank(fs, s, op.id, op.off, op.buf, fs.inodes[op.id].size, 0);
      }
    }
  }

  lemma {:induction false} RunBlank(fs: Fs, s: U32, ops: seq<Op>)
    requires s != 0 && Wf(fs, s) && AllowedRun(fs, s, ops) && Blank(fs)
    ensures Blank(Run(fs, s, ops))
    decreases |ops|
  {
    hide Blank, Step, Same;
    if ops != [] {
      StepKeeps(fs, s, ops[0]);
      StepBlank(fs, s, ops[0]);
      RunBlank(Step(fs, s, ops[0]), s, ops[1..]);
    }
  }

  /** The disk block is behind one of the session's mappings. */
  ghost predicate Holds(fs: Fs, s: U32, d: int) {
    exists k :: k in fs.blocks && Owner(fs, fs.blocks[k].file) == s && fs.blocks[k].disk == d
  }

  lemma ChunkPages(fs: Fs, file: int, cur: nat, chunk: seq<Byte>, orig: nat, d: int)
    requires cur % BLOCK + |chunk| <= BLOCK
    ensures var r := WriteChunk(fs, file, cur, chunk, orig);
            Page(r.1, d) != Page(fs, d) ==>
              && r.0
              && var j := BlockFor(fs, file, Base(cur), orig).0;
                 j in r.1.blocks && r.1.blocks[j].file == file && r.1.blocks[j].disk == d
  {
    hide FindBlock, NextFree, DiskAlloc, Splice;
  }

  lemma {:induction false} LoopPages(fs: Fs, s: U32, file: int, off: nat, buf: seq<Byte>, orig: nat, done: nat, d: int)
    requires Mine(fs, s, file) && done <= |buf|
    ensures var g := WriteLoop(fs, file, off, buf, orig, done).1;
            Page(g, d) != Page(fs, d) ==> exists k :: k in g.blocks && g.blocks[k].file == file && g.blocks[k].disk == d
    decreases |buf| - done
  {
    hide Mine, DataKept, WriteChunk, WriteLoop, Page, BlockFor;
    LoopUnfolds(fs, file, off, buf, orig, done);
    if done < |buf| {
      var n := ChunkLen(off + done, |buf| - done);
      var r := WriteChunk(fs, file, off + done, buf[done..done + n], orig);
      ChunkKeeps(fs, s, file, off + done, buf[done..done + n], orig);
      ChunkPages(fs, file, off + done, buf[done..done + n], orig, d);
      if r.0 {
        DataKeptMine(fs, r.1, s, file);
        LoopPages(r.1, s, file, off, buf, orig, done + n, d);
        var j := BlockFor(fs, file, Base(off + done), orig).0;
        if j in r.1.blocks {
          LoopKeepsBlock(r.1, file, off, buf, orig, done + n, j);
        }
      }
    }
  }

  /** A step changes only pages behind the session's own mappings. */
  lemma StepPages(fs: Fs, s: U32, op: Op, d: int)
    requires Wf(fs, s)
    ensures var g := Step(fs, s, op); Page(g, d) != Page(fs, d) ==> Holds(g, s, d)
  {
    if op.WriteNode? {
      hide WriteLoop, WriteFile;
      WriteUnfolds(fs, s, op.id, op.off, op.buf);
      if Owner(fs, op.id) == s && op.id in fs.inodes {
        LoopPages(fs, s, op.id, op.off, op.buf, fs.inodes[op.id].size, 0, d);
        LoopKeeps(fs, s, op.id, op.off, op.buf, fs.inodes[op.id].size, 0);
      }
    }
  }

  lemma {:induction false} RunPages(fs: Fs, g: Fs, s: U32, ops: seq<Op>, d: int)
    requires s != 0 && Gone(fs, s) && Wf(g, s) && AllowedRun(g, s, ops) && d in fs.used
    requires Same(fs, g, s) && Leaked(fs) <= Leaked(g)
    ensures Page(Run(g, s, ops), d) == Page(g, d)
    decreases |ops|
  {
    hide Step, Page, Same, Leaked;
    if ops != [] {
      var h := Step(g, s, ops[0]);
      StepKeeps(g, s, ops[0]);
      StepLeaks(g, s, ops[0]);
      StepPages(g, s, ops[0], d);
      SameTransitive(fs, g, h, s);
      if Holds(h, s, d) {
        var k :| k in h.blocks && Owner(h, h.blocks[k].file) == s && h.blocks[k].disk == d;
        LeakIsNew(fs, h, s, h.blocks[k].file);
        assert d in DisksOf(h.blocks, h.blocks[k].file);
      }
      RunPages(fs, h, s, ops[1..], d);
    }
  }

  /** After any run and the reap, every disk block that was in use before the session holds what
      it held, mapped or not; and if the free blocks were zero before, they are exactly when the
      session's remaining blocks were never given anything but zeros. */
  lemma PagesAfterSession(fs: Fs, s: U32, ops: seq<Op>)
    requires s != 0 && Wf(fs, s) && Gone(fs, s) && AllowedRun(fs, s, ops)
    ensures var r := Run(fs, s, ops);
            && (forall d :: d in fs.used ==> Page(Reap(r, s), d) == Page(fs, d))
            && (Blank(fs) ==> (Blank(Reap(r, s)) <==> NothingWritten(r, s)))
  {
    hide Run, AllowedRun, Page, Leaked, Reap, Blank, NothingWritten;
    var r := Run(fs, s, ops);
    RunKeeps(fs, s, ops);
    SelfSame(fs, s);
    forall d | d in fs.used
      ensures Page(Reap(r, s), d) == Page(fs, d)
    {
      RunPages(fs, fs, s, ops, d);
      ReapPage(r, s, d);
    }
    if Blank(fs) {
      RunBlank(fs, s, ops);
      BlankAfterReapIff(r, s);
    }
  }

  // ---- a history in which it happens ------------------------------------------------

  /** A write within one block is one round of the loop and the size update. */
  lemma OneRound(fs: Fs, file: int, off: nat, buf: seq<Byte>)
    requires file in fs.inodes && fs.inodes[file].kind == File && buf != [] && off % BLOCK + |buf| <= BLOCK
    ensures var r := WriteChunk(fs, file, off, buf, fs.inodes[file].size);
            r.0 ==> WriteFile(fs, file, off, buf) == (|buf|, Grow(r.1, file, off + |buf|))
  {
    hide WriteLoop, WriteChunk;
    var size := fs.inodes[file].size;
    var r := WriteChunk(fs, file, off, buf, size);
    LoopUnfolds(fs, file, off, buf, size, 0);
    LoopUnfolds(r.1, file, off, buf, size, |buf|);
    assert buf[0..0 + |buf|] == buf;
  }

  /** A round into an empty file takes the block slot at the hint and the first disk block. */
  lemma FirstRound(fs: Fs, file: int, cur: nat, chunk: seq<Byte>, h: nat)
    requires cur % BLOCK + |chunk| <= BLOCK
    requires h < MAX_BLOCKS && fs.nextBlock == h && h + 1 !in fs.blocks && 1 !in fs.used && fs.diskBlocks >= 1
    ensures WriteChunk(fs, file, cur, chunk, 0)
         == (true, Patch(AddBlock(fs, h + 1, Block(file, Base(cur), 1)), 1, cur % BLOCK, chunk))
  {
    hide NextFree;
    HintIsFree(fs.blocks.Keys, h, MAX_BLOCKS);
    assert DiskAlloc(fs.used, fs.diskBlocks) == 1;
  }

  /** The operator's empty file 2, and the session's file 3 with one full block on disk block 1. */
  predicate Secret(w: Fs, s: U32, secret: seq<Byte>) {
    && |secret| == BLOCK && s != 0
    && w.inodes.Keys == {1, 2, 3} && w.inodes[2] == Inode(File, 0x1a4, 0, 1, false, 0) && Owner(w, 2) == 0
    && w.blocks == map[1 := Block(3, 0, 1)] && Owner(w, 3) == s
    && w.nextBlock == 1 && w.used == {1} && w.diskBlocks >= 1 && Page(w, 1) == secret
  }

  lemma SessionWritesBlock(diskBlocks: nat, s: U32, secret: seq<Byte>)
    requires s != 0 && diskBlocks >= 1 && |secret| == BLOCK
    ensures var a := Create(Formatted(diskBlocks), 0, 1, "a", File, 0x1a4).1;
            var x := Create(a, s, 1, "x", File, 0x1a4).1;
            Secret(SessionWrite(x, s, 3, 0, secret), s, secret)
  {
    var f := Formatted(diskBlocks);
    NoSuchName(f.edges, 1, "a");
    NextNode(f, 0, "a", 1);
    var a := Create(f, 0, 1, "a", File, 0x1a4).1;
    assert a.edges == map[1 := Edge(1, 2, "a")];
    NoSuchName(a.edges, 1, "x");
    NextNode(a, s, "x", 2);
    var x := Create(a, s, 1, "x", File, 0x1a4).1;
    assert x.inodes[3] == Inode(File, 0x1a4, 0, 1, false, 0) && x.inodes[2] == Inode(File, 0x1a4, 0, 1, false, 0);
    hide WriteLoop, WriteChunk, WriteFile, NextFree, DiskAlloc;
    FirstRound(x, 3, 0, secret, 0);
    OneRound(x, 3, 0, secret);
    WholePage(Page(x, 1), secret);
    var w := SessionWrite(x, s, 3, 0, secret);
    assert w.blocks == map[1 := Block(3, 0, 1)];
    assert w.inodes.Keys == {1, 2, 3};
  }

  lemma WholePage(p: seq<Byte>, q: seq<Byte>)
    requires |p| == |q|
    ensures Splice(p, 0, q) == q
  {
  }

  lemma OperatorWriteShows(w: Fs, s: U32, secret: seq<Byte>, b: Byte, i: nat)
    requires Secret(w, s, secret) && i < 4000
    ensures var o := WriteFile(Reap(w, s), 2, 4000, [b]);
            o.0 == 1 && 2 in o.1.inodes && o.1.inodes[2].size == 4001 && ByteAt(o.1, 2, i) == secret[i]
  {
    hide WriteLoop, WriteChunk, WriteFile, NextFree, DiskAlloc, FindBlock, Splice;
    var r := Reap(w, s);
    assert r.blocks == map[] && r.used == {};
    assert r.inodes[2] == w.inodes[2];
    FirstRound(r, 2, 4000, [b], 1);
    OneRound(r, 2, 4000, [b]);
    var g := Patch(AddBlock(r, 2, Block(2, 0, 1)), 1, 4000, [b]);
    assert Base(4000) == 0 && Base(i) == 0 && i % BLOCK == i;
    SearchAfterAdd(r.blocks, 2, Block(2, 0, 1), 1);
    NoBlock(r, 2, 0);
    SplicedAt(secret, 4000, [b], i);
    assert Page(r, 1) == secret;
  }

  /** The operator makes "a", a session makes "x", fills one block and disconnects; then the
      operator writes one byte at offset 4000 of "a" and reads, before it, what the session
      had written. */
  lemma OperatorReadsReapedBytes(diskBlocks: nat, s: U32, secret: seq<Byte>, b: Byte, i: nat)
    requires s != 0 && diskBlocks >= 1 && |secret| == BLOCK && i < 4000
    ensures var a := Create(Formatted(diskBlocks), 0, 1, "a", File, 0x1a4).1;
            var x := Create(a, s, 1, "x", File, 0x1a4).1;
            var w := SessionWrite(x, s, 3, 0, secret);
            var o := WriteFile(Reap(w, s), 2, 4000, [b]);
            o.0 == 1 && ByteAt(o.1, 2, i) == secret[i]
  {
    hide Create, SessionWrite, WriteFile, ByteAt, Reap, Secret;
    SessionWritesBlock(diskBlocks, s, secret);
    var a := Create(Formatted(diskBlocks), 0, 1, "a", File, 0x1a4).1;
    var x := Create(a, s, 1, "x", File, 0x1a4).1;
    OperatorWriteShows(SessionWrite(x, s, 3, 0, secret), s, secret, b, i);
  }
}
