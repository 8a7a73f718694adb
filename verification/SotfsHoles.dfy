/**
 What a write to a file will do, from the state before it (src/sotfs/io.c): which disk blocks
 it takes, whether there is room for it, and whether it is a positional write on an array of
 bytes.
 */
module SotfsHoles {
  import opened Machine
  import opened SotfsGraph
  import opened Containment
  import opened ContainmentRun
  import opened SotfsFile
  import Arithmetic

  /** The disk block that is handed out after n others. */
  function Nth(used: set<int>, total: nat, n: nat): (d: int)
    decreases n
  {
    var d := DiskAlloc(used, total);
    if n == 0 then d else Nth(used + {d}, total, n - 1)
  }

  predicate Hole(blocks: map<int, Block>, file: int, base: nat) {
    FindBlock(blocks, file, base) == 0
  }

  function One(b: bool): (n: nat) {
    if b then 1 else 0
  }

  /** How many of the blocks from place `base` up to place `end` are not mapped. */
  function Holes(blocks: map<int, Block>, file: int, base: nat, end: nat): (n: nat)
    decreases end - base
  {
    if base >= end then 0 else One(Hole(blocks, file, base)) + Holes(blocks, file, base + BLOCK, end)
  }

  // ---- which blocks a write takes ---------------------------------------------------

  /** A round on a mapped block takes nothing; one on a hole maps the next disk block there. */
  ghost predicate Took(fs: Fs, g: Fs, file: int, base: nat) {
    && g.diskBlocks == fs.diskBlocks
    && (forall b: nat :: b != base ==> (Hole(g.blocks, file, b) <==> Hole(fs.blocks, file, b)))
    && (if Hole(fs.blocks, file, base) then
          var d, k := DiskAlloc(fs.used, fs.diskBlocks), FindBlock(g.blocks, file, base);
          g.used == fs.used + {d} && k != 0 && g.blocks[k].disk == d
        else g.used == fs.used)
  }

  lemma MappedIsBelow(fs: Fs, file: int, base: nat, limit: nat)
    requires Below(fs, file, limit) && base >= limit
    ensures Hole(fs.blocks, file, base)
  {
    NoBlock(fs, file, base);
  }

  lemma BlockTakes(fs: Fs, file: int, base: nat, orig: nat)
    requires Kempt(fs, file) && (base >= orig ==> Below(fs, file, base))
    ensures var r := BlockFor(fs, file, base, orig);
            r.0 != 0 ==>
              && r.1.diskBlocks == fs.diskBlocks
              && (Hole(fs.blocks, file, base) ==>
                    && r.0 !in fs.blocks && 1 <= r.0 <= MAX_BLOCKS
                    && r.1.blocks == fs.blocks[r.0 := Block(file, base, DiskAlloc(fs.used, fs.diskBlocks))]
                    && r.1.used == fs.used + {DiskAlloc(fs.used, fs.diskBlocks)})
              && (!Hole(fs.blocks, file, base) ==> r.1.blocks == fs.blocks && r.1.used == fs.used)
  {
    hide FindBlock, DiskAlloc, NextFree;
    if base >= orig {
      MappedIsBelow(fs, file, base, base);
    }
  }

  lemma {:induction false} OtherHole(blocks: map<int, Block>, k: int, b: Block, file: int, off: nat, i: nat)
    requires 1 <= i <= MAX_BLOCKS + 1 && k !in blocks && off != b.off
    ensures FindBlock(blocks[k := b], file, off, i) == FindBlock(blocks, file, off, i)
    decreases MAX_BLOCKS + 1 - i
  {
    if i <= MAX_BLOCKS {
      OtherHole(blocks, k, b, file, off, i + 1);
    }
  }

  lemma ChunkTakes(fs: Fs, file: int, cur: nat, chunk: seq<Byte>, orig: nat)
    requires Kempt(fs, file) && cur % BLOCK + |chunk| <= BLOCK
    requires Base(cur) >= orig ==> Below(fs, file, Base(cur))
    ensures var r := WriteChunk(fs, file, cur, chunk, orig); r.0 ==> Took(fs, r.1, file, Base(cur))
  {
    hide FindBlock, DiskAlloc, BlockFor, WriteChunk, Kempt, Below;
    ChunkUnfolds(fs, file, cur, chunk, orig);
    var r := BlockFor(fs, file, Base(cur), orig);
    if r.0 != 0 {
      BlockTakes(fs, file, Base(cur), orig);
      if Hole(fs.blocks, file, Base(cur)) {
        var b := Block(file, Base(cur), DiskAlloc(fs.used, fs.diskBlocks));
        SearchAfterAdd(fs.blocks, r.0, b, 1);
        forall o: nat | o != Base(cur)
          ensures FindBlock(r.1.blocks, file, o) == FindBlock(fs.blocks, file, o)
        {
          OtherHole(fs.blocks, r.0, b, file, o, 1);
        }
      }
    }
  }

  lemma {:induction false} HolesSame(fs: Fs, g: Fs, file: int, base: nat, from: nat, end: nat)
    requires Took(fs, g, file, base) && from > base
    ensures Holes(g.blocks, file, from, end) == Holes(fs.blocks, file, from, end)
    decreases end - from
  {
    hide FindBlock, DiskAlloc;
    if from < end {
      HolesSame(fs, g, file, base, from + BLOCK, end);
    }
  }

  /** The block after the one the place is in. */
  lemma NextBase(cur: nat)
    ensures Base(cur + (BLOCK - cur % BLOCK)) == Base(cur) + BLOCK == cur + (BLOCK - cur % BLOCK)
    ensures Base(Base(cur)) == Base(cur)
  {
    SameBlock(cur, 0, cur);
    SameBlock(Base(cur) + BLOCK, 0, Base(cur) + BLOCK);
    Arithmetic.DivModUnique(Base(cur) + BLOCK, BLOCK, cur / BLOCK + 1, 0);
  }

  lemma BaseOf(cur: nat, j: nat)
    requires j < BLOCK
    ensures Base(Base(cur) + j) == Base(cur)
  {
    Arithmetic.DivModUnique(Base(cur) + j, BLOCK, cur / BLOCK, j);
  }

  lemma BaseGrows(i: nat, j: nat)
    requires i <= j
    ensures Base(i) <= Base(j)
  {
    assert i / BLOCK <= j / BLOCK;
  }

  /** The hole at place b is filled with the disk block its position among the holes says. */
  ghost predicate Filled(fs: Fs, g: Fs, file: int, from: nat, b: nat) {
    var k := FindBlock(g.blocks, file, b);
    k != 0 && g.blocks[k].disk == Nth(fs.used, fs.diskBlocks, Holes(fs.blocks, file, from, b))
  }

  /** New mappings are for block places of the range. */
  predicate NewWithin(fs: Fs, g: Fs, file: int, from: nat, end: nat) {
    forall k :: k in g.blocks && k !in fs.blocks ==>
      g.blocks[k].file == file && from <= g.blocks[k].off < end && Base(g.blocks[k].off) == g.blocks[k].off
  }

  lemma FilledHere(fs: Fs, g: Fs, h: Fs, file: int, base: nat)
    requires Took(fs, g, file, base) && Hole(fs.blocks, file, base) && Kempt(h, file)
    requires forall k :: k in g.blocks ==> k in h.blocks && h.blocks[k] == g.blocks[k]
    ensures Filled(fs, h, file, base, base)
  {
    hide FindBlock, DiskAlloc;
    FindIs(h, file, FindBlock(g.blocks, file, base));
  }

  lemma FilledLater(fs: Fs, g: Fs, h: Fs, file: int, base: nat, b: nat)
    requires Took(fs, g, file, base) && base < b && Filled(g, h, file, base + BLOCK, b)
    ensures Filled(fs, h, file, base, b)
  {
    hide FindBlock, DiskAlloc;
    HolesSame(fs, g, file, base, base + BLOCK, b);
  }

  lemma GrewKeeps(g: Fs, h: Fs, file: int)
    requires Grew(g, h, file)
    ensures forall k :: k in g.blocks ==> k in h.blocks && h.blocks[k] == g.blocks[k]
    ensures forall k :: k in h.blocks && k !in g.blocks ==> h.blocks[k].file == file
  {
  }

  lemma {:induction false} LoopTakes(fs: Fs, file: int, off: nat, buf: seq<Byte>, orig: nat, done: nat, b: nat)
    requires Kempt(fs, file) && done < |buf| && Within(fs, file, orig, off + |buf|) && Ready(fs, file, orig, off + done)
    requires WriteLoop(fs, file, off, buf, orig, done).0 == |buf|
    requires Base(b) == b && Base(off + done) <= b < off + |buf| && Hole(fs.blocks, file, b)
    ensures Filled(fs, WriteLoop(fs, file, off, buf, orig, done).1, file, Base(off + done), b)
    decreases |buf| - done
  {
    hide Kempt, Laid, Grew, WriteLoop, WriteChunk, Ready, Others, Below, Within, FindBlock, Took, Filled, Hole;
    var cur := off + done;
    LoopUnfolds(fs, file, off, buf, orig, done);
    LoopWrites(fs, file, off, buf, orig, done);
    var n := ChunkLen(cur, |buf| - done);
    var r := WriteChunk(fs, file, cur, buf[done..done + n], orig);
    ReadyBelow(fs, file, orig, cur);
    ChunkWrites(fs, file, cur, buf[done..done + n], orig);
    ChunkTakes(fs, file, cur, buf[done..done + n], orig);
    NextBase(cur);
    var h := WriteLoop(r.1, file, off, buf, orig, done + n).1;
    OthersWithin(fs, r.1, file, orig, cur, off + |buf|);
    if done + n < |buf| {
      ReadyNext(fs, r.1, file, orig, cur, n);
    }
    LoopWrites(r.1, file, off, buf, orig, done + n);
    if b == Base(cur) {
      GrewKeeps(r.1, h, file);
      FilledHere(fs, r.1, h, file, b);
    } else {
      OnwardBase(cur, b);
      TookOther(fs, r.1, file, Base(cur), b);
      LoopTakes(r.1, file, off, buf, orig, done + n, b);
      FilledLater(fs, r.1, h, file, Base(cur), b);
    }
  }

  lemma TookOther(fs: Fs, g: Fs, file: int, base: nat, b: nat)
    requires Took(fs, g, file, base) && b != base
    ensures Hole(g.blocks, file, b) <==> Hole(fs.blocks, file, b)
  {
  }

  /** Two different block places are at least a block apart. */
  lemma OnwardBase(cur: nat, b: nat)
    requires Base(b) == b && b > Base(cur)
    ensures b >= Base(cur) + BLOCK
  {
    var p, q := b / BLOCK, cur / BLOCK;
    assert b == p * BLOCK && Base(cur) == q * BLOCK;
    assert p > q;
  }

  lemma {:induction false} LoopNewWithin(fs: Fs, file: int, off: nat, buf: seq<Byte>, orig: nat, done: nat)
    requires Kempt(fs, file) && done <= |buf| && Within(fs, file, orig, off + |buf|)
    requires done < |buf| ==> Ready(fs, file, orig, off + done)
    requires WriteLoop(fs, file, off, buf, orig, done).0 == |buf|
    ensures NewWithin(fs, WriteLoop(fs, file, off, buf, orig, done).1, file, Base(off + done), off + |buf|)
    decreases |buf| - done
  {
    hide Kempt, Laid, WriteLoop, WriteChunk, Ready, Below, Within, FindBlock;
    LoopUnfolds(fs, file, off, buf, orig, done);
    if done < |buf| {
      var cur := off + done;
      var n := ChunkLen(cur, |buf| - done);
      var r := WriteChunk(fs, file, cur, buf[done..done + n], orig);
      ReadyBelow(fs, file, orig, cur);
      ChunkWrites(fs, file, cur, buf[done..done + n], orig);
      NextBase(cur);
      OthersWithin(fs, r.1, file, orig, cur, off + |buf|);
      if done + n < |buf| {
        ReadyNext(fs, r.1, file, orig, cur, n);
      }
      LoopNewWithin(r.1, file, off, buf, orig, done + n);
      LoopWrites(r.1, file, off, buf, orig, done + n);
      assert Base(cur) <= Base(cur + n);
    }
  }

  // ---- when a write is positional ---------------------------------------------------

  /** The last place of the range is in this block. */
  function LastBase(off: nat, len: nat): (b: nat)
    requires len > 0
  {
    Base(off + len - 1)
  }

  /** The page is zero in [from, to). */
  predicate ZeroIn(page: seq<Byte>, from: nat, to: nat)
    requires to <= |page|
  {
    forall j :: from <= j < to ==> page[j] == 0
  }

  /** If the range starts in a hole, the first disk block to be taken is zero in front of it; if
      it ends in a hole, the block to be taken for that one is zero behind it. */
  predicate CleanEdges(fs: Fs, file: int, off: nat, len: nat)
    requires len > 0
  {
    var first, last := Base(off), LastBase(off, len);
    && (Hole(fs.blocks, file, first) ==> ZeroIn(Page(fs, DiskAlloc(fs.used, fs.diskBlocks)), 0, off % BLOCK))
    && (Hole(fs.blocks, file, last) ==>
          ZeroIn(Page(fs, Nth(fs.used, fs.diskBlocks, Holes(fs.blocks, file, first, last))), off + len - last, BLOCK))
  }

  /** A new block is exposed only in front of the range, in its first block, or behind it, in
      its last one. */
  lemma ExposedWhere(fs: Fs, g: Fs, file: int, off: nat, buf: seq<Byte>, i: nat)
    requires buf != [] && NewWithin(fs, g, file, Base(off), off + |buf|) && Exposed(fs, g, file, off, buf, i)
    ensures (i < off && Base(i) == Base(off)) || (i >= off + |buf| && Base(i) == LastBase(off, |buf|))
  {
    hide FindBlock;
    var b, end := Base(i), off + |buf|;
    assert Base(off) <= b < end;
    if i < off {
      BaseOf(off, i - Base(off));
    } else {
      BaseOf(i, end - 1 - b);
    }
  }

  /** The loop's state, with the size grown, is what the write returns. */
  lemma WriteIsLoop(fs: Fs, file: int, off: nat, buf: seq<Byte>)
    requires file in fs.inodes && fs.inodes[file].kind == File && buf != []
    ensures var r, w := WriteFile(fs, file, off, buf), WriteLoop(fs, file, off, buf, fs.inodes[file].size, 0);
            && (r.0 == |buf| <==> w.0 == |buf|)
            && (r.0 == |buf| ==> r.1.blocks == w.1.blocks && r.1.used == w.1.used)
  {
    hide WriteLoop;
  }

  lemma StartsReady(fs: Fs, file: int, off: nat, len: nat)
    requires Mapped(fs, file)
    ensures file in fs.inodes && Kempt(fs, file) && Within(fs, file, fs.inodes[file].size, off + len)
    ensures Ready(fs, file, fs.inodes[file].size, off)
  {
  }

  /** Every hole of the range is filled with the disk block its position among them says. */
  lemma WriteTakes(fs: Fs, file: int, off: nat, buf: seq<Byte>, b: nat)
    requires Mapped(fs, file) && fs.inodes[file].kind == File && buf != [] && WriteFile(fs, file, off, buf).0 == |buf|
    requires Base(b) == b && Base(off) <= b < off + |buf| && Hole(fs.blocks, file, b)
    ensures Filled(fs, WriteFile(fs, file, off, buf).1, file, Base(off), b)
  {
    hide WriteLoop, WriteFile, Kempt, Within, Ready, FindBlock, Nth, Holes, Hole;
    StartsReady(fs, file, off, |buf|);
    WriteIsLoop(fs, file, off, buf);
    LoopTakes(fs, file, off, buf, fs.inodes[file].size, 0, b);
  }

  lemma WriteNewWithin(fs: Fs, file: int, off: nat, buf: seq<Byte>)
    requires Mapped(fs, file) && fs.inodes[file].kind == File && buf != [] && WriteFile(fs, file, off, buf).0 == |buf|
    ensures NewWithin(fs, WriteFile(fs, file, off, buf).1, file, Base(off), off + |buf|)
  {
    hide WriteLoop, WriteFile, Kempt, Within, Ready;
    StartsReady(fs, file, off, |buf|);
    WriteIsLoop(fs, file, off, buf);
    LoopNewWithin(fs, file, off, buf, fs.inodes[file].size, 0);
  }

  /** What an exposed place of the new block at b shows. */
  lemma FilledShows(fs: Fs, g: Fs, file: int, from: nat, b: nat, i: nat)
    requires Filled(fs, g, file, from, b) && Base(i) == b
    ensures Under(fs, g, file, i) == Page(fs, Nth(fs.used, fs.diskBlocks, Holes(fs.blocks, file, from, b)))[i - b]
  {
    hide FindBlock, Nth, Holes;
    assert i % BLOCK == i - b;
  }

  lemma NoneBefore(fs: Fs, file: int, base: nat)
    ensures Nth(fs.used, fs.diskBlocks, Holes(fs.blocks, file, base, base)) == DiskAlloc(fs.used, fs.diskBlocks)
  {
  }

  /** A place of a new block was in a hole. */
  lemma ExposedWasHole(fs: Fs, g: Fs, file: int, off: nat, buf: seq<Byte>, i: nat)
    requires Kempt(fs, file) && Kempt(g, file) && Grew(fs, g, file) && Exposed(fs, g, file, off, buf, i)
    ensures Hole(fs.blocks, file, Base(i))
  {
    hide FindBlock;
    FindStays(fs, g, file, file, Base(i));
  }

  lemma FilledIsExposed(fs: Fs, g: Fs, file: int, off: nat, buf: seq<Byte>, b: nat, i: nat)
    requires Kempt(fs, file) && Kempt(g, file) && Grew(fs, g, file)
    requires Hole(fs.blocks, file, b) && Filled(fs, g, file, Base(off), b) && Base(i) == b
    requires !(off <= i < off + |buf|)
    ensures Exposed(fs, g, file, off, buf, i)
  {
    hide FindBlock, Nth, Holes;
    FindStays(fs, g, file, file, b);
  }

  /** What a complete write did, as far as its edges are concerned. */
  ghost predicate Settled(fs: Fs, g: Fs, file: int, off: nat, buf: seq<Byte>)
    requires buf != []
  {
    && Kempt(fs, file) && Kempt(g, file) && Grew(fs, g, file)
    && NewWithin(fs, g, file, Base(off), off + |buf|)
    && (Hole(fs.blocks, file, Base(off)) ==> Filled(fs, g, file, Base(off), Base(off)))
    && (Hole(fs.blocks, file, LastBase(off, |buf|)) ==> Filled(fs, g, file, Base(off), LastBase(off, |buf|)))
  }

  lemma WriteSettles(fs: Fs, file: int, off: nat, buf: seq<Byte>)
    requires Mapped(fs, file) && fs.inodes[file].kind == File && buf != [] && WriteFile(fs, file, off, buf).0 == |buf|
    ensures Settled(fs, WriteFile(fs, file, off, buf).1, file, off, buf)
  {
    hide WriteFile, Grew, Laid, Filled, NewWithin, Hole, Below;
    WriteOnAnyDisk(fs, file, off, buf);
    WriteNewWithin(fs, file, off, buf);
    NextBase(off);
    NextBase(off + |buf| - 1);
    BaseGrows(off, off + |buf| - 1);
    if Hole(fs.blocks, file, Base(off)) {
      WriteTakes(fs, file, off, buf, Base(off));
    }
    if Hole(fs.blocks, file, LastBase(off, |buf|)) {
      WriteTakes(fs, file, off, buf, LastBase(off, |buf|));
    }
  }

  lemma CleanShowsZero(fs: Fs, g: Fs, file: int, off: nat, buf: seq<Byte>, i: nat)
    requires buf != [] && Settled(fs, g, file, off, buf) && CleanEdges(fs, file, off, |buf|)
    requires Exposed(fs, g, file, off, buf, i)
    ensures Under(fs, g, file, i) == 0
  {
    hide Filled, Hole, Exposed, Under, Page, Nth, Holes, Kempt, Grew, NewWithin;
    ExposedWhere(fs, g, file, off, buf, i);
    ExposedWasHole(fs, g, file, off, buf, i);
    FilledShows(fs, g, file, Base(off), Base(i), i);
    NoneBefore(fs, file, Base(off));
  }

  lemma ZeroShowsClean(fs: Fs, g: Fs, file: int, off: nat, buf: seq<Byte>)
    requires buf != [] && Settled(fs, g, file, off, buf)
    requires forall i: nat :: Exposed(fs, g, file, off, buf, i) ==> Under(fs, g, file, i) == 0
    ensures CleanEdges(fs, file, off, |buf|)
  {
    hide Filled, Hole, Exposed, Under, Page, Nth, Holes, Kempt, Grew, NewWithin;
    var first, last := Base(off), LastBase(off, |buf|);
    NoneBefore(fs, file, first);
    if Hole(fs.blocks, file, first) {
      forall j | 0 <= j < off % BLOCK
        ensures Page(fs, DiskAlloc(fs.used, fs.diskBlocks))[j] == 0
      {
        BaseOf(off, j);
        FilledIsExposed(fs, g, file, off, buf, first, first + j);
        FilledShows(fs, g, file, first, first, first + j);
      }
    }
    if Hole(fs.blocks, file, last) {
      forall j | off + |buf| - last <= j < BLOCK
        ensures Page(fs, Nth(fs.used, fs.diskBlocks, Holes(fs.blocks, file, first, last)))[j] == 0
      {
        BaseOf(off + |buf| - 1, j);
        FilledIsExposed(fs, g, file, off, buf, last, last + j);
        FilledShows(fs, g, file, first, last, last + j);
      }
    }
  }

  /** A complete write is a positional write on an array of bytes if and only if the disk blocks
      it is about to take are zero in front of the range and behind it. */
  lemma PositionalIff(fs: Fs, file: int, off: nat, buf: seq<Byte>)
    requires Mapped(fs, file) && fs.inodes[file].kind == File && buf != [] && WriteFile(fs, file, off, buf).0 == |buf|
    ensures Wrote(fs, WriteFile(fs, file, off, buf).1, file, off, buf) <==> CleanEdges(fs, file, off, |buf|)
  {
    hide WriteFile, Wrote, Settled, CleanEdges, Mapped, Exposed, Under;
    var g := WriteFile(fs, file, off, buf).1;
    WriteSettles(fs, file, off, buf);
    UnseenIffZero(fs, file, off, buf);
    if CleanEdges(fs, file, off, |buf|) {
      forall i: nat | Exposed(fs, g, file, off, buf, i)
        ensures Under(fs, g, file, i) == 0
      {
        CleanShowsZero(fs, g, file, off, buf, i);
      }
    } else if Wrote(fs, g, file, off, buf) {
      ZeroShowsClean(fs, g, file, off, buf);
    }
  }

  // ---- when there is room -----------------------------------------------------------

  function Ids(n: nat): (ids: set<int>)
    ensures forall i :: i in ids <==> 1 <= i <= n
  {
    if n == 0 then {} else Ids(n - 1) + {n as int}
  }

  lemma {:induction false} IdsSize(n: nat)
    ensures |Ids(n)| == n
  {
    if n > 0 {
      IdsSize(n - 1);
    }
  }

  lemma SubsetSize(a: set<int>, b: set<int>)
    requires a <= b
    ensures |a| <= |b| && (|a| == |b| ==> a == b)
  {
    assert b == a + (b - a);
  }

  lemma {:induction false} NextFreeNone(taken: set<int>, hint: nat, max: nat, i: nat, j: nat)
    requires 0 < max && i <= j < max && NextFree(taken, hint, max, i) == 0
    ensures (hint + j) % max + 1 in taken
    decreases max - i
  {
    if i < j {
      NextFreeNone(taken, hint, max, i + 1, j);
    }
  }

  lemma Reaches(hint: nat, max: nat, id: nat) returns (j: nat)
    requires 1 <= id <= max
    ensures j < max && (hint + j) % max + 1 == id
  {
    j := (id - 1 - hint) % max;
    var q := (id - 1 - hint) / max;
    assert id - 1 - hint == max * q + j;
    assert hint + j == max * (-q) + (id - 1);
    Arithmetic.DivModUnique(hint + j, max, -q, id - 1);
  }

  /** A slot can be had exactly when not all are taken. */
  lemma FreeIff(taken: set<int>, hint: nat, max: nat)
    requires 0 < max && forall i :: i in taken ==> 1 <= i <= max
    ensures NextFree(taken, hint, max) != 0 <==> |taken| < max
  {
    hide NextFree;
    IdsSize(max);
    SubsetSize(taken, Ids(max));
    if NextFree(taken, hint, max) == 0 {
      forall i | 1 <= i <= max
        ensures i in taken
      {
        var j := Reaches(hint, max, i);
        NextFreeNone(taken, hint, max, 0, j);
      }
      assert Ids(max) == taken;
    } else {
      assert NextFree(taken, hint, max) in Ids(max) && NextFree(taken, hint, max) !in taken;
    }
  }

  /** The clear bits of the disk bitmap. */
  function Clear(used: set<int>, total: nat): (d: set<int>) {
    set d | 1 <= d <= total && d !in used
  }

  lemma {:induction false} AllocNone(used: set<int>, total: nat, i: nat, d: nat)
    requires 1 <= i <= d <= total && DiskAlloc(used, total, i) == 0
    ensures d in used
    decreases total - i
  {
    if i < d {
      AllocNone(used, total, i + 1, d);
    }
  }

  lemma AllocIff(used: set<int>, total: nat)
    ensures DiskAlloc(used, total) != 0 <==> |Clear(used, total)| > 0
    ensures var d := DiskAlloc(used, total); d != 0 ==> |Clear(used + {d}, total)| == |Clear(used, total)| - 1
  {
    hide DiskAlloc;
    var d := DiskAlloc(used, total);
    if d == 0 {
      forall e | 1 <= e <= total
        ensures e in used
      {
        AllocNone(used, total, 1, e);
      }
      assert Clear(used, total) == {};
    } else {
      assert d in Clear(used, total);
      assert Clear(used + {d}, total) == Clear(used, total) - {d};
    }
  }

  /** Mapping slots and disk blocks for n more blocks. */
  predicate RoomFor(fs: Fs, n: nat) {
    n <= MAX_BLOCKS - |fs.blocks| && n <= |Clear(fs.used, fs.diskBlocks)|
  }

  lemma BlockIff(fs: Fs, file: int, base: nat, orig: nat)
    requires Kempt(fs, file) && (base >= orig ==> Below(fs, file, base))
    ensures BlockFor(fs, file, base, orig).0 != 0 <==> (Hole(fs.blocks, file, base) ==> RoomFor(fs, 1))
  {
    hide FindBlock, DiskAlloc, NextFree;
    if base >= orig {
      MappedIsBelow(fs, file, base, base);
    }
    assert fs.blocks.Keys == (set k | k in fs.blocks);
    KeysSize(fs.blocks);
    FreeIff(fs.blocks.Keys, fs.nextBlock, MAX_BLOCKS);
    AllocIff(fs.used, fs.diskBlocks);
  }

  lemma KeysSize(m: map<int, Block>)
    ensures |m.Keys| == |m|
  {
  }

  /** A round takes room for one block exactly when it fills a hole. */
  lemma ChunkRoom(fs: Fs, file: int, cur: nat, chunk: seq<Byte>, orig: nat, n: nat)
    requires Kempt(fs, file) && cur % BLOCK + |chunk| <= BLOCK
    requires Base(cur) >= orig ==> Below(fs, file, Base(cur))
    ensures var r := WriteChunk(fs, file, cur, chunk, orig);
            && (r.0 <==> (Hole(fs.blocks, file, Base(cur)) ==> RoomFor(fs, 1)))
            && (r.0 ==> (RoomFor(r.1, n) <==> RoomFor(fs, One(Hole(fs.blocks, file, Base(cur))) + n)))
  {
    hide FindBlock, DiskAlloc, BlockFor, WriteChunk, Kempt, Below, Clear;
    ChunkUnfolds(fs, file, cur, chunk, orig);
    BlockIff(fs, file, Base(cur), orig);
    var r := BlockFor(fs, file, Base(cur), orig);
    if r.0 != 0 {
      BlockTakes(fs, file, Base(cur), orig);
      AllocIff(fs.used, fs.diskBlocks);
      if Hole(fs.blocks, file, Base(cur)) {
        var d := DiskAlloc(fs.used, fs.diskBlocks);
        AddedSize(fs.blocks, r.0, Block(file, Base(cur), d));
      }
    }
  }

  lemma AddedSize(m: map<int, Block>, k: int, b: Block)
    requires k !in m
    ensures |m[k := b]| == |m| + 1
  {
    assert m[k := b].Keys == m.Keys + {k};
    KeysSize(m);
    KeysSize(m[k := b]);
  }

  lemma {:induction false} LoopCompleteIff(fs: Fs, file: int, off: nat, buf: seq<Byte>, orig: nat, done: nat)
    requires Kempt(fs, file) && done < |buf| && Ready(fs, file, orig, off + done)
    ensures WriteLoop(fs, file, off, buf, orig, done).0 == |buf|
       <==> RoomFor(fs, Holes(fs.blocks, file, Base(off + done), off + |buf|))
    decreases |buf| - done
  {
    hide Kempt, Laid, Grew, WriteLoop, WriteChunk, Ready, Others, Below, FindBlock, Took, Hole, RoomFor;
    var cur, end := off + done, off + |buf|;
    LoopUnfolds(fs, file, off, buf, orig, done);
    var n := ChunkLen(cur, |buf| - done);
    var r := WriteChunk(fs, file, cur, buf[done..done + n], orig);
    ReadyBelow(fs, file, orig, cur);
    var rest := Holes(fs.blocks, file, Base(cur) + BLOCK, end);
    ChunkRoom(fs, file, cur, buf[done..done + n], orig, rest);
    NextBase(cur);
    if RoomFor(fs, One(Hole(fs.blocks, file, Base(cur))) + rest) {
      RoomShrinks(fs, One(Hole(fs.blocks, file, Base(cur))), rest);
    }
    if r.0 {
      ChunkWrites(fs, file, cur, buf[done..done + n], orig);
      ChunkTakes(fs, file, cur, buf[done..done + n], orig);
      HolesSame(fs, r.1, file, Base(cur), Base(cur) + BLOCK, end);
      if done + n < |buf| {
        ReadyNext(fs, r.1, file, orig, cur, n);
        LoopCompleteIff(r.1, file, off, buf, orig, done + n);
      } else {
        LoopUnfolds(r.1, file, off, buf, orig, done + n);
        KemptRoom(r.1, file);
      }
    }
  }

  lemma RoomShrinks(fs: Fs, a: nat, b: nat)
    requires RoomFor(fs, a + b)
    ensures RoomFor(fs, a)
  {
  }

  lemma KemptRoom(fs: Fs, file: int)
    requires Kempt(fs, file)
    ensures RoomFor(fs, 0)
  {
    IdsSize(MAX_BLOCKS);
    SubsetSize(fs.blocks.Keys, Ids(MAX_BLOCKS));
    KeysSize(fs.blocks);
  }

  /** A write is complete if and only if there are mapping slots and clear disk blocks for the
      holes in its range. */
  lemma CompleteIff(fs: Fs, file: int, off: nat, buf: seq<Byte>)
    requires Mapped(fs, file) && fs.inodes[file].kind == File && buf != []
    ensures WriteFile(fs, file, off, buf).0 == |buf| <==> RoomFor(fs, Holes(fs.blocks, file, Base(off), off + |buf|))
  {
    hide WriteLoop, WriteFile, Kempt, Within, Ready, Holes, RoomFor;
    StartsReady(fs, file, off, |buf|);
    WriteIsLoop(fs, file, off, buf);
    LoopCompleteIff(fs, file, off, buf, fs.inodes[file].size, 0);
  }
}
