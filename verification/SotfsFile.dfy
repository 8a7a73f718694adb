/**
 File data in the shared graph (src/sotfs/io.c): block mappings and read-modify-write pages,
 against a plain array of bytes.
 */
module SotfsFile {
  import opened Machine
  import opened SotfsGraph
  import opened Containment
  import opened ContainmentRun
  import Arithmetic

  function Base(i: nat): (b: nat)
    ensures b <= i < b + BLOCK
  {
    i - i % BLOCK
  }

  /** The bytes of one block sit at consecutive places of its page. */
  lemma SameBlock(cur: nat, n: nat, i: nat)
    requires cur % BLOCK + n <= BLOCK
    ensures cur <= i < cur + n ==> Base(i) == Base(cur) && i % BLOCK == cur % BLOCK + (i - cur)
    ensures Base(i) == Base(cur) ==> i % BLOCK == cur % BLOCK + (i - cur)
    ensures Base(Base(i)) == Base(i) && Base(i) % BLOCK == 0
  {
    var q := cur / BLOCK;
    assert cur == q * BLOCK + cur % BLOCK;
    if cur <= i < cur + n {
      Arithmetic.DivModUnique(i, BLOCK, q, cur % BLOCK + (i - cur));
    }
    var p := i / BLOCK;
    assert i == p * BLOCK + i % BLOCK && Base(i) == p * BLOCK;
    Arithmetic.DivModUnique(Base(i), BLOCK, p, 0);
  }

  // ---- well-kept files --------------------------------------------------------------

  /** No two mappings of the file are for the same place. */
  predicate Unique(fs: Fs, file: int) {
    forall j, k :: j in fs.blocks && k in fs.blocks && j != k && fs.blocks[j].file == file && fs.blocks[k].file == file ==>
      fs.blocks[j].off != fs.blocks[k].off
  }

  /** Every mapping of the file is for a place below `limit`. */
  predicate Below(fs: Fs, file: int, limit: nat) {
    forall k :: k in fs.blocks && fs.blocks[k].file == file ==> fs.blocks[k].off < limit
  }

  /** Disk blocks not in use hold zeros. */
  predicate Blank(fs: Fs) {
    forall d :: d in fs.pages && d !in fs.used ==> Page(fs, d) == Zeros(BLOCK)
  }

  lemma BlankPage(fs: Fs, d: int)
    requires Blank(fs) && d !in fs.used
    ensures Page(fs, d) == Zeros(BLOCK)
  {
  }

  // ---- one round of the write loop --------------------------------------------------

  /** The mapping FindBlock returns is the only one for its place. */
  lemma FindIs(fs: Fs, file: int, k: int)
    requires BlocksOk(fs) && Unique(fs, file) && k in fs.blocks && fs.blocks[k].file == file
    ensures FindBlock(fs.blocks, file, fs.blocks[k].off) == k
  {
    assert IsBlock(fs.blocks[k], file, fs.blocks[k].off);
  }

  lemma NoBlock(fs: Fs, file: int, off: nat)
    requires forall k :: k in fs.blocks && fs.blocks[k].file == file ==> fs.blocks[k].off != off
    ensures FindBlock(fs.blocks, file, off) == 0
  {
  }

  /** A mapping that can be added: a free slot, a clear disk block, a new place in the file. */
  predicate Addable(fs: Fs, k: int, b: Block) {
    && 1 <= k <= MAX_BLOCKS && k !in fs.blocks && b.disk !in fs.used && b.file in fs.inodes
    && forall j :: j in fs.blocks && fs.blocks[j].file == b.file ==> fs.blocks[j].off != b.off
  }

  predicate Kempt(fs: Fs, file: int) {
    BlocksOk(fs) && Unique(fs, file) && file in fs.inodes
  }

  lemma AddKempt(fs: Fs, k: int, b: Block)
    requires Kempt(fs, b.file) && Addable(fs, k, b)
    ensures Kempt(AddBlock(fs, k, b), b.file)
  {
    var g := AddBlock(fs, k, b);
    assert forall j :: j in g.blocks ==> j == k || (j in fs.blocks && g.blocks[j] == fs.blocks[j]);
  }

  lemma {:induction false} SameSearch(a: map<int, Block>, b: map<int, Block>, f: int, off: nat, i: nat)
    requires 1 <= i <= MAX_BLOCKS + 1
    requires forall j :: j in a ==> j in b && b[j] == a[j]
    requires forall j :: j in b && j !in a ==> !IsBlock(b[j], f, off)
    ensures FindBlock(b, f, off, i) == FindBlock(a, f, off, i)
    decreases MAX_BLOCKS + 1 - i
  {
    if i <= MAX_BLOCKS {
      SameSearch(a, b, f, off, i + 1);
    }
  }

  lemma PatchByte(fs: Fs, k: int, cur: nat, chunk: seq<Byte>, f: int, i: nat)
    requires k in fs.blocks && Kempt(fs, fs.blocks[k].file) && fs.blocks[k].off == Base(cur)
    requires cur % BLOCK + |chunk| <= BLOCK
    ensures var g, file := Patch(fs, fs.blocks[k].disk, cur % BLOCK, chunk), fs.blocks[k].file;
            ByteAt(g, f, i) == if f == file && cur <= i < cur + |chunk| then chunk[i - cur] else ByteAt(fs, f, i)
  {
    hide FindBlock, Splice;
    var d, file := fs.blocks[k].disk, fs.blocks[k].file;
    var g := Patch(fs, d, cur % BLOCK, chunk);
    var j := FindBlock(fs.blocks, f, Base(i));
    SameBlock(cur, |chunk|, i);
    FindIs(fs, file, k);
    assert g.blocks == fs.blocks;
    if j != 0 && j != k {
      assert Page(g, fs.blocks[j].disk) == Page(fs, fs.blocks[j].disk);
    } else if j == k {
      var p := Page(fs, d);
      SplicedAt(p, cur % BLOCK, chunk, i % BLOCK);
    }
  }

  lemma SplicedAt(p: seq<Byte>, at: nat, chunk: seq<Byte>, i: nat)
    requires at + |chunk| <= |p| && i < |p|
    ensures Splice(p, at, chunk)[i] == if at <= i < at + |chunk| then chunk[i - at] else p[i]
  {
  }

  lemma PatchKempt(fs: Fs, file: int, k: int, at: nat, chunk: seq<Byte>)
    requires Kempt(fs, file) && k in fs.blocks && at + |chunk| <= BLOCK
    ensures Kempt(Patch(fs, fs.blocks[k].disk, at, chunk), file)
  {
  }

  /** The file after a positional write of `data` at `cur`; every other file as before. */
  ghost predicate Wrote(fs: Fs, g: Fs, file: int, cur: nat, data: seq<Byte>) {
    forall f, i: nat :: ByteAt(g, f, i) == if f == file && cur <= i < cur + |data| then data[i - cur] else ByteAt(fs, f, i)
  }

  /** Patching the page of a mapped block writes the chunk at its place and nothing else. */
  lemma PatchWrites(fs: Fs, file: int, k: int, cur: nat, chunk: seq<Byte>)
    requires Kempt(fs, file) && k in fs.blocks && fs.blocks[k].file == file && fs.blocks[k].off == Base(cur)
    requires cur % BLOCK + |chunk| <= BLOCK
    ensures Wrote(fs, Patch(fs, fs.blocks[k].disk, cur % BLOCK, chunk), file, cur, chunk)
  {
    hide ByteAt, Patch;
    forall f, i: nat
      ensures ByteAt(Patch(fs, fs.blocks[k].disk, cur % BLOCK, chunk), f, i)
           == if f == file && cur <= i < cur + |chunk| then chunk[i - cur] else ByteAt(fs, f, i)
    {
      PatchByte(fs, k, cur, chunk, f, i);
    }
  }

  /** Mappings of the file for other places are old ones. */
  predicate Others(fs: Fs, g: Fs, file: int, base: nat) {
    forall k :: k in g.blocks && g.blocks[k].file == file && g.blocks[k].off != base ==>
      k in fs.blocks && fs.blocks[k] == g.blocks[k]
  }

  /** What a place reads as with the mappings of g over the disk of fs. */
  function Under(fs: Fs, g: Fs, f: int, i: nat): (b: Byte) {
    var k := FindBlock(g.blocks, f, Base(i));
    if k == 0 then 0 else Page(fs, g.blocks[k].disk)[i % BLOCK]
  }

  /** From fs to g the file got new mappings on clear disk blocks; the old mappings, and the
      pages of disk blocks still clear, are as before. */
  ghost predicate Grew(fs: Fs, g: Fs, file: int) {
    && (forall k :: k in fs.blocks ==> k in g.blocks && g.blocks[k] == fs.blocks[k])
    && (forall k :: k in g.blocks && k !in fs.blocks ==> g.blocks[k].file == file && g.blocks[k].disk !in fs.used)
    && fs.used <= g.used
    && (forall d :: d !in g.used ==> Page(g, d) == Page(fs, d))
  }

  /** The data is laid over what the mappings of g show of the disk of fs. */
  ghost predicate Laid(fs: Fs, g: Fs, file: int, cur: nat, data: seq<Byte>) {
    && (forall f, i: nat {:trigger ByteAt(g, f, i)} ::
          ByteAt(g, f, i) == if f == file && cur <= i < cur + |data| then data[i - cur] else Under(fs, g, f, i))
    && (forall i: nat {:trigger Base(i)} :: cur <= i < cur + |data| ==> FindBlock(g.blocks, file, Base(i)) != 0)
  }

  /** A round finds the block or maps a new one, then patches it.  Skipping the search is safe
      when nothing is mapped at or past the size the write started from, up to this place. */
  lemma ChunkWrites(fs: Fs, file: int, cur: nat, chunk: seq<Byte>, orig: nat)
    requires Kempt(fs, file) && cur % BLOCK + |chunk| <= BLOCK
    requires Base(cur) >= orig ==> Below(fs, file, Base(cur))
    ensures var r := WriteChunk(fs, file, cur, chunk, orig);
            r.0 ==>
              && Kempt(r.1, file) && Laid(fs, r.1, file, cur, chunk)
              && Grew(fs, r.1, file) && Others(fs, r.1, file, Base(cur))
  {
    hide Kempt, ByteAt, BlockFor, Patch, WriteChunk, Below, Laid, Grew;
    ChunkUnfolds(fs, file, cur, chunk, orig);
    var r := BlockFor(fs, file, Base(cur), orig);
    if r.0 != 0 {
      BlockMaps(fs, file, Base(cur), orig);
      PatchKempt(r.1, file, r.0, cur % BLOCK, chunk);
      PatchWrites(r.1, file, r.0, cur, chunk);
      PatchLays(fs, r.1, file, r.0, cur, chunk);
      PatchBlocks(r.1, r.1.blocks[r.0].disk, cur % BLOCK, chunk);
    }
  }

  lemma PatchLays(fs: Fs, g: Fs, file: int, k: int, cur: nat, chunk: seq<Byte>)
    requires Kempt(g, file) && k in g.blocks && g.blocks[k].file == file && g.blocks[k].off == Base(cur)
    requires cur % BLOCK + |chunk| <= BLOCK && Grew(fs, g, file) && forall d :: Page(g, d) == Page(fs, d)
    requires Wrote(g, Patch(g, g.blocks[k].disk, cur % BLOCK, chunk), file, cur, chunk)
    ensures var h := Patch(g, g.blocks[k].disk, cur % BLOCK, chunk); Laid(fs, h, file, cur, chunk) && Grew(fs, h, file)
  {
    hide FindBlock, Splice;
    var h := Patch(g, g.blocks[k].disk, cur % BLOCK, chunk);
    FindIs(g, file, k);
    forall i: nat | cur <= i < cur + |chunk|
      ensures FindBlock(h.blocks, file, Base(i)) != 0
    {
      SameBlock(cur, |chunk|, i);
    }
    assert forall f, i: nat :: ByteAt(g, f, i) == Under(fs, h, f, i);
  }

  lemma PatchBlocks(fs: Fs, d: int, at: nat, chunk: seq<Byte>)
    requires at + |chunk| <= BLOCK
    ensures Patch(fs, d, at, chunk).blocks == fs.blocks
  {
  }

  /** Finding or mapping the block leaves every page alone. */
  lemma BlockMaps(fs: Fs, file: int, base: nat, orig: nat)
    requires Kempt(fs, file) && (base >= orig ==> Below(fs, file, base))
    ensures var r := BlockFor(fs, file, base, orig);
            r.0 != 0 ==>
              && Kempt(r.1, file) && r.0 in r.1.blocks && r.1.blocks[r.0].file == file && r.1.blocks[r.0].off == base
              && Grew(fs, r.1, file) && (forall d :: Page(r.1, d) == Page(fs, d))
              && (forall k :: k in r.1.blocks && k != r.0 ==> k in fs.blocks && fs.blocks[k] == r.1.blocks[k])
  {
    hide FindBlock, DiskAlloc, NextFree;
    var found := FindBlock(fs.blocks, file, base);
    if base >= orig || found == 0 {
      var k := NextFree(fs.blocks.Keys, fs.nextBlock, MAX_BLOCKS);
      var d := DiskAlloc(fs.used, fs.diskBlocks);
      if k != 0 && d != 0 {
        NothingThere(fs, file, base);
        AddKempt(fs, k, Block(file, base, d));
      }
    }
  }

  /** Neither a failed search nor a bound below leaves a mapping at the place. */
  lemma NothingThere(fs: Fs, file: int, base: nat)
    requires BlocksOk(fs) && (Below(fs, file, base) || FindBlock(fs.blocks, file, base) == 0)
    ensures forall j :: j in fs.blocks && fs.blocks[j].file == file ==> fs.blocks[j].off != base
  {
    forall j | j in fs.blocks && fs.blocks[j].file == file
      ensures fs.blocks[j].off != base
    {
      assert fs.blocks[j].off == base ==> IsBlock(fs.blocks[j], file, base);
    }
  }

  // ---- a whole write ----------------------------------------------------------------

  /** Everything mapped lies below the size the write started from, or below the next block. */
  predicate Ready(fs: Fs, file: int, orig: nat, cur: nat) {
    forall k :: k in fs.blocks && fs.blocks[k].file == file ==> fs.blocks[k].off < orig || fs.blocks[k].off < Base(cur)
  }

  lemma ReadyBelow(fs: Fs, file: int, orig: nat, cur: nat)
    requires Ready(fs, file, orig, cur)
    ensures Base(cur) >= orig ==> Below(fs, file, Base(cur))
  {
  }

  /** After a round that reached the end of its block the next one starts a new block. */
  lemma ReadyNext(fs: Fs, g: Fs, file: int, orig: nat, cur: nat, n: nat)
    requires Ready(fs, file, orig, cur) && Others(fs, g, file, Base(cur)) && n == BLOCK - cur % BLOCK
    ensures Ready(g, file, orig, cur + n)
  {
    SameBlock(Base(cur) + BLOCK, 0, cur);
    Arithmetic.DivModUnique(cur + n, BLOCK, cur / BLOCK + 1, 0);
  }

  /** A mapping found before is found after, and one found after that is not new was found. */
  lemma FindStays(b: Fs, c: Fs, file: int, f: int, off: nat)
    requires Grew(b, c, file) && Kempt(c, file) && BlocksOk(b) && Unique(b, file)
    ensures var j, k := FindBlock(b.blocks, f, off), FindBlock(c.blocks, f, off);
            if j != 0 then k == j else k == 0 || k !in b.blocks
  {
    hide FindBlock, Page;
    if f != file {
      SameSearch(b.blocks, c.blocks, f, off, 1);
    } else {
      var j, k := FindBlock(b.blocks, f, off), FindBlock(c.blocks, f, off);
      if j != 0 {
        FindIs(c, file, j);
      } else if k != 0 && k in b.blocks {
        FindIs(b, file, k);
      }
    }
  }

  lemma GrewTwice(a: Fs, b: Fs, c: Fs, file: int)
    requires Grew(a, b, file) && Grew(b, c, file)
    ensures Grew(a, c, file)
  {
    hide Page;
  }

  /** A place outside what was laid last shows what it showed before, or the first disk. */
  lemma UnderTwice(a: Fs, b: Fs, c: Fs, file: int, f: int, i: nat)
    requires Grew(a, b, file) && Grew(b, c, file) && Kempt(b, file) && Kempt(c, file)
    ensures var j := FindBlock(b.blocks, f, Base(i));
            Under(b, c, f, i) == if j != 0 then ByteAt(b, f, i) else Under(a, c, f, i)
    ensures FindBlock(b.blocks, f, Base(i)) != 0 ==>
              FindBlock(c.blocks, f, Base(i)) != 0 && Under(a, c, f, i) == Under(a, b, f, i)
  {
    hide FindBlock, Kempt;
    KemptGives(b, file);
    FindStays(b, c, file, f, Base(i));
  }

  lemma KemptGives(fs: Fs, file: int)
    requires Kempt(fs, file)
    ensures BlocksOk(fs) && Unique(fs, file)
  {
  }

  lemma LaidTwice(a: Fs, b: Fs, c: Fs, file: int, off: nat, buf: seq<Byte>, m: nat, n: nat)
    requires m <= n <= |buf| && Laid(a, b, file, off + m, buf[m..n]) && Laid(b, c, file, off + n, buf[n..])
    requires Grew(a, b, file) && Grew(b, c, file) && Kempt(b, file) && Kempt(c, file)
    ensures Laid(a, c, file, off + m, buf[m..])
  {
    hide ByteAt, Under, Kempt, Grew, FindBlock, Base;
    forall f, i: nat
      ensures ByteAt(c, f, i)
           == if f == file && off + m <= i < off + m + |buf[m..]| then buf[m..][i - (off + m)] else Under(a, c, f, i)
    {
      UnderTwice(a, b, c, file, f, i);
    }
    forall i: nat | off + m <= i < off + |buf|
      ensures FindBlock(c.blocks, file, Base(i)) != 0
    {
      UnderTwice(a, b, c, file, file, i);
    }
  }

  /** Mappings of the file are for places below one of two bounds. */
  predicate Within(fs: Fs, file: int, orig: nat, end: nat) {
    forall k :: k in fs.blocks && fs.blocks[k].file == file ==> fs.blocks[k].off < orig || fs.blocks[k].off < end
  }

  lemma OthersWithin(fs: Fs, g: Fs, file: int, orig: nat, cur: nat, end: nat)
    requires Within(fs, file, orig, end) && Others(fs, g, file, Base(cur)) && cur < end
    ensures Within(g, file, orig, end)
  {
  }

  lemma ChunkInodes(fs: Fs, file: int, cur: nat, chunk: seq<Byte>, orig: nat)
    requires cur % BLOCK + |chunk| <= BLOCK
    ensures WriteChunk(fs, file, cur, chunk, orig).1.inodes == fs.inodes
  {
  }

  lemma {:induction false} LoopWrites(fs: Fs, file: int, off: nat, buf: seq<Byte>, orig: nat, done: nat)
    requires Kempt(fs, file) && done <= |buf| && Within(fs, file, orig, off + |buf|)
    requires done < |buf| ==> Ready(fs, file, orig, off + done)
    ensures var r := WriteLoop(fs, file, off, buf, orig, done);
            && (r.0 == |buf| ==>
                  && Kempt(r.1, file) && Within(r.1, file, orig, off + |buf|)
                  && Grew(fs, r.1, file) && Laid(fs, r.1, file, off + done, buf[done..]))
            && r.1.inodes == fs.inodes
    decreases |buf| - done
  {
    hide Kempt, Laid, Grew, WriteLoop, WriteChunk, Ready, Others, Below, Within;
    LoopUnfolds(fs, file, off, buf, orig, done);
    if done == |buf| {
      LaidNothing(fs, file, off + done);
      assert buf[done..] == [];
    } else {
      var n := ChunkLen(off + done, |buf| - done);
      var r := WriteChunk(fs, file, off + done, buf[done..done + n], orig);
      ReadyBelow(fs, file, orig, off + done);
      ChunkWrites(fs, file, off + done, buf[done..done + n], orig);
      ChunkInodes(fs, file, off + done, buf[done..done + n], orig);
      if r.0 {
        OthersWithin(fs, r.1, file, orig, off + done, off + |buf|);
        if done + n < |buf| {
          ReadyNext(fs, r.1, file, orig, off + done, n);
        }
        LoopWrites(r.1, file, off, buf, orig, done + n);
        if WriteLoop(r.1, file, off, buf, orig, done + n).0 == |buf| {
          var h := WriteLoop(r.1, file, off, buf, orig, done + n).1;
          LaidTwice(fs, r.1, h, file, off, buf, done, done + n);
          GrewTwice(fs, r.1, h, file);
        }
      }
    }
  }

  lemma LaidNothing(fs: Fs, file: int, cur: nat)
    ensures Grew(fs, fs, file) && Laid(fs, fs, file, cur, [])
  {
    hide FindBlock, Page;
  }

  /** Growing the file changes its size and no byte. */
  lemma GrowKeepsBytes(fs: Fs, file: int, end: nat)
    requires Kempt(fs, file)
    ensures var g := Grow(fs, file, end);
            && Kempt(g, file) && g.blocks == fs.blocks && g.used == fs.used && g.pages == fs.pages
            && g.inodes[file].size == (if end > fs.inodes[file].size then end else fs.inodes[file].size)
  {
  }

  lemma SameDisk(fs: Fs, g: Fs, h: Fs, file: int, cur: nat, data: seq<Byte>)
    requires Laid(fs, g, file, cur, data) && Grew(fs, g, file)
    requires h.blocks == g.blocks && h.used == g.used && h.pages == g.pages
    ensures Laid(fs, h, file, cur, data) && Grew(fs, h, file)
  {
    hide FindBlock;
    assert forall d :: Page(h, d) == Page(g, d);
    assert forall f, i: nat :: ByteAt(h, f, i) == ByteAt(g, f, i) && Under(fs, h, f, i) == Under(fs, g, f, i);
  }

  /** Well mapped: no place twice, none at or past the size. */
  predicate Mapped(fs: Fs, file: int) {
    Kempt(fs, file) && Below(fs, file, fs.inodes[file].size)
  }

  /** A complete write on any disk: the written range reads back, and every other place of every
      file reads what the disk held before, through the mappings as they now are; the old
      mappings stay, new ones are the file's own on clear disk blocks, and the size is the
      larger of the old one and the end of the write. */
  lemma WriteOnAnyDisk(fs: Fs, file: int, off: nat, buf: seq<Byte>)
    requires Mapped(fs, file) && fs.inodes[file].kind == File && buf != []
    ensures var r := WriteFile(fs, file, off, buf);
            r.0 == |buf| ==>
              && Mapped(r.1, file) && Grew(fs, r.1, file) && Laid(fs, r.1, file, off, buf)
              && r.1.inodes[file].size == if off + |buf| > fs.inodes[file].size then off + |buf| else fs.inodes[file].size
  {
    hide WriteLoop, WriteChunk, Laid, Grew, Grow;
    var size := fs.inodes[file].size;
    LoopWrites(fs, file, off, buf, size, 0);
    var r := WriteLoop(fs, file, off, buf, size, 0);
    if r.0 == |buf| {
      assert buf[0..] == buf;
      GrowKeepsBytes(r.1, file, off + |buf|);
      SameDisk(fs, r.1, Grow(r.1, file, off + |buf|), file, off, buf);
    }
  }

  /** The place is in a block the write mapped, outside the bytes it wrote. */
  predicate Exposed(fs: Fs, g: Fs, file: int, off: nat, buf: seq<Byte>, i: nat) {
    var k := FindBlock(g.blocks, file, Base(i));
    k != 0 && k !in fs.blocks && !(off <= i < off + |buf|)
  }

  /** So a complete write changes nothing outside its range exactly when the blocks it mapped
      show zeros there. */
  lemma UnseenIffZero(fs: Fs, file: int, off: nat, buf: seq<Byte>)
    requires Mapped(fs, file) && fs.inodes[file].kind == File && buf != [] && WriteFile(fs, file, off, buf).0 == |buf|
    ensures var g := WriteFile(fs, file, off, buf).1;
            Wrote(fs, g, file, off, buf)
            <==> forall i: nat :: Exposed(fs, g, file, off, buf, i) ==> Under(fs, g, file, i) == 0
  {
    hide WriteFile, FindBlock;
    var g := WriteFile(fs, file, off, buf).1;
    WriteOnAnyDisk(fs, file, off, buf);
    forall f, i: nat
      ensures Under(fs, g, f, i) == ByteAt(fs, f, i) || (f == file && FindBlock(g.blocks, f, Base(i)) != 0
                && FindBlock(g.blocks, f, Base(i)) !in fs.blocks && ByteAt(fs, f, i) == 0)
    {
      FindStays(fs, g, file, f, Base(i));
    }
    if Wrote(fs, g, file, off, buf) {
      forall i: nat | Exposed(fs, g, file, off, buf, i)
        ensures Under(fs, g, file, i) == 0
      {
        FindStays(fs, g, file, file, Base(i));
        assert ByteAt(g, file, i) == ByteAt(fs, file, i);
      }
    }
  }

  /** The state a file is in between complete writes when free disk blocks hold zeros: zero
      from its size on. */
  ghost predicate Tidy(fs: Fs, file: int) {
    && Mapped(fs, file) && Blank(fs)
    && forall i: nat :: i >= fs.inodes[file].size ==> ByteAt(fs, file, i) == 0
  }

  lemma BlankShowsZero(fs: Fs, g: Fs, file: int, off: nat, buf: seq<Byte>, i: nat)
    requires Blank(fs) && Grew(fs, g, file) && Exposed(fs, g, file, off, buf, i)
    ensures Under(fs, g, file, i) == 0
  {
    hide FindBlock;
    BlankPage(fs, g.blocks[FindBlock(g.blocks, file, Base(i))].disk);
  }

  lemma GrewBlank(fs: Fs, g: Fs, file: int)
    requires Blank(fs) && Grew(fs, g, file)
    ensures Blank(g)
  {
    forall d | d in g.pages && d !in g.used
      ensures Page(g, d) == Zeros(BLOCK)
    {
      BlankPage(fs, d);
    }
  }

  /** A complete write to a tidy file is a positional write on an array of bytes: the written
      range reads back, every other byte of this and of every other file is as before (zero in
      a gap past the old end), and the file is tidy again. */
  lemma WriteIsPositional(fs: Fs, file: int, off: nat, buf: seq<Byte>)
    requires Tidy(fs, file) && fs.inodes[file].kind == File && buf != []
    ensures var r := WriteFile(fs, file, off, buf);
            r.0 == |buf| ==> Tidy(r.1, file) && Wrote(fs, r.1, file, off, buf)
  {
    hide WriteFile, Exposed, ByteAt, Under, Blank, Grew, Laid, Mapped;
    var r := WriteFile(fs, file, off, buf);
    WriteOnAnyDisk(fs, file, off, buf);
    if r.0 == |buf| {
      GrewBlank(fs, r.1, file);
      forall i: nat | Exposed(fs, r.1, file, off, buf, i)
        ensures Under(fs, r.1, file, i) == 0
      {
        BlankShowsZero(fs, r.1, file, off, buf, i);
      }
      UnseenIffZero(fs, file, off, buf);
    }
  }

  // ---- when the promise fails -------------------------------------------------------

  lemma {:induction false} SearchAfterAdd(blocks: map<int, Block>, k: int, b: Block, i: nat)
    requires 1 <= i <= MAX_BLOCKS + 1 && k !in blocks && 1 <= k <= MAX_BLOCKS
    ensures var p := FindBlock(blocks, b.file, b.off, i);
            FindBlock(blocks[k := b], b.file, b.off, i) == if k < i || 0 < p < k then p else k
    decreases MAX_BLOCKS + 1 - i
  {
    if i <= MAX_BLOCKS {
      SearchAfterAdd(blocks, k, b, i + 1);
    }
  }

  /** The source takes it that a place at or past the size cannot be mapped already.  The block
      a round writes is the one a later read finds exactly when that is so, or the mapping left
      there has the higher number. */
  lemma ReadsBackIff(fs: Fs, file: int, cur: nat, orig: nat)
    requires BlocksOk(fs) && BlockFor(fs, file, Base(cur), orig).0 != 0
    ensures var r := BlockFor(fs, file, Base(cur), orig);
            FindBlock(r.1.blocks, file, Base(cur)) == r.0
            <==> !(Base(cur) >= orig
                   && 0 < FindBlock(fs.blocks, file, Base(cur)) < NextFree(fs.blocks.Keys, fs.nextBlock, MAX_BLOCKS))
  {
    hide FindBlock, NextFree, DiskAlloc;
    var r := BlockFor(fs, file, Base(cur), orig);
    if Base(cur) >= orig || FindBlock(fs.blocks, file, Base(cur)) == 0 {
      var d := DiskAlloc(fs.used, fs.diskBlocks);
      SearchAfterAdd(fs.blocks, r.0, Block(file, Base(cur), d), 1);
    }
  }

  /** A newly mapped block is not cleared: around the chunk it shows what the disk block held. */
  lemma NewBlockShowsDisk(fs: Fs, file: int, cur: nat, chunk: seq<Byte>, orig: nat, i: nat)
    requires BlocksOk(fs) && file in fs.inodes && cur % BLOCK + |chunk| <= BLOCK
    requires FindBlock(fs.blocks, file, Base(cur)) == 0 && BlockFor(fs, file, Base(cur), orig).0 != 0
    requires Base(i) == Base(cur) && !(cur <= i < cur + |chunk|)
    ensures ByteAt(fs, file, i) == 0
    ensures ByteAt(WriteChunk(fs, file, cur, chunk, orig).1, file, i)
         == Page(fs, DiskAlloc(fs.used, fs.diskBlocks))[i % BLOCK]
  {
    hide FindBlock, NextFree, DiskAlloc, Splice;
    var d := DiskAlloc(fs.used, fs.diskBlocks);
    var r := BlockFor(fs, file, Base(cur), orig);
    SearchAfterAdd(fs.blocks, r.0, Block(file, Base(cur), d), 1);
    SameBlock(cur, |chunk|, i);
    SplicedAt(Page(fs, d), cur % BLOCK, chunk, i % BLOCK);
  }

  lemma ChunkMaps(fs: Fs, file: int, cur: nat, chunk: seq<Byte>, orig: nat, k: int)
    requires cur % BLOCK + |chunk| <= BLOCK
    ensures var r := WriteChunk(fs, file, cur, chunk, orig);
            && (k in fs.blocks ==> k in r.1.blocks && r.1.blocks[k] == fs.blocks[k])
            && (r.0 ==>
                  var j := BlockFor(fs, file, Base(cur), orig).0;
                  j in r.1.blocks && IsBlock(r.1.blocks[j], file, Base(cur)))
  {
    hide FindBlock, NextFree, DiskAlloc, Splice;
  }

  lemma {:induction false} LoopKeepsBlock(fs: Fs, file: int, off: nat, buf: seq<Byte>, orig: nat, done: nat, k: int)
    requires k in fs.blocks && done <= |buf|
    ensures var g := WriteLoop(fs, file, off, buf, orig, done).1; k in g.blocks && g.blocks[k] == fs.blocks[k]
    decreases |buf| - done
  {
    hide WriteLoop, WriteChunk, BlockFor;
    LoopUnfolds(fs, file, off, buf, orig, done);
    if done < |buf| {
      var n := ChunkLen(off + done, |buf| - done);
      var r := WriteChunk(fs, file, off + done, buf[done..done + n], orig);
      ChunkMaps(fs, file, off + done, buf[done..done + n], orig, k);
      if r.0 {
        LoopKeepsBlock(r.1, file, off, buf, orig, done + n, k);
      }
    }
  }

  lemma {:induction false} LoopInodes(fs: Fs, file: int, off: nat, buf: seq<Byte>, orig: nat, done: nat)
    requires done <= |buf|
    ensures WriteLoop(fs, file, off, buf, orig, done).1.inodes == fs.inodes
    decreases |buf| - done
  {
    hide WriteLoop, WriteChunk;
    LoopUnfolds(fs, file, off, buf, orig, done);
    if done < |buf| {
      var n := ChunkLen(off + done, |buf| - done);
      ChunkInodes(fs, file, off + done, buf[done..done + n], orig);
      LoopInodes(WriteChunk(fs, file, off + done, buf[done..done + n], orig).1, file, off, buf, orig, done + n);
    }
  }

  /** And it can be mapped already: an appending write cut short by a full disk leaves blocks
      mapped past a size that did not grow. */
  lemma ShortWriteUntidies(fs: Fs, file: int, off: nat, buf: seq<Byte>)
    requires file in fs.inodes && fs.inodes[file].kind == File && off >= fs.inodes[file].size && off % BLOCK == 0
    requires 0 < WriteFile(fs, file, off, buf).0 < |buf|
    ensures var g := WriteFile(fs, file, off, buf).1;
            g.inodes == fs.inodes && !Below(g, file, g.inodes[file].size)
  {
    hide WriteLoop, WriteChunk, BlockFor;
    var size := fs.inodes[file].size;
    var w := WriteLoop(fs, file, off, buf, size, 0);
    var n := ChunkLen(off, |buf|);
    var r := WriteChunk(fs, file, off, buf[0..n], size);
    LoopUnfolds(fs, file, off, buf, size, 0);
    LoopInodes(fs, file, off, buf, size, 0);
    ChunkMaps(fs, file, off, buf[0..n], size, 0);
    var j := BlockFor(fs, file, Base(off), size).0;
    LoopKeepsBlock(r.1, file, off, buf, size, n, j);
    assert w.1.blocks[j].file == file && w.1.blocks[j].off == off;
  }
}
