/**
 Byte-addressed writes over a 512-byte sector device (src/sotfs/storage_virtio_blk.c,
 vblk_write_block) and the sector read loop of the image backends (read_blob in
 src/lucas/backends_sysroot.c, rwbinstore_read).  `budget` is the number of sector transfers
 that succeed before the device fails.
 */
module BlockDevice {
  import opened Machine

  const SECTOR: nat := 512
  const CAPACITY: nat := 528 * 1024 * 1024

  function Inner(p: nat): (r: nat)
    ensures r < SECTOR && r <= p
  {
    p % SECTOR
  }

  lemma SectorFits(p: nat)
    requires p < CAPACITY
    ensures p - Inner(p) + SECTOR <= CAPACITY
  {
    assert CAPACITY == 1081344 * SECTOR;
  }

  lemma NextSector(p: nat)
    ensures Inner(p + (SECTOR - Inner(p))) == 0
    ensures Inner(p) == 0 ==> Inner(p + SECTOR) == 0
  {
  }

  /** The part of the next `left` bytes at `p` that lies in p's sector. */
  function Piece(p: nat, left: nat): (n: nat)
    ensures n <= left && Inner(p) + n <= SECTOR && (left > 0 ==> n > 0)
  {
    Min(SECTOR - Inner(p), left)
  }

  /** A whole sector is written outright, a part of one is read, changed and written back. */
  function Transfers(n: nat): (t: nat) {
    if n == SECTOR then 1 else 2
  }

  /** How many bytes reach the device. */
  function Reached(p: nat, left: nat, budget: nat): (n: nat)
    ensures n <= left
    decreases left
  {
    var n := Piece(p, left);
    if left == 0 || budget < Transfers(n) then 0 else n + Reached(p + n, left - n, budget - Transfers(n))
  }

  lemma ReachedUnfolds(p: nat, left: nat, budget: nat)
    ensures var n := Piece(p, left);
            Reached(p, left, budget)
            == if left == 0 || budget < Transfers(n) then 0 else n + Reached(p + n, left - n, budget - Transfers(n))
  {
  }

  /** One transfer per sector, and one more for a sector of which only a part is written. */
  function Price(p: nat, left: nat): (n: nat) {
    if left == 0 then 0
    else
      var first, last := p / 512, (p + left - 1) / 512;
      if first == last then (if left == 512 then 1 else 2)
      else last - first + 1 + (if p % 512 == 0 then 0 else 1) + (if (p + left) % 512 == 0 then 0 else 1)
  }

  lemma PriceUnfolds(p: nat, left: nat)
    requires left > 0
    ensures var n := Piece(p, left); Price(p, left) == Transfers(n) + Price(p + n, left - n)
  {
    var n := Piece(p, left);
    if n < left {
      assert (p + n) % 512 == 0 && (p + n) / 512 == p / 512 + 1;
    } else {
      assert (p + left - 1) / 512 == p / 512;
    }
  }

  /** A write is complete exactly if the device bears its price; otherwise it stops in front of a
      sector boundary, or has not begun. */
  lemma {:induction false} CompleteIff(p: nat, left: nat, budget: nat)
    ensures var n := Reached(p, left, budget);
            && (n == left <==> budget >= Price(p, left))
            && (n < left ==> n == 0 || (p + n) % 512 == 0)
    decreases left
  {
    hide Price;
    ReachedUnfolds(p, left, budget);
    if left > 0 {
      var n := Piece(p, left);
      PriceUnfolds(p, left);
      if budget >= Transfers(n) {
        CompleteIff(p + n, left - n, budget - Transfers(n));
        if n < left {
          NextSector(p);
        }
      }
    } else {
      NoPrice(p);
    }
  }

  lemma NoPrice(p: nat)
    ensures Price(p, 0) == 0
  {
  }

  lemma Nothing(b: seq<Byte>, off: nat, d: seq<Byte>)
    requires off <= |b|
    ensures Splice(b, off, d[..0]) == b
  {
  }

  /** The device after a write, and whether it was complete: on a failure a prefix is there. */
  function Written(disk: seq<Byte>, off: nat, data: seq<Byte>, budget: nat): (r: (bool, seq<Byte>))
    requires off + |data| <= |disk|
    ensures |r.1| == |disk|
    ensures r.0 ==> r.1 == Splice(disk, off, data)
    ensures forall i :: 0 <= i < |disk| && !(off <= i < off + |data|) ==> r.1[i] == disk[i]
  {
    var n := Reached(off, |data|, budget);
    assert n == |data| ==> data[..n] == data;
    (n == |data|, Splice(disk, off, data[..n]))
  }

  lemma WrittenIs(disk: seq<Byte>, off: nat, data: seq<Byte>, budget: nat)
    requires off + |data| <= |disk|
    ensures Written(disk, off, data, budget)
         == (Reached(off, |data|, budget) == |data|, Splice(disk, off, data[..Reached(off, |data|, budget)]))
  {
  }

  lemma SpliceTwice(b: seq<Byte>, off: nat, d: seq<Byte>, k: nat, n: nat)
    requires off + |d| <= |b| && k + n <= |d|
    ensures Splice(Splice(b, off, d[..k]), off + k, d[k..k + n]) == Splice(b, off, d[..k + n])
  {
    var x, y := Splice(Splice(b, off, d[..k]), off + k, d[k..k + n]), Splice(b, off, d[..k + n]);
    forall i | 0 <= i < |b|
      ensures x[i] == y[i]
    {
      if off <= i < off + k + n {
        assert y[i] == y[off..off + (k + n)][i - off];
        if i < off + k {
          assert Splice(b, off, d[..k])[i] == Splice(b, off, d[..k])[off..off + k][i - off];
        } else {
          assert x[i] == x[off + k..off + k + n][i - off - k];
        }
      }
    }
  }

  /** Changing part of a sector in a buffer and writing the sector back changes that part. */
  lemma SectorRewrite(b: seq<Byte>, at: nat, inner: nat, d: seq<Byte>)
    requires at + SECTOR <= |b| && inner + |d| <= SECTOR
    ensures Splice(b, at, Splice(b[at..at + SECTOR], inner, d)) == Splice(b, at + inner, d)
  {
    var sec := Splice(b[at..at + SECTOR], inner, d);
    var x, y := Splice(b, at, sec), Splice(b, at + inner, d);
    forall i | 0 <= i < |b|
      ensures x[i] == y[i]
    {
      if at <= i < at + SECTOR {
        assert x[i] == x[at..at + SECTOR][i - at] == sec[i - at];
        if inner <= i - at < inner + |d| {
          assert sec[i - at] == sec[inner..inner + |d|][i - at - inner];
          assert y[i] == y[at + inner..at + inner + |d|][i - at - inner];
        }
      }
    }
  }

  class Device {
    var bytes: seq<Byte>

    predicate Valid()
      reads this
    {
      |bytes| == CAPACITY
    }

    constructor (image: seq<Byte>)
      requires |image| == CAPACITY
      ensures Valid() && bytes == image
    {
      bytes := image;
    }

    /** Read, change and write back one sector, or write a whole one. */
    method WritePiece(p: nat, piece: seq<Byte>)
      requires Valid() && Inner(p) + |piece| <= SECTOR && p + |piece| <= CAPACITY && p < CAPACITY
      modifies this
      ensures Valid() && bytes == Splice(old(bytes), p, piece)
    {
      hide Inner, Splice;
      var at := p - Inner(p);
      SectorFits(p);
      var sec := Splice(bytes[at..at + SECTOR], Inner(p), piece);
      SectorRewrite(bytes, at, Inner(p), piece);
      bytes := Splice(bytes, at, sec);
    }

    /** vblk_write_block: a leading part of a sector, whole sectors, a trailing part. */
    method WriteBlock(off: nat, data: seq<Byte>, budget: nat) returns (rc: int)
      requires Valid()
      modifies this
      ensures Valid()
      ensures off + |data| > CAPACITY ==> rc == -28 && bytes == old(bytes)
      ensures off + |data| <= CAPACITY ==>
                (rc == |data|, bytes) == Written(old(bytes), off, data, budget) && (rc == |data| || rc == -5)
    {
      if off + |data| > CAPACITY {
        return -28;
      }
      hide *;
      ghost var was := bytes;
      WrittenIs(was, off, data, budget);
      var k, left, ok := WriteLead(off, data, budget);
      if !ok {
        return -5;
      }
      k, left, ok := WriteWhole(was, off, data, k, left);
      if !ok {
        return -5;
      }
      ok := WriteTail(was, off, data, k, left);
      rc := if ok then |data| else -5;
    }

    /** Whole sectors, one transfer each. */
    method WriteWhole(ghost was: seq<Byte>, off: nat, data: seq<Byte>, from: nat, budget: nat)
      returns (k: nat, left: nat, ok: bool)
      requires Valid() && |was| == CAPACITY && off + |data| <= CAPACITY
      requires from <= |data| && (from < |data| ==> Inner(off + from) == 0)
      requires bytes == Splice(was, off, data[..from])
      modifies this
      ensures Valid() && from <= k <= |data| && (k < |data| ==> Inner(off + k) == 0)
      ensures bytes == Splice(was, off, data[..k]) && if ok then |data| - k < SECTOR else k < |data|
      ensures from + Reached(off + from, |data| - from, budget) == k + if ok then Reached(off + k, |data| - k, left) else 0
    {
      hide Inner, Reached, Splice;
      k, left, ok := from, budget, true;
      while |data| - k >= SECTOR
        invariant from <= k <= |data| && Valid()
        invariant k < |data| ==> Inner(off + k) == 0
        invariant bytes == Splice(was, off, data[..k])
        invariant from + Reached(off + from, |data| - from, budget) == k + Reached(off + k, |data| - k, left)
      {
        ReachedUnfolds(off + k, |data| - k, left);
        if left == 0 {
          return k, left, false;
        }
        NextSector(off + k);
        Extend(was, off, data, k, SECTOR);
        k, left := k + SECTOR, left - 1;
      }
    }

    /** The trailing part of a sector. */
    method WriteTail(ghost was: seq<Byte>, off: nat, data: seq<Byte>, k: nat, left: nat) returns (ok: bool)
      requires Valid() && |was| == CAPACITY && off + |data| <= CAPACITY
      requires k <= |data| && |data| - k < SECTOR && (k < |data| ==> Inner(off + k) == 0)
      requires bytes == Splice(was, off, data[..k])
      modifies this
      ensures Valid() && ok == (k + Reached(off + k, |data| - k, left) == |data|)
      ensures bytes == Splice(was, off, data[..k + Reached(off + k, |data| - k, left)])
    {
      hide Inner, Reached, Splice;
      ReachedUnfolds(off + k, |data| - k, left);
      if k == |data| {
        return true;
      }
      if left < 2 {
        return false;
      }
      Extend(was, off, data, k, |data| - k);
      ReachedUnfolds(off + |data|, 0, left - 2);
      ok := true;
    }

    /** The leading part of a sector, if the write does not start on a sector boundary. */
    method WriteLead(off: nat, data: seq<Byte>, budget: nat) returns (k: nat, left: nat, ok: bool)
      requires Valid() && off + |data| <= CAPACITY
      modifies this
      ensures Valid() && k <= |data| && (!ok ==> k < |data|) && (ok && k < |data| ==> Inner(off + k) == 0)
      ensures bytes == Splice(old(bytes), off, data[..k])
      ensures Reached(off, |data|, budget) == k + if ok then Reached(off + k, |data| - k, left) else 0
    {
      hide Inner, Reached, Splice;
      ghost var was := bytes;
      Nothing(was, off, data);
      k, left, ok := 0, budget, true;
      if Inner(off) != 0 && data != [] {
        ReachedUnfolds(off, |data|, budget);
        var n := Piece(off, |data|);
        if left < Transfers(n) {
          return 0, left, false;
        }
        NextSector(off);
        Extend(was, off, data, 0, n);
        k, left := n, left - Transfers(n);
      }
    }

    /** The next n bytes of a write of which k are done. */
    method Extend(ghost was: seq<Byte>, off: nat, data: seq<Byte>, k: nat, n: nat)
      requires Valid() && |was| == CAPACITY && off + |data| <= CAPACITY && k + n <= |data| && n > 0
      requires Inner(off + k) + n <= SECTOR && bytes == Splice(was, off, data[..k])
      modifies this
      ensures Valid() && bytes == Splice(was, off, data[..k + n])
    {
      SpliceTwice(was, off, data, k, n);
      WritePiece(off + k, data[k..k + n]);
    }

    /** The sector read loop: `len` bytes from `off`, or -5 when a sector cannot be read. */
    method ReadRange(off: nat, len: nat, budget: nat) returns (rc: int, out: seq<Byte>)
      requires Valid() && off + len <= CAPACITY
      ensures rc == len ==> out == bytes[off..off + len]
      ensures rc == if budget >= Sectors(off, len) then len else -5
    {
      hide Inner, Sectors, Piece, Range;
      var k, left := 0, budget;
      out := [];
      RangeIs(bytes, off, 0);
      while k < len
        invariant 0 <= k <= len && out == Range(bytes, off, k)
        invariant 0 <= left <= budget
        invariant budget - left + Sectors(off + k, len - k) == Sectors(off, len)
      {
        var at := off + k - Inner(off + k);
        SectorsUnfolds(off + k, len - k);
        if left == 0 {
          return -5, out;
        }
        SectorFits(off + k);
        var sec := bytes[at..at + SECTOR];
        var n := Piece(off + k, len - k);
        SliceGrows(bytes, off, k, Inner(off + k), n);
        out := out + sec[Inner(off + k)..Inner(off + k) + n];
        k, left := k + n, left - 1;
      }
      SectorsUnfolds(off + len, 0);
      RangeIs(bytes, off, len);
      rc := len;
    }
  }

  /** The number of sectors a range touches. */
  function Sectors(p: nat, left: nat): (n: nat)
    decreases left
  {
    if left == 0 then 0 else 1 + Sectors(p + Piece(p, left), left - Piece(p, left))
  }

  /** The sectors from that of the first byte to that of the last. */
  lemma {:induction false} SectorsAre(p: nat, left: nat)
    ensures Sectors(p, left) == if left == 0 then 0 else (p + left - 1) / 512 - p / 512 + 1
    decreases left
  {
    SectorsUnfolds(p, left);
    if left > 0 {
      var n := Piece(p, left);
      SectorsAre(p + n, left - n);
      if n < left {
        assert (p + n) / 512 == p / 512 + 1;
      } else {
        assert (p + left - 1) / 512 == p / 512;
      }
    }
  }

  lemma SectorsUnfolds(p: nat, left: nat)
    ensures Sectors(p, left) == if left == 0 then 0 else 1 + Sectors(p + Piece(p, left), left - Piece(p, left))
  {
  }

  function Range(b: seq<Byte>, off: nat, n: nat): (s: seq<Byte>)
    requires off + n <= |b|
  {
    b[off..off + n]
  }

  lemma RangeIs(b: seq<Byte>, off: nat, n: nat)
    requires off + n <= |b|
    ensures Range(b, off, n) == b[off..off + n] && (n == 0 ==> Range(b, off, n) == [])
  {
  }

  /** What a round of the read loop adds. */
  lemma SliceGrows(b: seq<Byte>, off: nat, k: nat, inner: nat, n: nat)
    requires inner <= off + k && inner + n <= SECTOR && off + k - inner + SECTOR <= |b|
    ensures Range(b, off, k) + b[off + k - inner..off + k - inner + SECTOR][inner..inner + n] == Range(b, off, k + n)
  {
    SliceOfSlice(b, off + k - inner, SECTOR, inner, n);
    SlicesMeet(b, off, off + k, off + k + n);
  }

  lemma SliceOfSlice(b: seq<Byte>, at: nat, m: nat, i: nat, n: nat)
    requires i + n <= m && at + m <= |b|
    ensures b[at..at + m][i..i + n] == b[at + i..at + i + n]
  {
    var s := b[at..at + m];
    var t, u := s[i..i + n], b[at + i..at + i + n];
    forall j | 0 <= j < n
      ensures t[j] == u[j]
    {
      assert t[j] == s[i + j] == b[at + i + j];
    }
  }

  lemma SlicesMeet(b: seq<Byte>, i: nat, j: nat, k: nat)
    requires i <= j <= k <= |b|
    ensures b[i..j] + b[j..k] == b[i..k]
  {
  }
}
