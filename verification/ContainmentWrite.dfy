/**
 What a contained session gets from op_write and op_read (src/lucas/backends_sotfs.c): files of
 its own live in the shared graph, its changes to other files in its overlay.
 */
module ContainmentWrite {
  import opened Machine
  import opened SotfsGraph
  import opened Containment
  import opened ContainmentRun
  import opened SotfsFile
  import opened SotfsHoles
  import CowOverlay

  /** The shared graph and the pool of overlays. */
  datatype Files = Files(fs: Fs, pool: CowOverlay.Pool)

  const EBADF: int := -9
  const ENOENT: int := -2
  const EISDIR: int := -21
  const ENOSPC: int := -28

  /** sotfs_err_to_errno, for the errors a file write has. */
  function Errno(rc: int): (e: int) {
    if rc == ERR_NOENT then ENOENT else if rc == ERR_ISDIR then EISDIR else if rc == ERR_NOSPACE then ENOSPC else -5
  }

  /** op_write by an isolated caller of session s, on a handle for inode id opened as `key`.
      Without a session the bytes are dropped; a short write to an own file reports it all. */
  function OpWrite(f: Files, s: U32, id: int, key: string, cursor: int, buf: seq<Byte>): (r: (int, Files))
    requires CowOverlay.Shape(f.pool)
  {
    if !(1 <= id <= MAX_INODES) then (EBADF, f)
    else if id in f.fs.inodes && f.fs.inodes[id].kind == Dir then (EISDIR, f)
    else if s == 0 then (|buf|, f)
    else if Owner(f.fs, id) == s then
      var off := CowOverlay.Offset(cursor);
      if off + |buf| >= TWO32 then (ENOSPC, f)
      else
        var w := WriteFile(f.fs, id, off, buf);
        (if w.0 < 0 then Errno(w.0) else |buf|, f.(fs := w.1))
    else
      var w := CowOverlay.WriteAt(f.pool, s, key, cursor, buf);
      (w.0, f.(pool := w.1))
  }

  /** What op_read serves a caller of session s: the overlay of the path if there is one. */
  function Served(f: Files, s: U32, id: int, key: string): (b: seq<Byte>)
    requires CowOverlay.Shape(f.pool) && id in f.fs.inodes
  {
    var c := CowOverlay.Content(f.pool, s, key);
    if s != 0 && c.Bytes? then c.bytes else FileBytes(f.fs, id)
  }

  /** What a read of `count` bytes at `at` finds in them. */
  function Slice(b: seq<Byte>, at: nat, count: nat): (out: seq<Byte>) {
    if at >= |b| then [] else b[at..Min(at + count, |b|)]
  }

  /** op_read: count or error, and the bytes.  Offset and count go to the graph as 32 bits. */
  function OpRead(f: Files, s: U32, id: int, key: string, cursor: nat, count: nat): (r: (int, seq<Byte>))
    requires CowOverlay.Shape(f.pool)
  {
    if !(1 <= id <= MAX_INODES) then (EBADF, [])
    else if id in f.fs.inodes && f.fs.inodes[id].kind == Dir then (EISDIR, [])
    else if !Visible(f.fs, id, s) then (EBADF, [])
    else if id !in f.fs.inodes then (ENOENT, [])
    else if s != 0 && CowOverlay.Content(f.pool, s, key).Bytes? then
      var out := Slice(CowOverlay.Content(f.pool, s, key).bytes, cursor, count);
      (|out|, out)
    else
      var out := Slice(FileBytes(f.fs, id), cursor % TWO32, count % TWO32);
      (|out|, out)
  }

  // ---- writes to own files ----------------------------------------------------------

  /** The operation of a run is this one, as far as the graph goes. */
  lemma RunsWrite(f: Files, s: U32, id: int, key: string, off: nat, buf: seq<Byte>)
    requires CowOverlay.Shape(f.pool) && s != 0
    requires id in f.fs.inodes && f.fs.inodes[id].kind == File && 1 <= id <= MAX_INODES
    requires off + |buf| < TWO32
    ensures OpWrite(f, s, id, key, off, buf).1.fs == SessionWrite(f.fs, s, id, off, buf)
  {
    hide WriteFile, CowOverlay.WriteAt;
  }

  /** A write by a session to a file of its own that is mapped below its size: if there are slots
      and disk blocks for the holes of the range it reports the count, the range reads back, and
      the size is the larger of the old one and the end of the range. */
  lemma OwnWriteLands(fs: Fs, s: U32, id: int, off: nat, buf: seq<Byte>)
    requires Mapped(fs, id) && fs.inodes[id].kind == File && Owner(fs, id) == s && buf != []
    requires RoomFor(fs, Holes(fs.blocks, id, Base(off), off + |buf|))
    ensures var g := SessionWrite(fs, s, id, off, buf);
            && id in g.inodes && g.inodes[id].kind == File
            && g.inodes[id].size == (if off + |buf| > fs.inodes[id].size then off + |buf| else fs.inodes[id].size)
            && (forall i: nat :: off <= i < off + |buf| ==> ByteAt(g, id, i) == buf[i - off])
            && (Wrote(fs, g, id, off, buf) <==> CleanEdges(fs, id, off, |buf|))
  {
    hide WriteFile, Mapped, RoomFor, Holes, CleanEdges, Wrote, Grew, Under;
    MappedHas(fs, id);
    CompleteIff(fs, id, off, buf);
    WriteOnAnyDisk(fs, id, off, buf);
    PositionalIff(fs, id, off, buf);
    WriteKind(fs, id, off, buf);
    assert SessionWrite(fs, s, id, off, buf) == WriteFile(fs, id, off, buf).1;
  }

  lemma MappedHas(fs: Fs, id: int)
    requires Mapped(fs, id)
    ensures id in fs.inodes
  {
  }

  lemma WriteKind(fs: Fs, id: int, off: nat, buf: seq<Byte>)
    requires id in fs.inodes
    ensures var g := WriteFile(fs, id, off, buf).1; id in g.inodes && g.inodes[id].kind == fs.inodes[id].kind
  {
    hide WriteLoop;
    LoopInodes(fs, id, off, buf, fs.inodes[id].size, 0);
  }

  /** The count is the whole one whenever anything was written, so it is the number of bytes that
      landed if and only if there was room for all of them or for none. */
  lemma CountIsHonestIff(f: Files, s: U32, id: int, key: string, off: nat, buf: seq<Byte>)
    requires CowOverlay.Shape(f.pool) && s != 0 && 1 <= id <= MAX_INODES && Owner(f.fs, id) == s
    requires Mapped(f.fs, id) && f.fs.inodes[id].kind == File && buf != [] && off + |buf| < TWO32
    ensures var w, r := WriteFile(f.fs, id, off, buf), OpWrite(f, s, id, key, off, buf);
            && (r.0 == -28 <==> w.0 == ERR_NOSPACE) && (r.0 == -28 || r.0 == |buf|) && r.1.pool == f.pool
            && (w.0 >= 0 ==>
                  (r.0 == w.0 <==> RoomFor(f.fs, Holes(f.fs.blocks, id, Base(off), off + |buf|))))
  {
    hide Mapped, RoomFor, Holes, WriteLoop, CowOverlay.WriteAt;
    MappedHas(f.fs, id);
    CompleteIff(f.fs, id, off, buf);
  }

  // ---- writes to other files --------------------------------------------------------

  /** A write to a file of somebody else leaves the graph alone; it is accepted exactly within
      64 KiB and with a slot for the path, reports the whole count, and makes the session's
      overlay the positional write of the old overlay, or of nothing. */
  lemma ForeignWriteIsOverlaid(f: Files, s: U32, id: int, key: string, cursor: int, buf: seq<Byte>)
    requires CowOverlay.Inv(f.pool) && |key| < CowOverlay.MAX_PATH && s != 0
    requires id in f.fs.inodes && f.fs.inodes[id].kind == File && 1 <= id <= MAX_INODES && Owner(f.fs, id) != s
    ensures var (rc, g) := OpWrite(f, s, id, key, cursor, buf);
            var off := if cursor > 0 then cursor else 0;
            && g.fs == f.fs && CowOverlay.Inv(g.pool)
            && (if off + |buf| <= 65536 && CowOverlay.HasRoom(f.pool, s, key) then
                  && rc == |buf|
                  && var was := CowOverlay.BytesOf(CowOverlay.Content(f.pool, s, key));
                  CowOverlay.Content(g.pool, s, key) == CowOverlay.Bytes(CowOverlay.FileWrite(was, off, buf))
                else rc == -28 && g == f)
            && forall t: U32, k: string :: (t, k) != (s, key) ==>
                 CowOverlay.Content(g.pool, t, k) == CowOverlay.Content(f.pool, t, k)
  {
    hide CowOverlay.WriteAt, CowOverlay.HasRoom;
    CowOverlay.WriteAtEffect(f.pool, s, key, cursor, buf);
  }

  /** The writes that change nothing: to a directory, by a caller without a session (which is told
      that all of it was written), and to an own file past 4 GiB. */
  lemma WriteWithoutEffect(f: Files, s: U32, id: int, key: string, cursor: int, buf: seq<Byte>)
    requires CowOverlay.Shape(f.pool) && 1 <= id <= MAX_INODES && id in f.fs.inodes
    ensures var r := OpWrite(f, s, id, key, cursor, buf);
            && (f.fs.inodes[id].kind == Dir ==> r == (-21, f))
            && (f.fs.inodes[id].kind == File && s == 0 ==> r == (|buf|, f))
            && (f.fs.inodes[id].kind == File && s != 0 && Owner(f.fs, id) == s && cursor + |buf| > 0xffff_ffff ==>
                  cursor <= 0 || r == (-28, f))
            && (f.fs.inodes[id].kind == File && s != 0 && Owner(f.fs, id) == s && cursor <= 0 && buf == [] ==>
                  r == (0, f))
  {
    hide WriteLoop, CowOverlay.WriteAt;
  }

  /** No inode has the number, a directory, and a file of another session: the operator, who has no
      session, is refused every session's files too. */
  lemma Refusals(f: Files, s: U32, id: int, key: string, cursor: nat, buf: seq<Byte>, count: nat)
    requires CowOverlay.Shape(f.pool)
    ensures !(1 <= id <= MAX_INODES) ==>
              OpRead(f, s, id, key, cursor, count) == (-9, []) && OpWrite(f, s, id, key, cursor, buf) == (-9, f)
    ensures 1 <= id <= MAX_INODES && id !in f.fs.inodes && s != 0 && Owner(f.fs, id) == s && buf != [] ==>
              OpRead(f, s, id, key, cursor, count) == (-2, [])
              && (cursor + |buf| <= 0xffff_ffff ==> OpWrite(f, s, id, key, cursor, buf) == (-2, f))
    ensures 1 <= id <= MAX_INODES && id in f.fs.inodes && f.fs.inodes[id].kind == Dir ==>
              OpRead(f, s, id, key, cursor, count) == (-21, [])
    ensures 1 <= id <= MAX_INODES && id in f.fs.inodes && f.fs.inodes[id].kind == File
            && Owner(f.fs, id) != 0 && Owner(f.fs, id) != s ==>
              OpRead(f, s, id, key, cursor, count) == (-9, [])
  {
    hide WriteLoop, CowOverlay.WriteAt, CowOverlay.Content, FileBytes, Slice;
  }

  // ---- reading back -----------------------------------------------------------------

  lemma SliceBack(b: seq<Byte>, off: nat, buf: seq<Byte>)
    requires off + |buf| <= |b| && b[off..off + |buf|] == buf && buf != []
    ensures Slice(b, off, |buf|) == buf
  {
  }

  /** The session reads its edit back: after an accepted write to a base file, a read of the same
      range through the same path gives the bytes, and nobody else's read changes. */
  lemma EditReadsBack(f: Files, s: U32, id: int, key: string, off: nat, buf: seq<Byte>)
    requires CowOverlay.Inv(f.pool) && |key| < CowOverlay.MAX_PATH && s != 0 && buf != []
    requires id in f.fs.inodes && f.fs.inodes[id].kind == File && 1 <= id <= MAX_INODES && Owner(f.fs, id) == 0
    requires OpWrite(f, s, id, key, off, buf).0 >= 0
    ensures var g := OpWrite(f, s, id, key, off, buf).1;
            && CowOverlay.Shape(g.pool)
            && OpRead(g, s, id, key, off, |buf|) == (|buf|, buf)
            && forall t: U32, j: int, k: string, at: nat, n: nat :: t != s ==>
                 OpRead(g, t, j, k, at, n) == OpRead(f, t, j, k, at, n)
  {
    hide CowOverlay.HasRoom, CowOverlay.Content, FileBytes, OpWrite, OpRead, Slice;
    ForeignWriteIsOverlaid(f, s, id, key, off, buf);
    var g := OpWrite(f, s, id, key, off, buf).1;
    SliceBack(CowOverlay.Content(g.pool, s, key).bytes, off, buf);
    ServesOverlay(g, s, id, key, off, |buf|);
    forall t: U32, j: int, k: string, at: nat, n: nat | t != s
      ensures OpRead(g, t, j, k, at, n) == OpRead(f, t, j, k, at, n)
    {
      ReadsAlike(f, g, t, j, k, at, n);
    }
  }

  lemma ServesOverlay(f: Files, s: U32, id: int, key: string, at: nat, n: nat)
    requires CowOverlay.Shape(f.pool) && s != 0 && CowOverlay.Content(f.pool, s, key).Bytes?
    requires id in f.fs.inodes && f.fs.inodes[id].kind == File && 1 <= id <= MAX_INODES && Visible(f.fs, id, s)
    ensures var out := Slice(CowOverlay.Content(f.pool, s, key).bytes, at, n);
            OpRead(f, s, id, key, at, n) == (|out|, out)
  {
    hide CowOverlay.Content, FileBytes, Slice;
  }

  lemma ReadsAlike(f: Files, g: Files, t: U32, id: int, key: string, at: nat, n: nat)
    requires CowOverlay.Shape(f.pool) && CowOverlay.Shape(g.pool) && f.fs == g.fs
    requires CowOverlay.Content(g.pool, t, key) == CowOverlay.Content(f.pool, t, key)
    ensures OpRead(g, t, id, key, at, n) == OpRead(f, t, id, key, at, n)
  {
    hide CowOverlay.Content, FileBytes, Slice;
  }

  /** The base content is not copied into a new overlay.  So what the session sees after an
      accepted write is the positional write of what it saw before if and only if it had an
      overlay of the path already, or the base file ends within the written range and is zero
      in front of it. */
  lemma EditMergesIff(f: Files, s: U32, id: int, key: string, off: nat, buf: seq<Byte>)
    requires CowOverlay.Inv(f.pool) && |key| < CowOverlay.MAX_PATH && s != 0
    requires id in f.fs.inodes && f.fs.inodes[id].kind == File && 1 <= id <= MAX_INODES && Owner(f.fs, id) == 0
    requires OpWrite(f, s, id, key, off, buf).0 >= 0
    ensures var g, base := OpWrite(f, s, id, key, off, buf).1, FileBytes(f.fs, id);
            && CowOverlay.Shape(g.pool) && id in g.fs.inodes
            && (Served(g, s, id, key) == CowOverlay.FileWrite(Served(f, s, id, key), off, buf)
                <==> || CowOverlay.Content(f.pool, s, key).Bytes?
                     || (|base| <= off + |buf| && forall i :: 0 <= i < |base| && i < off ==> base[i] == 0))
  {
    hide CowOverlay.HasRoom, CowOverlay.Content, FileBytes, CowOverlay.FileWrite;
    ForeignWriteIsOverlaid(f, s, id, key, off, buf);
    hide OpWrite;
    if CowOverlay.Content(f.pool, s, key).Absent? {
      FromNothingIff(FileBytes(f.fs, id), off, buf);
    }
  }

  lemma FromNothingIff(base: seq<Byte>, off: nat, buf: seq<Byte>)
    ensures CowOverlay.FileWrite([], off, buf) == CowOverlay.FileWrite(base, off, buf)
       <==> |base| <= off + |buf| && forall i :: 0 <= i < |base| && i < off ==> base[i] == 0
  {
    var x, y := CowOverlay.FileWrite([], off, buf), CowOverlay.FileWrite(base, off, buf);
    if |base| <= off + |buf| {
      forall i | off <= i < off + |buf|
        ensures x[i] == y[i]
      {
        assert x[i] == x[off..off + |buf|][i - off];
        assert y[i] == y[off..off + |buf|][i - off];
      }
      if x == y {
        forall i | 0 <= i < |base| && i < off
          ensures base[i] == 0
        {
          assert x[i] == 0 && y[i] == base[i];
        }
      }
    }
  }

  /** A complete write to an own file reads back if the path has no overlay; with one, the reader
      still gets the overlay. */
  lemma OwnWriteReadsBack(f: Files, s: U32, id: int, key: string, off: nat, buf: seq<Byte>)
    requires CowOverlay.Shape(f.pool) && s != 0 && 1 <= id <= MAX_INODES && Owner(f.fs, id) == s
    requires Mapped(f.fs, id) && f.fs.inodes[id].kind == File && buf != [] && off + |buf| < TWO32
    requires RoomFor(f.fs, Holes(f.fs.blocks, id, Base(off), off + |buf|))
    ensures var (rc, g) := OpWrite(f, s, id, key, off, buf);
            && rc == |buf| && g.pool == f.pool && id in g.fs.inodes
            && (CowOverlay.Content(f.pool, s, key).Absent? ==> OpRead(g, s, id, key, off, |buf|) == (|buf|, buf))
            && (CowOverlay.Content(f.pool, s, key).Bytes? ==>
                  Served(g, s, id, key) == CowOverlay.Content(f.pool, s, key).bytes)
  {
    hide Mapped, RoomFor, Holes, CowOverlay.Content, WriteFile, ByteAt, CleanEdges, Wrote, Slice, CowOverlay.WriteAt;
    MappedHas(f.fs, id);
    CompleteIff(f.fs, id, off, buf);
    OwnWriteLands(f.fs, s, id, off, buf);
    RunsWrite(f, s, id, key, off, buf);
    OwnerKept(f.fs, id, off, buf);
    var g := OpWrite(f, s, id, key, off, buf).1;
    var b := FileBytes(g.fs, id);
    assert b[off..off + |buf|] == buf;
    SliceBack(b, off, buf);
  }

  lemma OwnerKept(fs: Fs, id: int, off: nat, buf: seq<Byte>)
    requires id in fs.inodes
    ensures WriteFile(fs, id, off, buf).1.owner == fs.owner
  {
    hide WriteLoop;
    LoopOwner(fs, id, off, buf, fs.inodes[id].size, 0);
  }

  lemma {:induction false} LoopOwner(fs: Fs, file: int, off: nat, buf: seq<Byte>, orig: nat, done: nat)
    requires done <= |buf|
    ensures WriteLoop(fs, file, off, buf, orig, done).1.owner == fs.owner
    decreases |buf| - done
  {
    hide WriteLoop, WriteChunk;
    LoopUnfolds(fs, file, off, buf, orig, done);
    if done < |buf| {
      var n := ChunkLen(off + done, |buf| - done);
      ChunkOwner(fs, file, off + done, buf[done..done + n], orig);
      LoopOwner(WriteChunk(fs, file, off + done, buf[done..done + n], orig).1, file, off, buf, orig, done + n);
    }
  }

  lemma ChunkOwner(fs: Fs, file: int, cur: nat, chunk: seq<Byte>, orig: nat)
    requires cur % BLOCK + |chunk| <= BLOCK
    ensures WriteChunk(fs, file, cur, chunk, orig).1.owner == fs.owner
  {
  }
}
