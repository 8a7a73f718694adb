/**
 The per-session write overlay (src/lucas/cow_overlay.c) and the way the file backend
 splices positional writes into it (src/lucas/backends_sotfs.c).  A contained session's
 writes to base files land here; the base is never touched.  The pool is static, so an
 entry's buffer keeps stale bytes past its length, and so does the merge buffer.
 */
module CowOverlay {
  import opened Machine

  const ENTRIES: nat := 16
  const MAX_PATH: nat := 96
  const MAX_BYTES: nat := 65536
  const ENOSPC: int := -28

  datatype Entry = Entry(used: bool, session: U32, path: string, len: nat, data: seq<Byte>)
  type Pool = seq<Entry>

  predicate EntryOk(e: Entry) {
    |e.data| == MAX_BYTES && e.len <= MAX_BYTES && |e.path| < MAX_PATH
  }

  predicate Shape(pool: Pool) {
    |pool| == ENTRIES && forall i :: 0 <= i < ENTRIES ==> EntryOk(pool[i])
  }

  predicate Matches(e: Entry, session: U32, path: string) {
    e.used && e.session == session && e.path == path
  }

  /** No (session, path) key is held by two entries. */
  predicate Unique(pool: Pool) {
    forall i, j :: 0 <= i < j < |pool| && pool[i].used && pool[j].used ==>
      pool[i].session != pool[j].session || pool[i].path != pool[j].path
  }

  predicate Inv(pool: Pool) {
    Shape(pool) && Unique(pool)
  }

  /** lucas_cow_find from slot i on: the first match, or the pool size. */
  function Find(pool: Pool, session: U32, path: string, i: nat := 0): (k: nat)
    requires i <= |pool|
    ensures i <= k <= |pool| && (k < |pool| ==> Matches(pool[k], session, path))
    ensures forall j :: i <= j < k ==> !Matches(pool[j], session, path)
    decreases |pool| - i
  {
    if i == |pool| || Matches(pool[i], session, path) then i else Find(pool, session, path, i + 1)
  }

  function Free(pool: Pool, i: nat := 0): (k: nat)
    requires i <= |pool|
    ensures i <= k <= |pool| && (k < |pool| ==> !pool[k].used)
    ensures forall j :: i <= j < k ==> pool[j].used
    decreases |pool| - i
  {
    if i == |pool| || !pool[i].used then i else Free(pool, i + 1)
  }

  /** A contained file: absent, or the bytes the session reads back. */
  datatype File = Absent | Bytes(bytes: seq<Byte>)

  function Content(pool: Pool, session: U32, path: string): (f: File)
    requires Shape(pool)
  {
    var i := Find(pool, session, path);
    if i == ENTRIES then Absent else Bytes(pool[i].data[..pool[i].len])
  }

  // ---- the pool operations ----------------------------------------------------------

  /** Slot lucas_cow_write uses: the key's entry, else a free one, else none. */
  function WriteSlot(pool: Pool, session: U32, path: string): (i: nat)
    ensures i <= |pool|
  {
    var i := Find(pool, session, path);
    if i < |pool| then i else Free(pool)
  }

  /** lucas_cow_write: status and new pool.  The stored path is cut to 95 characters. */
  function Write(pool: Pool, session: U32, path: string, src: seq<Byte>): (r: (int, Pool))
    requires Shape(pool)
    ensures Shape(r.1)
  {
    var i := WriteSlot(pool, session, path);
    if |src| > MAX_BYTES || i == ENTRIES then (ENOSPC, pool)
    else
      var p := path[..Min(|path|, MAX_PATH - 1)];
      (0, pool[i := Entry(true, session, p, |src|, Splice(pool[i].data, 0, src))])
  }

  /** lucas_cow_truncate: a shrink drops the tail, a growth is zero-filled. */
  function Truncate(pool: Pool, session: U32, path: string, newlen: U32): (r: (int, Pool))
    requires Shape(pool)
    ensures Shape(r.1)
  {
    var i := Find(pool, session, path);
    if i == ENTRIES then (0, pool)
    else if newlen > MAX_BYTES then (ENOSPC, pool)
    else
      var e := pool[i];
      var data := if newlen > e.len then Splice(e.data, e.len, Zeros(newlen - e.len)) else e.data;
      (0, pool[i := e.(data := data, len := newlen)])
  }

  /** lucas_cow_reap, slot by slot. */
  function Reap(pool: Pool, session: U32): (r: Pool)
    requires Shape(pool)
    ensures Shape(r)
  {
    seq(ENTRIES, i requires 0 <= i < ENTRIES => ReapEntry(pool[i], session))
  }

  function ReapEntry(e: Entry, session: U32): (r: Entry) {
    if e.used && e.session == session then e.(used := false) else e
  }

  // ---- file semantics ---------------------------------------------------------------

  function BytesOf(f: File): (s: seq<Byte>) {
    if f.Absent? then [] else f.bytes
  }

  /** A sparse byte array after a positional write: the gap reads as zeros, the tail stays. */
  function FileWrite(b: seq<Byte>, off: nat, src: seq<Byte>): (r: seq<Byte>)
    ensures |r| == (if off + |src| > |b| then off + |src| else |b|)
    ensures r[off..off + |src|] == src
    ensures forall i :: 0 <= i < |r| && !(off <= i < off + |src|) ==> r[i] == if i < |b| then b[i] else 0
  {
    var len := if off + |src| > |b| then off + |src| else |b|;
    Splice(b + Zeros(len - |b|), off, src)
  }

  function Resize(b: seq<Byte>, n: nat): (r: seq<Byte>)
    ensures |r| == n
    ensures forall i :: 0 <= i < n ==> r[i] == if i < |b| then b[i] else 0
  {
    if n <= |b| then b[..n] else b + Zeros(n - |b|)
  }

  // ---- the backend's positional write -----------------------------------------------

  function Offset(cursor: int): (off: nat) {
    if cursor > 0 then cursor else 0
  }

  /** The merge buffer after the splice, whatever it held before. */
  function Merged(merge: seq<Byte>, b: seq<Byte>, off: nat, src: seq<Byte>): (m: seq<Byte>)
    requires |merge| == MAX_BYTES && |b| <= MAX_BYTES && off + |src| <= MAX_BYTES
    ensures |m| == MAX_BYTES
  {
    var loaded := Splice(merge, 0, b);
    var zeroed := if off > |b| then Splice(loaded, |b|, Zeros(off - |b|)) else loaded;
    Splice(zeroed, off, src)
  }

  /** Stale bytes of the merge buffer never reach the file. */
  lemma MergedIsFileWrite(merge: seq<Byte>, b: seq<Byte>, off: nat, src: seq<Byte>)
    requires |merge| == MAX_BYTES && |b| <= MAX_BYTES && off + |src| <= MAX_BYTES
    ensures var f := FileWrite(b, off, src); |f| <= MAX_BYTES && Merged(merge, b, off, src)[..|f|] == f
  {
    var f, loaded := FileWrite(b, off, src), Splice(merge, 0, b);
    assert loaded[..|b|] == b by { assert loaded[0..|b|] == loaded[..|b|]; }
    var m := Merged(merge, b, off, src);
    forall i | 0 <= i < |f|
      ensures m[i] == f[i]
    {
      if off <= i < off + |src| {
        assert m[i] == m[off..off + |src|][i - off] == src[i - off];
        assert f[i] == f[off..off + |src|][i - off];
      } else if i < |b| {
        assert loaded[i] == b[i];
      } else {
        var zeroed := Splice(loaded, |b|, Zeros(off - |b|));
        assert zeroed[i] == zeroed[|b|..|b| + (off - |b|)][i - |b|];
      }
    }
  }

  /** op_write on a base file by a contained session: bytes written or -ENOSPC, new pool. */
  function WriteAt(pool: Pool, session: U32, key: string, cursor: int, src: seq<Byte>): (r: (int, Pool))
    requires Shape(pool)
    ensures Shape(r.1)
  {
    var off := Offset(cursor);
    if off + |src| > MAX_BYTES then (ENOSPC, pool)
    else
      var (rc, pool') := Write(pool, session, key, FileWrite(BytesOf(Content(pool, session, key)), off, src));
      (if rc == 0 then |src| else rc, pool')
  }

  /** op_truncate: negative lengths count as 0, others are cut to 32 bits. */
  function TruncateAt(pool: Pool, session: U32, key: string, newlen: int): (r: (int, Pool))
    requires Shape(pool)
    ensures Shape(r.1)
  {
    Truncate(pool, session, key, if newlen > 0 then newlen % TWO32 else 0)
  }

  // ---- each operation on the map of files -------------------------------------------

  /** Find returns the one slot that holds a key. */
  lemma FindUnique(pool: Pool, session: U32, path: string, i: nat)
    requires Inv(pool) && i < |pool| && Matches(pool[i], session, path)
    ensures Find(pool, session, path) == i
  {
  }

  lemma SlotUpdate(pool: Pool, i: nat, e: Entry, session: U32, path: string)
    requires Inv(pool) && i < ENTRIES && EntryOk(e) && Matches(e, session, path)
    requires !pool[i].used || Matches(pool[i], session, path)
    requires !pool[i].used ==> Find(pool, session, path) == ENTRIES
    ensures Inv(pool[i := e])
    ensures Content(pool[i := e], session, path) == Bytes(e.data[..e.len])
    ensures forall s: U32, p: string :: (s, p) != (session, path) ==> Content(pool[i := e], s, p) == Content(pool, s, p)
  {
    var q := pool[i := e];
    forall j | 0 <= j < ENTRIES && j != i
      ensures !Matches(pool[j], session, path)
    {
    }
    assert Unique(q);
    FindUnique(q, session, path, i);
    forall s: U32, p: string | (s, p) != (session, path)
      ensures Content(q, s, p) == Content(pool, s, p)
    {
      SameFind(pool, q, i, s, p);
    }
  }

  lemma SameFind(pool: Pool, q: Pool, i: nat, s: U32, p: string)
    requires Inv(pool) && Inv(q) && i < ENTRIES
    requires forall j :: 0 <= j < ENTRIES && j != i ==> pool[j] == q[j]
    requires !Matches(pool[i], s, p) && !Matches(q[i], s, p)
    ensures Content(pool, s, p) == Content(q, s, p)
  {
    var k := Find(pool, s, p);
    if k < ENTRIES {
      FindUnique(q, s, p, k);
    } else {
      assert forall j :: 0 <= j < ENTRIES ==> !Matches(q[j], s, p);
    }
  }

  /** Some slot is available to the key: its own or a free one. */
  predicate HasRoom(pool: Pool, session: U32, path: string) {
    exists i :: 0 <= i < |pool| && (!pool[i].used || (pool[i].session == session && pool[i].path == path))
  }

  lemma WriteEffect(pool: Pool, session: U32, path: string, src: seq<Byte>)
    requires Inv(pool) && |path| < MAX_PATH
    ensures var (rc, q) := Write(pool, session, path, src);
            && Inv(q)
            && (rc == 0 <==> |src| <= MAX_BYTES && HasRoom(pool, session, path))
            && (rc != 0 ==> rc == ENOSPC && q == pool)
            && (rc == 0 ==> Content(q, session, path) == Bytes(src))
            && forall s: U32, p: string :: (s, p) != (session, path) ==> Content(q, s, p) == Content(pool, s, p)
  {
    var i := WriteSlot(pool, session, path);
    if |src| <= MAX_BYTES && i < ENTRIES {
      var e := Entry(true, session, path, |src|, Splice(pool[i].data, 0, src));
      assert path[..Min(|path|, MAX_PATH - 1)] == path;
      assert e.data[..|src|] == src by { assert e.data[0..|src|] == e.data[..|src|]; }
      SlotUpdate(pool, i, e, session, path);
    }
  }

  /** op_write on a base file: accepted exactly when the range ends within 64 KiB and there is a
      slot; then the count is the whole one, the file is the positional write of the old
      content, and no other file changes; a refusal is ENOSPC and changes nothing. */
  lemma WriteAtEffect(pool: Pool, session: U32, key: string, cursor: int, src: seq<Byte>)
    requires Inv(pool) && |key| < MAX_PATH
    ensures var (rc, q) := WriteAt(pool, session, key, cursor, src);
            var off := if cursor > 0 then cursor else 0;
            && Inv(q)
            && (if off + |src| <= 65536 && HasRoom(pool, session, key) then
                  && rc == |src|
                  && Content(q, session, key) == Bytes(FileWrite(BytesOf(Content(pool, session, key)), off, src))
                else rc == -28 && q == pool)
            && forall s: U32, p: string :: (s, p) != (session, key) ==> Content(q, s, p) == Content(pool, s, p)
  {
    hide Write;
    var off := Offset(cursor);
    if off + |src| <= MAX_BYTES {
      WriteEffect(pool, session, key, FileWrite(BytesOf(Content(pool, session, key)), off, src));
    }
  }

  /** A path of 96 characters or more is stored cut short, so the write reports success and
      the session can still not find it: read-back works exactly for shorter paths. */
  lemma WrittenIsFoundIff(pool: Pool, session: U32, path: string, src: seq<Byte>)
    requires Inv(pool) && Write(pool, session, path, src).0 == 0
    ensures Content(Write(pool, session, path, src).1, session, path).Bytes? <==> |path| < 96
  {
    if |path| < MAX_PATH {
      WriteEffect(pool, session, path, src);
    }
  }

  lemma TruncateEffect(pool: Pool, session: U32, path: string, newlen: U32)
    requires Inv(pool)
    ensures var (rc, q) := Truncate(pool, session, path, newlen);
            var f := Content(pool, session, path);
            && Inv(q)
            && (rc == 0 <==> f.Absent? || newlen <= MAX_BYTES)
            && (rc != 0 || f.Absent? ==> q == pool)
            && (rc == 0 && f.Bytes? ==> Content(q, session, path) == Bytes(Resize(f.bytes, newlen)))
            && forall s: U32, p: string :: (s, p) != (session, path) ==> Content(q, s, p) == Content(pool, s, p)
  {
    var i := Find(pool, session, path);
    if i < ENTRIES && newlen <= MAX_BYTES {
      var e := Truncate(pool, session, path, newlen).1[i];
      SlotUpdate(pool, i, e, session, path);
      var b := pool[i].data[..pool[i].len];
      if newlen > pool[i].len {
        assert e.data[pool[i].len..newlen] == Zeros(newlen - pool[i].len);
        assert e.data[..newlen] == e.data[..pool[i].len] + e.data[pool[i].len..newlen];
        assert e.data[..pool[i].len] == b;
      }
      assert e.data[..newlen] == Resize(b, newlen);
    }
  }

  lemma ReapEffect(pool: Pool, session: U32)
    requires Inv(pool)
    ensures Inv(Reap(pool, session))
    ensures forall s: U32, p: string ::
              Content(Reap(pool, session), s, p) == if s == session then Absent else Content(pool, s, p)
  {
    var q := Reap(pool, session);
    forall s: U32, p: string
      ensures Content(q, s, p) == if s == session then Absent else Content(pool, s, p)
    {
      var k := Find(pool, s, p);
      if s != session && k < ENTRIES {
        FindUnique(q, s, p, k);
      } else {
        assert forall j :: 0 <= j < ENTRIES ==> !Matches(q[j], s, p);
      }
    }
  }

  // ---- the module's static storage, updated in place --------------------------------

  class Overlay {
    var pool: Pool
    var merge: array<Byte>  // the backend's static splice buffer

    ghost predicate Valid()
      reads this
    {
      Shape(pool) && merge.Length == MAX_BYTES
    }

    method CowFind(session: U32, path: string) returns (i: nat)
      requires Valid()
      ensures i == Find(pool, session, path)
    {
      i := 0;
      while i < ENTRIES && !Matches(pool[i], session, path)
        invariant i <= ENTRIES && Find(pool, session, path) == Find(pool, session, path, i)
      {
        i := i + 1;
      }
    }

    method CowWrite(session: U32, path: string, src: seq<Byte>) returns (rc: int)
      requires Valid()
      modifies this`pool
      ensures Valid() && (rc, pool) == Write(old(pool), session, path, src)
    {
      if |src| > MAX_BYTES {
        return ENOSPC;
      }
      var i := CowFind(session, path);
      if i == ENTRIES {
        i := 0;
        while i < ENTRIES && pool[i].used
          invariant i <= ENTRIES && pool == old(pool) && Free(pool) == Free(pool, i)
        {
          i := i + 1;
        }
        if i == ENTRIES {
          return ENOSPC;
        }
      }
      var p := path[..Min(|path|, MAX_PATH - 1)];
      pool := pool[i := pool[i].(session := session, path := p)];
      pool := pool[i := pool[i].(data := Splice(pool[i].data, 0, src))];
      pool := pool[i := pool[i].(len := |src|, used := true)];
      assert pool == old(pool)[i := Entry(true, session, p, |src|, Splice(old(pool)[i].data, 0, src))];
      rc := 0;
    }

    method CowTruncate(session: U32, path: string, newlen: U32) returns (rc: int)
      requires Valid()
      modifies this`pool
      ensures Valid() && (rc, pool) == Truncate(old(pool), session, path, newlen)
    {
      var i := CowFind(session, path);
      if i == ENTRIES {
        return 0;
      }
      if newlen > MAX_BYTES {
        return ENOSPC;
      }
      if newlen > pool[i].len {
        pool := pool[i := pool[i].(data := Splice(pool[i].data, pool[i].len, Zeros(newlen - pool[i].len)))];
      }
      pool := pool[i := pool[i].(len := newlen)];
      assert pool == old(pool)[i := pool[i]];
      rc := 0;
    }

    method CowReap(session: U32)
      requires Valid()
      modifies this`pool
      ensures Valid() && pool == Reap(old(pool), session)
    {
      var i := 0;
      while i < ENTRIES
        invariant i <= ENTRIES && |pool| == ENTRIES
        invariant forall j :: 0 <= j < ENTRIES ==>
          pool[j] == if j < i then ReapEntry(old(pool)[j], session) else old(pool)[j]
      {
        if pool[i].used && pool[i].session == session {
          pool := pool[i := pool[i].(used := false)];
        }
        i := i + 1;
      }
    }

    /** op_write's splice: load the entry into the merge buffer, zero the gap, lay the new
        bytes over it and write the image back. */
    method OpWriteAt(session: U32, key: string, cursor: int, src: seq<Byte>) returns (rc: int)
      requires Valid()
      modifies this`pool, merge
      ensures Valid() && merge == old(merge) && (rc, pool) == WriteAt(old(pool), session, key, cursor, src)
    {
      hide FileWrite, Write;
      var i := CowFind(session, key);
      var b := if i < ENTRIES then pool[i].data[..pool[i].len] else [];
      assert b == BytesOf(Content(pool, session, key));
      var off := if cursor > 0 then cursor else 0;
      if off + |src| > MAX_BYTES {
        Store(merge, 0, b);
        return ENOSPC;
      }
      var image := Merge(b, off, src);
      rc := CowWrite(session, key, image);
      if rc == 0 {
        rc := |src|;
      }
    }

    method Merge(b: seq<Byte>, off: nat, src: seq<Byte>) returns (image: seq<Byte>)
      requires Valid() && |b| <= MAX_BYTES && off + |src| <= MAX_BYTES
      modifies merge
      ensures image == FileWrite(b, off, src)
    {
      ghost var was := merge[..];
      Store(merge, 0, b);
      if off > |b| {
        Store(merge, |b|, Zeros(off - |b|));
      }
      Store(merge, off, src);
      assert merge[..] == Merged(was, b, off, src);
      MergedIsFileWrite(was, b, off, src);
      var newLen := if off + |src| < |b| then |b| else off + |src|;
      image := merge[..newLen];
      assert image == merge[..][..newLen];
    }

    /** op_read's overlay branch. */
    method OpReadAt(session: U32, key: string, count: nat, cursor: nat) returns (out: seq<Byte>)
      requires Valid()
      ensures var b := BytesOf(Content(pool, session, key));
              out == if cursor >= |b| then [] else b[cursor..Min(cursor + count, |b|)]
    {
      var i := CowFind(session, key);
      if i == ENTRIES || cursor >= pool[i].len {
        return [];
      }
      var avail := pool[i].len - cursor;
      var n := if count < avail then count else avail;
      out := pool[i].data[cursor..cursor + n];
      assert out == pool[i].data[..pool[i].len][cursor..cursor + n];
    }
  }

  /** memcpy into a buffer. */
  method Store(a: array<Byte>, off: nat, src: seq<Byte>)
    requires off + |src| <= a.Length
    modifies a
    ensures a[..] == Splice(old(a[..]), off, src)
  {
    var i := 0;
    while i < |src|
      invariant i <= |src|
      invariant a[..] == Splice(old(a[..]), off, src[..i])
    {
      ghost var before := a[..];
      a[off + i] := src[i];
      i := i + 1;
      assert a[..] == before[off + i - 1 := src[i - 1]];
      assert src[..i] == src[..i - 1] + [src[i - 1]];
    }
    assert src[..i] == src;
  }

  // ---- whole runs -------------------------------------------------------------------

  datatype Op =
    | OpWrite(session: U32, key: string, cursor: int, src: seq<Byte>)
    | OpTruncate(session: U32, key: string, newlen: int)
    | OpReap(session: U32)

  /** Keys the file backend uses are handle paths of at most 63 characters. */
  predicate KeyOk(op: Op) {
    op.OpReap? || |op.key| < MAX_PATH
  }

  function Step(pool: Pool, op: Op): (r: (int, Pool))
    requires Shape(pool)
    ensures Shape(r.1)
  {
    match op
    case OpWrite(s, k, cursor, src) => WriteAt(pool, s, k, cursor, src)
    case OpTruncate(s, k, newlen) => TruncateAt(pool, s, k, newlen)
    case OpReap(s) => (0, Reap(pool, s))
  }

  /** One sparse file per (session, key), moved only by its own accepted operations. */
  function FileStep(f: File, session: U32, key: string, op: Op, rc: int): (f': File) {
    match op
    case OpWrite(s, k, cursor, src) =>
      if (s, k) == (session, key) && rc >= 0 then Bytes(FileWrite(BytesOf(f), Offset(cursor), src)) else f
    case OpTruncate(s, k, newlen) =>
      if (s, k) == (session, key) && rc == 0 && f.Bytes?
      then Bytes(Resize(f.bytes, if newlen > 0 then newlen % TWO32 else 0)) else f
    case OpReap(s) => if s == session then Absent else f
  }

  lemma StepEffect(pool: Pool, op: Op, session: U32, key: string)
    requires Inv(pool) && KeyOk(op)
    ensures var (rc, q) := Step(pool, op);
            Inv(q) && Content(q, session, key) == FileStep(Content(pool, session, key), session, key, op, rc)
  {
    match op {
      case OpWrite(s, k, cursor, src) =>
        if Offset(cursor) + |src| <= MAX_BYTES {
          WriteEffect(pool, s, k, FileWrite(BytesOf(Content(pool, s, k)), Offset(cursor), src));
        }
      case OpTruncate(s, k, newlen) =>
        TruncateEffect(pool, s, k, if newlen > 0 then newlen % TWO32 else 0);
      case OpReap(s) =>
        ReapEffect(pool, s);
    }
  }

  function Run(pool: Pool, ops: seq<Op>): (r: Pool)
    requires Shape(pool)
    ensures Shape(r)
    decreases |ops|
  {
    if ops == [] then pool else Run(Step(pool, ops[0]).1, ops[1..])
  }

  /** The file of one key over a run, given the status of each operation. */
  function FileRun(f: File, session: U32, key: string, pool: Pool, ops: seq<Op>): (f': File)
    requires Shape(pool)
    decreases |ops|
  {
    if ops == [] then f
    else
      var (rc, q) := Step(pool, ops[0]);
      FileRun(FileStep(f, session, key, ops[0], rc), session, key, q, ops[1..])
  }

  /** In every run each (session, key) behaves as one sparse byte array that starts absent and
      is moved only by that session's own accepted operations on that key: gaps read as
      zeros, bytes cut by a truncate never come back, a rejected write changes nothing, and
      nothing another session or key does is visible. */
  lemma {:induction false} EachKeyIsAFile(pool: Pool, ops: seq<Op>, session: U32, key: string)
    requires Inv(pool) && forall i :: 0 <= i < |ops| ==> KeyOk(ops[i])
    ensures Content(Run(pool, ops), session, key)
         == FileRun(Content(pool, session, key), session, key, pool, ops)
    decreases |ops|
  {
    if ops != [] {
      StepEffect(pool, ops[0], session, key);
      EachKeyIsAFile(Step(pool, ops[0]).1, ops[1..], session, key);
    }
  }
}
