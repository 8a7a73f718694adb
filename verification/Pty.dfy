/** The 256-byte ring of one direction of a pseudo-terminal (src/lucas/backends_pty.c). */
module PtyRing {
  import opened Machine
  import opened RingWindow

  const RING: nat := 256

  /** Cell of the byte i places past a 64-bit cursor. */
  function At(c: U64, i: nat): (k: nat)
    ensures k < RING
  {
    Cell(c + i, TWO64, RING)
  }

  /** 256 divides 2^64, so no two of 256 consecutive bytes share a cell, wrap or not. */
  lemma AtDistinct(c: U64, i: nat, j: nat)
    requires i < j < i + RING
    ensures At(c, i) != At(c, j)
  {
    assert TWO64 % RING == 0;
    Collision(c + i, c + j, TWO64, RING);
  }

  function Adv(c: U64, n: nat): (c': U64) {
    (c + n) % TWO64
  }

  lemma AtAdv(c: U64, n: nat, i: nat)
    ensures At(Adv(c, n), i) == At(c, n + i)
  {
    assert ((c + n) % TWO64 + i) % TWO64 == (c + n + i) % TWO64;
  }

  /** The n bytes a reader would copy from cursor c on. */
  function Bytes(data: seq<Byte>, c: U64, n: nat): (s: seq<Byte>)
    requires |data| == RING
    ensures |s| == n
    ensures forall i {:trigger s[i]} :: 0 <= i < n ==> s[i] == data[At(c, i)]
  {
    seq(n, i requires 0 <= i < n => data[At(c, i)])
  }

  function Lag(head: U64, tail: U64): (n: U64) {
    (head - tail) % TWO64
  }

  lemma LagAdv(head: U64, tail: U64, n: nat)
    requires n < TWO64
    ensures Lag(head, tail) + n < TWO64 ==> Lag(Adv(head, n), tail) == Lag(head, tail) + n
    ensures n <= Lag(head, tail) ==> Lag(head, Adv(tail, n)) == Lag(head, tail) - n
  {
    assert Lag(head, tail) == if head >= tail then head - tail else head - tail + TWO64;
    assert Adv(head, n) == if head + n < TWO64 then head + n else head + n - TWO64;
    assert Adv(tail, n) == if tail + n < TWO64 then tail + n else tail + n - TWO64;
  }

  class Ring {
    const data: array<Byte>
    var head: U64
    var tail: U64

    ghost predicate Valid()
      reads this
    {
      data.Length == RING && Lag(head, tail) <= RING
    }

    /** The bytes written and not yet read, oldest first. */
    ghost function Backlog(): (s: seq<Byte>)
      requires Valid()
      reads this, data
    {
      Bytes(data[..], tail, Lag(head, tail))
    }

    constructor ()
      ensures Valid() && fresh(data) && Backlog() == []
    {
      data := new Byte[RING](_ => 0);
      head, tail := 0, 0;
    }

    /** The pair is zeroed when it is allocated. */
    method Clear()
      requires data.Length == RING
      modifies this, data
      ensures Valid() && Backlog() == []
    {
      for i := 0 to RING {
        data[i] := 0;
      }
      head, tail := 0, 0;
    }

    /** ring_write: accept what fits, drop the rest. */
    method Write(src: seq<Byte>) returns (n: nat)
      requires Valid()
      modifies this`head, data
      ensures Valid()
      ensures n == Min(|src|, RING - |old(Backlog())|)
      ensures Backlog() == old(Backlog()) + src[..n]
    {
      ghost var was, len := data[..], Lag(head, tail);
      var free := RING - (head - tail) % TWO64;
      n := if |src| > free then free else |src|;
      var i := 0;
      while i < n
        invariant 0 <= i <= n && head == old(head)
        invariant Bytes(data[..], tail, len + i) == old(Backlog()) + src[..i]
      {
        AtHead(head, tail, i);
        ghost var before := data[..];
        data[At(head, i)] := src[i];
        StoreExtends(before, tail, len + i, src[i]);
        assert src[..i + 1] == src[..i] + [src[i]];
        i := i + 1;
      }
      LagAdv(head, tail, n);
      head := Adv(head, n);
    }

    /** ring_read: hand out the oldest bytes. */
    method Read(count: nat) returns (out: seq<Byte>)
      requires Valid()
      modifies this`tail
      ensures Valid()
      ensures out == old(Backlog())[..Min(count, |old(Backlog())|)]
      ensures Backlog() == old(Backlog())[|out|..]
    {
      ghost var was := Backlog();
      var avail := (head - tail) % TWO64;
      var n := if count > avail then avail else count;
      out := [];
      while |out| < n
        invariant |out| <= n && out == was[..|out|] && tail == old(tail)
      {
        out := out + [data[At(tail, |out|)]];
      }
      LagAdv(head, tail, n);
      SkipBytes(data[..], tail, n, avail);
      tail := Adv(tail, n);
    }
  }

  lemma AtHead(head: U64, tail: U64, i: nat)
    ensures At(head, i) == At(tail, Lag(head, tail) + i)
  {
    assert (tail + Lag(head, tail) + i) % TWO64 == (head + i) % TWO64;
  }

  lemma StoreExtends(data: seq<Byte>, c: U64, n: nat, b: Byte)
    requires |data| == RING && n < RING
    ensures Bytes(data[At(c, n) := b], c, n + 1) == Bytes(data, c, n) + [b]
  {
    forall i | 0 <= i < n
      ensures At(c, i) != At(c, n)
    {
      AtDistinct(c, i, n);
    }
  }

  lemma SkipBytes(data: seq<Byte>, c: U64, n: nat, len: nat)
    requires |data| == RING && n <= len
    ensures Bytes(data, Adv(c, n), len - n) == Bytes(data, c, len)[n..]
  {
    forall i | 0 <= i < len - n
      ensures At(Adv(c, n), i) == At(c, n + i)
    {
      AtAdv(c, n, i);
    }
  }
}

/** The pools of pseudo-terminal pairs and handles, over two rings to a pair. */
module PtyPool {
  import opened Machine
  import PtyRing

  const PAIRS: nat := 2
  const HANDLES: nat := 4
  const LANES: nat := 4

  datatype Handle = Handle(inUse: bool, pair: nat, master: bool)
  /** The pairs in use, what each direction of each pair has buffered, and the handles. */
  datatype Pool = Pool(inUse: seq<bool>, bufs: seq<seq<Byte>>, handles: seq<Handle>)

  const EBADF: int := -9
  const EMFILE: int := -24
  const ENOENT: int := -2

  /** The direction of a pair that the master writes (and the slave reads), or the other. */
  function Lane(pair: nat, toSlave: bool): (k: nat)
    ensures pair < PAIRS ==> k < LANES
  {
    2 * pair + if toSlave then 0 else 1
  }

  datatype Target = Master | Slave(n: nat) | Nowhere

  /** Which end a mount-relative path names.  Only the first digit after pts/ is looked at. */
  function Parse(path: string): (t: Target) {
    if path == "tmx" || path == "/tmx" || path == "/ptmx" then Master
    else if "ts/" <= path then SlaveOf(path[3..])
    else if "/pts/" <= path then SlaveOf(path[5..])
    else Nowhere
  }

  function SlaveOf(num: string): (t: Target) {
    if num != "" && '0' <= num[0] <= '9' && (num[0] - '0') as nat < PAIRS then Slave((num[0] - '0') as nat)
    else Nowhere
  }

  predicate Shape(p: Pool) {
    && |p.inUse| == PAIRS && |p.bufs| == LANES && |p.handles| == HANDLES
    && forall h :: 0 <= h < HANDLES ==> p.handles[h].pair < PAIRS
  }

  /** Lowest free slot at or after i, or the pool size when there is none. */
  function FreeHandle(hs: seq<Handle>, i: nat): (k: nat)
    requires i <= |hs|
    ensures i <= k <= |hs| && (k < |hs| ==> !hs[k].inUse)
    decreases |hs| - i
  {
    if i == |hs| || !hs[i].inUse then i else FreeHandle(hs, i + 1)
  }

  function FreePair(inUse: seq<bool>, i: nat): (k: nat)
    requires i <= |inUse|
    ensures i <= k <= |inUse| && (k < |inUse| ==> !inUse[k])
    decreases |inUse| - i
  {
    if i == |inUse| || !inUse[i] then i else FreePair(inUse, i + 1)
  }

  predicate OpenOn(p: Pool, h: int, i: nat)
    requires Shape(p)
  {
    0 <= h < HANDLES && p.handles[h].inUse && p.handles[h].pair == i
  }

  /** op_open: status, handle index (meaningful when the status is 0) and new pool. */
  function Open(p: Pool, path: string): (r: (int, nat, Pool))
    requires Shape(p)
    ensures Shape(r.2) && r.1 < HANDLES
  {
    var h := FreeHandle(p.handles, 0);
    if h == HANDLES then (EMFILE, 0, p)
    else
      match Parse(path)
      case Master =>
        var i := FreePair(p.inUse, 0);
        if i == PAIRS then (EMFILE, 0, p)
        else (0, h, Pool(p.inUse[i := true], p.bufs[Lane(i, true) := []][Lane(i, false) := []],
                         p.handles[h := Handle(true, i, true)]))
      case Slave(i) =>
        if !p.inUse[i] then (ENOENT, 0, p)
        else (0, h, p.(handles := p.handles[h := Handle(true, i, false)]))
      case Nowhere => (ENOENT, 0, p)
  }

  /** op_close, also of a handle that is already closed. */
  function Close(p: Pool, h: nat): (p': Pool)
    requires Shape(p) && h < HANDLES
    ensures Shape(p')
  {
    var i := p.handles[h].pair;
    var q := p.(handles := p.handles[h := p.handles[h].(inUse := false)]);
    if exists k :: 0 <= k < HANDLES && OpenOn(q, k, i) then q else q.(inUse := q.inUse[i := false])
  }

  predicate Usable(p: Pool, h: nat)
    requires Shape(p) && h < HANDLES
  {
    p.handles[h].inUse && p.inUse[p.handles[h].pair]
  }

  /** A pair is in use exactly while some handle on it is open. */
  ghost predicate Inv(p: Pool) {
    && Shape(p)
    && (forall k :: 0 <= k < LANES ==> |p.bufs[k]| <= PtyRing.RING)
    && (forall i :: 0 <= i < PAIRS ==> (p.inUse[i] <==> exists h :: OpenOn(p, h, i)))
  }

  function Into(p: Pool, h: nat): (k: nat)
    requires Shape(p) && h < HANDLES
    ensures k < LANES
  {
    Lane(p.handles[h].pair, p.handles[h].master)
  }

  function OutOf(p: Pool, h: nat): (k: nat)
    requires Shape(p) && h < HANDLES
    ensures k < LANES
  {
    Lane(p.handles[h].pair, !p.handles[h].master)
  }

  /** What a write of src through the handle accepts: as much as fits. */
  function Taken(p: Pool, h: nat, src: seq<Byte>): (s: seq<Byte>)
    requires Inv(p) && h < HANDLES
  {
    src[..Min(|src|, PtyRing.RING - |p.bufs[Into(p, h)]|)]
  }

  /** What a read through the handle returns: the oldest bytes. */
  function Given(p: Pool, h: nat, count: nat): (s: seq<Byte>)
    requires Inv(p) && h < HANDLES
  {
    p.bufs[OutOf(p, h)][..Min(count, |p.bufs[OutOf(p, h)]|)]
  }

  /** op_write: the master feeds one direction, the slave the other; a bad handle changes
      nothing. */
  function Write(p: Pool, h: nat, src: seq<Byte>): (p': Pool)
    requires Inv(p) && h < HANDLES
  {
    if !Usable(p, h) then p
    else p.(bufs := p.bufs[Into(p, h) := p.bufs[Into(p, h)] + Taken(p, h, src)])
  }

  /** op_read: each side drains the direction the other feeds. */
  function Read(p: Pool, h: nat, count: nat): (p': Pool)
    requires Inv(p) && h < HANDLES
  {
    if !Usable(p, h) then p
    else p.(bufs := p.bufs[OutOf(p, h) := p.bufs[OutOf(p, h)][|Given(p, h, count)|..]])
  }

  datatype Op = OpOpen(path: string) | OpClose(h: nat) | OpWrite(h: nat, src: seq<Byte>) | OpRead(h: nat, count: nat)

  predicate Addressed(op: Op) {
    match op
    case OpOpen(_) => true
    case OpClose(h) => h < HANDLES
    case OpWrite(h, _) => h < HANDLES
    case OpRead(h, _) => h < HANDLES
  }

  function Step(p: Pool, op: Op): (p': Pool)
    requires Inv(p) && Addressed(op)
  {
    match op
    case OpOpen(path) => Open(p, path).2
    case OpClose(h) => Close(p, h)
    case OpWrite(h, src) => Write(p, h, src)
    case OpRead(h, count) => Read(p, h, count)
  }

  lemma OpenInv(p: Pool, path: string)
    requires Inv(p)
    ensures Inv(Open(p, path).2)
  {
    var (rc, h, p') := Open(p, path);
    if rc == 0 {
      var i := p'.handles[h].pair;
      assert OpenOn(p', h, i);
      forall j | 0 <= j < PAIRS
        ensures p'.inUse[j] <==> exists k :: OpenOn(p', k, j)
      {
        if j != i && p.inUse[j] {
          var k :| OpenOn(p, k, j);
          assert OpenOn(p', k, j);
        }
        if k :| OpenOn(p', k, j) {
          assert k == h || OpenOn(p, k, j);
        }
      }
    }
  }

  lemma CloseInv(p: Pool, h: nat)
    requires Inv(p) && h < HANDLES
    ensures Inv(Close(p, h))
  {
    var p', i := Close(p, h), p.handles[h].pair;
    var q := p.(handles := p.handles[h := p.handles[h].(inUse := false)]);
    assert forall k, j :: OpenOn(q, k, j) ==> OpenOn(p, k, j);
    assert forall k, j :: OpenOn(p, k, j) && k != h ==> OpenOn(q, k, j);
    assert forall k, j :: OpenOn(p', k, j) <==> OpenOn(q, k, j);
    forall j | 0 <= j < PAIRS
      ensures p'.inUse[j] <==> exists k :: OpenOn(p', k, j)
    {
      if k :| OpenOn(p, k, j) {
        assert j == i || OpenOn(q, k, j);
      }
    }
  }

  lemma PoolShape(p: Pool)
    requires Inv(p)
    ensures Shape(p)
  {
  }

  lemma TransferInv(p: Pool, h: nat, src: seq<Byte>, count: nat)
    requires Inv(p) && h < HANDLES
    ensures Inv(Write(p, h, src)) && Inv(Read(p, h, count))
  {
    var w, r := Write(p, h, src), Read(p, h, count);
    assert forall k, j :: OpenOn(w, k, j) <==> OpenOn(p, k, j);
    assert forall k, j :: OpenOn(r, k, j) <==> OpenOn(p, k, j);
  }

  lemma StepInv(p: Pool, op: Op)
    requires Inv(p) && Addressed(op)
    ensures Inv(Step(p, op))
  {
    match op {
      case OpOpen(path) => OpenInv(p, path);
      case OpClose(h) => CloseInv(p, h);
      case OpWrite(h, src) => TransferInv(p, h, src, 0);
      case OpRead(h, count) => TransferInv(p, h, [], count);
    }
  }

  /** Any sequence of opens, closes (double closes included), writes and reads. */
  ghost function Run(p: Pool, ops: seq<Op>): (p': Pool)
    requires Inv(p) && forall i :: 0 <= i < |ops| ==> Addressed(ops[i])
    ensures Inv(p')
    decreases |ops|
  {
    if ops == [] then p
    else
      var q := Run(p, ops[..|ops| - 1]);
      StepInv(q, ops[|ops| - 1]);
      Step(q, ops[|ops| - 1])
  }

  // ---- what the callers see ---------------------------------------------------------

  /** Everything a handle would be given. */
  function Waiting(p: Pool, h: nat): (s: seq<Byte>)
    requires Inv(p) && h < HANDLES
  {
    Given(p, h, PtyRing.RING)
  }

  /** Two open handles on one pair, one for each end. */
  predicate Ends(p: Pool, a: nat, b: nat)
    requires Shape(p)
  {
    && a < HANDLES && b < HANDLES && Usable(p, a) && Usable(p, b)
    && p.handles[a].pair == p.handles[b].pair && p.handles[a].master != p.handles[b].master
  }

  /** What one end writes waits for the other end, behind what was waiting, as far as the 256
      bytes go; it does not come back to the writer, and no other pair sees it. */
  lemma EndsTalk(p: Pool, a: nat, b: nat, src: seq<Byte>)
    requires Inv(p) && Ends(p, a, b)
    ensures var q := Write(p, a, src);
            && Inv(q) && Ends(q, a, b)
            && Waiting(q, b) == Waiting(p, b) + src[..Min(|src|, 256 - |Waiting(p, b)|)]
            && Waiting(q, a) == Waiting(p, a)
            && forall c :: 0 <= c < HANDLES && p.handles[c].pair != p.handles[a].pair ==> Waiting(q, c) == Waiting(p, c)
  {
    TransferInv(p, a, src, 0);
  }

  /** A read hands out the oldest bytes waiting and leaves the rest; the other end's are not
      touched, nor any other pair's. */
  lemma EndsListen(p: Pool, a: nat, b: nat, count: nat)
    requires Inv(p) && Ends(p, a, b)
    ensures var q, out := Read(p, b, count), Given(p, b, count);
            && Inv(q) && Ends(q, a, b)
            && out == Waiting(p, b)[..Min(count, |Waiting(p, b)|)] && Waiting(q, b) == Waiting(p, b)[|out|..]
            && Waiting(q, a) == Waiting(p, a)
            && forall c :: 0 <= c < HANDLES && p.handles[c].pair != p.handles[a].pair ==> Waiting(q, c) == Waiting(p, c)
  {
    TransferInv(p, b, [], count);
  }

  predicate FullOfHandles(p: Pool)
    requires Shape(p)
  {
    |p.handles| == 4 && forall h :: 0 <= h < 4 ==> p.handles[h].inUse
  }

  lemma {:induction false} NoFreeHandle(hs: seq<Handle>, i: nat)
    requires i <= |hs|
    ensures FreeHandle(hs, i) == |hs| <==> forall j :: i <= j < |hs| ==> hs[j].inUse
    decreases |hs| - i
  {
    if i < |hs| {
      NoFreeHandle(hs, i + 1);
    }
  }

  lemma {:induction false} NoFreePair(inUse: seq<bool>, i: nat)
    requires i <= |inUse|
    ensures FreePair(inUse, i) == |inUse| <==> forall j :: i <= j < |inUse| ==> inUse[j]
    decreases |inUse| - i
  {
    if i < |inUse| {
      NoFreePair(inUse, i + 1);
    }
  }

  /** The old handles keep their pairs and ends, and only handle h has been opened. */
  predicate OneMore(p: Pool, q: Pool, h: nat)
    requires Shape(p) && Shape(q)
  {
    && h < HANDLES && !p.handles[h].inUse && q.handles[h].inUse
    && forall c :: 0 <= c < HANDLES && c != h ==> q.handles[c] == p.handles[c]
  }

  /** Opening the multiplexer gives a master handle on a pair that was free: EMFILE exactly when
      there is no handle or no pair left. */
  lemma MasterOpens(p: Pool, path: string)
    requires Inv(p) && path in {"tmx", "/tmx", "/ptmx"}
    ensures var (rc, h, q) := Open(p, path);
            if FullOfHandles(p) || (p.inUse[0] && p.inUse[1]) then rc == -24 && q == p
            else
              && rc == 0 && OneMore(p, q, h) && q.handles[h].master && !p.inUse[q.handles[h].pair]
              && q.inUse == p.inUse[q.handles[h].pair := true]
  {
    NoFreeHandle(p.handles, 0);
    NoFreePair(p.inUse, 0);
  }

  /** Opening pts/N gives a slave handle on pair N, whatever follows the digit; EMFILE without
      a handle, else ENOENT exactly when there is no pair N in use. */
  lemma SlaveOpens(p: Pool, mount: string, digit: char, rest: string)
    requires Inv(p) && mount in {"ts/", "/pts/"}
    ensures var (rc, h, q) := Open(p, mount + [digit] + rest);
            if FullOfHandles(p) then rc == -24 && q == p
            else if (digit == '0' && p.inUse[0]) || (digit == '1' && p.inUse[1]) then
              && rc == 0 && OneMore(p, q, h) && !q.handles[h].master
              && q.handles[h].pair == (if digit == '0' then 0 else 1) && q.inUse == p.inUse && q.bufs == p.bufs
            else rc == -2 && q == p
  {
    hide Parse;
    NoFreeHandle(p.handles, 0);
    ParseSlave(mount, digit, rest);
  }

  lemma ParseSlave(mount: string, digit: char, rest: string)
    requires mount in {"ts/", "/pts/"}
    ensures Parse(mount + [digit] + rest)
         == if digit == '0' then Slave(0) else if digit == '1' then Slave(1) else Nowhere
  {
    var path, num := mount + [digit] + rest, [digit] + rest;
    assert path == mount + num;
    assert path[1] == mount[1];
    if mount == "ts/" {
      assert "ts/" <= path && path[3..] == num;
    } else {
      assert "/pts/" <= path && path[5..] == num && path[0] == '/';
    }
  }

  /** Every other path is refused. */
  lemma OthersRefused(p: Pool, path: string)
    requires Inv(p) && path !in {"tmx", "/tmx", "/ptmx"} && !("ts/" <= path) && !("/pts/" <= path)
    ensures Open(p, path) == (if FullOfHandles(p) then -24 else -2, 0, p)
  {
    NoFreeHandle(p.handles, 0);
  }

  /** A new pair starts with nothing waiting at either end, whatever its rings held before. */
  lemma NewPairIsSilent(p: Pool)
    requires Inv(p)
    ensures var (rc, h, q) := Open(p, "tmx");
            rc == 0 ==>
              && Inv(q) && Usable(q, h) && q.handles[h].master && Waiting(q, h) == [] && !p.inUse[q.handles[h].pair]
              && forall c :: 0 <= c < HANDLES && q.handles[c].pair == q.handles[h].pair ==> Waiting(q, c) == []
  {
    OpenInv(p, "tmx");
  }

  /** A close ends that handle and no other, and frees the pair exactly with its last one. */
  lemma CloseEnds(p: Pool, h: nat)
    requires Inv(p) && h < HANDLES
    ensures var q := Close(p, h);
            && Inv(q) && !q.handles[h].inUse && !Usable(q, h) && q.bufs == p.bufs
            && (forall c :: 0 <= c < HANDLES && c != h ==> q.handles[c] == p.handles[c])
            && (q.inUse[p.handles[h].pair] <==>
                  exists c :: 0 <= c < HANDLES && c != h && OpenOn(p, c, p.handles[h].pair))
  {
    CloseInv(p, h);
    var q, i := Close(p, h), p.handles[h].pair;
    assert forall c :: 0 <= c < HANDLES && c != h ==> (OpenOn(q, c, i) <==> OpenOn(p, c, i));
  }

  /** For one end of a pair since its allocation: the bytes writes through it reported accepted,
      and those of them that reads at the other end handed out. */
  datatype Log = Log(accepted: seq<Byte>, returned: seq<Byte>)
  datatype Talk = Talk(fromMaster: Log, fromSlave: Log)

  const NONE := Log([], [])

  /** A write through a handle of the pair that reported these bytes accepted. */
  function Heard(t: Talk, master: bool, bytes: seq<Byte>): (r: Talk) {
    if master then t.(fromMaster := t.fromMaster.(accepted := t.fromMaster.accepted + bytes))
    else t.(fromSlave := t.fromSlave.(accepted := t.fromSlave.accepted + bytes))
  }

  /** A read through a handle of the pair that handed these bytes out. */
  function Passed(t: Talk, master: bool, bytes: seq<Byte>): (r: Talk) {
    if master then t.(fromSlave := t.fromSlave.(returned := t.fromSlave.returned + bytes))
    else t.(fromMaster := t.fromMaster.(returned := t.fromMaster.returned + bytes))
  }

  /** The logs after an operation, from its results alone. */
  function Told(p: Pool, logs: seq<Talk>, op: Op): (r: seq<Talk>)
    requires Inv(p) && |logs| == PAIRS && Addressed(op)
    ensures |r| == PAIRS
  {
    match op
    case OpOpen(path) =>
      var o := Open(p, path);
      if o.0 == 0 && o.2.handles[o.1].master then logs[o.2.handles[o.1].pair := Talk(NONE, NONE)] else logs
    case OpClose(_) => logs
    case OpWrite(h, src) =>
      if !Usable(p, h) then logs
      else var i := p.handles[h].pair; logs[i := Heard(logs[i], p.handles[h].master, Taken(p, h, src))]
    case OpRead(h, count) =>
      if !Usable(p, h) then logs
      else var i := p.handles[h].pair; logs[i := Passed(logs[i], p.handles[h].master, Given(p, h, count))]
  }

  ghost function Logs(p: Pool, logs: seq<Talk>, ops: seq<Op>): (r: seq<Talk>)
    requires Inv(p) && |logs| == PAIRS && forall i :: 0 <= i < |ops| ==> Addressed(ops[i])
    ensures |r| == PAIRS
    decreases |ops|
  {
    if ops == [] then logs
    else Told(Run(p, ops[..|ops| - 1]), Logs(p, logs, ops[..|ops| - 1]), ops[|ops| - 1])
  }

  /** Each way, what was accepted at one end is what was returned at the other followed by what
      is buffered for it. */
  predicate Balanced(bufs: seq<seq<Byte>>, logs: seq<Talk>)
    requires |bufs| == LANES && |logs| == PAIRS
  {
    forall i :: 0 <= i < PAIRS ==>
      && logs[i].fromMaster.accepted == logs[i].fromMaster.returned + bufs[2 * i]
      && logs[i].fromSlave.accepted == logs[i].fromSlave.returned + bufs[2 * i + 1]
  }

  lemma WriteBalanced(p: Pool, logs: seq<Talk>, h: nat, src: seq<Byte>)
    requires Inv(p) && |logs| == PAIRS && h < HANDLES && Balanced(p.bufs, logs)
    ensures Balanced(Write(p, h, src).bufs, Told(p, logs, OpWrite(h, src)))
  {
    hide Inv, Taken;
    PoolShape(p);
    var q, r, i := Write(p, h, src), Told(p, logs, OpWrite(h, src)), p.handles[h].pair;
    if Usable(p, h) {
      assert forall j :: 0 <= j < PAIRS && j != i ==>
        r[j] == logs[j] && q.bufs[2 * j] == p.bufs[2 * j] && q.bufs[2 * j + 1] == p.bufs[2 * j + 1];
      assert Into(p, h) == if p.handles[h].master then 2 * i else 2 * i + 1;
    }
  }

  lemma Regroup(a: seq<Byte>, b: seq<Byte>, c: seq<Byte>)
    ensures a + (b + c) == a + b + c
  {
  }

  lemma ReadBalanced(p: Pool, logs: seq<Talk>, h: nat, count: nat)
    requires Inv(p) && |logs| == PAIRS && h < HANDLES && Balanced(p.bufs, logs)
    ensures Balanced(Read(p, h, count).bufs, Told(p, logs, OpRead(h, count)))
  {
    hide Inv;
    PoolShape(p);
    var q, r, i := Read(p, h, count), Told(p, logs, OpRead(h, count)), p.handles[h].pair;
    if Usable(p, h) {
      var buf, out := p.bufs[OutOf(p, h)], Given(p, h, count);
      assert buf == out + buf[|out|..];
      hide Given;
      var log := if p.handles[h].master then logs[i].fromSlave else logs[i].fromMaster;
      Regroup(log.returned, out, buf[|out|..]);
      assert forall j :: 0 <= j < PAIRS && j != i ==>
        r[j] == logs[j] && q.bufs[2 * j] == p.bufs[2 * j] && q.bufs[2 * j + 1] == p.bufs[2 * j + 1];
      assert OutOf(p, h) == if p.handles[h].master then 2 * i + 1 else 2 * i;
    }
  }

  lemma OpenBalanced(p: Pool, logs: seq<Talk>, path: string)
    requires Inv(p) && |logs| == PAIRS && Balanced(p.bufs, logs)
    ensures Balanced(Open(p, path).2.bufs, Told(p, logs, OpOpen(path)))
  {
    hide Inv, Parse;
    PoolShape(p);
  }

  lemma StepBalanced(p: Pool, logs: seq<Talk>, op: Op)
    requires Inv(p) && |logs| == PAIRS && Addressed(op) && Balanced(p.bufs, logs)
    ensures Inv(Step(p, op)) && Balanced(Step(p, op).bufs, Told(p, logs, op))
  {
    hide Inv, Balanced, Write, Read, Open;
    PoolShape(p);
    StepInv(p, op);
    PoolShape(Step(p, op));
    match op {
      case OpOpen(path) => OpenBalanced(p, logs, path);
      case OpClose(h) =>
      case OpWrite(h, src) => WriteBalanced(p, logs, h, src);
      case OpRead(h, count) => ReadBalanced(p, logs, h, count);
    }
  }

  /** In every run, each way of each pair, what the reads at one end hand out is a prefix of what
      the writes at the other have accepted, and what is missing is exactly what is buffered;
      and a pair is in use exactly while some handle on it is open. */
  lemma {:induction false} StreamsAndLifetimes(p: Pool, logs: seq<Talk>, ops: seq<Op>)
    requires Inv(p) && |logs| == PAIRS && Balanced(p.bufs, logs)
    requires forall k :: 0 <= k < |ops| ==> Addressed(ops[k])
    ensures var q := Run(p, ops);
            && Balanced(q.bufs, Logs(p, logs, ops))
            && forall i :: 0 <= i < PAIRS ==> (q.inUse[i] <==> exists h :: OpenOn(q, h, i))
    decreases |ops|
  {
    if ops != [] {
      var init := ops[..|ops| - 1];
      StreamsAndLifetimes(p, logs, init);
      StepBalanced(Run(p, init), Logs(p, logs, init), ops[|ops| - 1]);
    }
  }

  lemma RunUnfolds(p: Pool, logs: seq<Talk>, ops: seq<Op>, n: nat)
    requires Inv(p) && |logs| == PAIRS && n <= |ops|
    requires forall k :: 0 <= k < |ops| ==> Addressed(ops[k])
    ensures n == 0 ==> Run(p, ops[..n]) == p && Logs(p, logs, ops[..n]) == logs
    ensures n > 0 ==>
              && Run(p, ops[..n]) == Step(Run(p, ops[..n - 1]), ops[n - 1])
              && Logs(p, logs, ops[..n]) == Told(Run(p, ops[..n - 1]), Logs(p, logs, ops[..n - 1]), ops[n - 1])
  {
    hide Step, Told, Inv;
    if n > 0 {
      assert ops[..n][..n - 1] == ops[..n - 1];
    }
  }

  // ---- the code ---------------------------------------------------------------------

  /** What lucas_pty_mount leaves: both pools zeroed. */
  const MOUNTED := Pool([false, false], [[], [], [], []],
                        [Handle(false, 0, false), Handle(false, 0, false),
                         Handle(false, 0, false), Handle(false, 0, false)])

  /** The rings of all pairs, by lane. */
  class Bank {
    const rings: seq<PtyRing.Ring>

    ghost predicate Apart() {
      && |rings| == LANES
      && (forall j, k :: 0 <= j < k < LANES ==> rings[j] != rings[k] && rings[j].data != rings[k].data)
    }

    ghost function Frame(): (objects: set<object>) {
      (set k | 0 <= k < |rings| :: rings[k] as object) + (set k | 0 <= k < |rings| :: rings[k].data as object)
    }

    ghost predicate Valid()
      reads Frame()
    {
      Apart() && forall k {:trigger rings[k]} :: 0 <= k < LANES ==> rings[k].Valid()
    }

    /** What each ring has buffered. */
    ghost function Backlogs(): (s: seq<seq<Byte>>)
      requires Valid()
      reads Frame()
      ensures |s| == LANES
    {
      [rings[0].Backlog(), rings[1].Backlog(), rings[2].Backlog(), rings[3].Backlog()]
    }

    constructor ()
      ensures Valid() && fresh(Frame()) && Backlogs() == [[], [], [], []]
    {
      var a := new PtyRing.Ring();
      var b := new PtyRing.Ring();
      var c := new PtyRing.Ring();
      var d := new PtyRing.Ring();
      rings := [a, b, c, d];
      new;
      assert fresh(a) && fresh(b) && fresh(c) && fresh(d);
      assert forall k :: 0 <= k < |rings| ==> fresh(rings[k]) && fresh(rings[k].data);
    }

    method Clear(k: nat)
      requires Valid() && k < LANES
      modifies Frame()
      ensures Valid() && Backlogs() == old(Backlogs())[k := []]
    {
      rings[k].Clear();
      assert forall j :: 0 <= j < LANES && j != k ==> rings[j].Backlog() == old(rings[j].Backlog());
    }

    method Write(k: nat, src: seq<Byte>) returns (n: nat)
      requires Valid() && k < LANES
      modifies Frame()
      ensures Valid() && |old(Backlogs()[k])| <= PtyRing.RING
      ensures n == Min(|src|, PtyRing.RING - |old(Backlogs()[k])|)
      ensures Backlogs() == old(Backlogs())[k := old(Backlogs()[k]) + src[..n]]
    {
      n := rings[k].Write(src);
      assert forall j :: 0 <= j < LANES && j != k ==> rings[j].Backlog() == old(rings[j].Backlog());
    }

    method ClearPair(i: nat)
      requires Valid() && i < PAIRS
      modifies Frame()
      ensures Valid() && Backlogs() == old(Backlogs())[Lane(i, true) := []][Lane(i, false) := []]
    {
      Clear(Lane(i, true));
      Clear(Lane(i, false));
    }

    method Read(k: nat, count: nat) returns (out: seq<Byte>)
      requires Valid() && k < LANES
      modifies Frame()
      ensures Valid()
      ensures out == old(Backlogs()[k])[..Min(count, |old(Backlogs()[k])|)]
      ensures Backlogs() == old(Backlogs())[k := old(Backlogs()[k])[|out|..]]
    {
      out := rings[k].Read(count);
      assert forall j :: 0 <= j < LANES && j != k ==> rings[j].Backlog() == old(rings[j].Backlog());
    }
  }

  class Backend {
    var inUse: seq<bool>
    const bank: Bank
    var handles: seq<Handle>

    ghost predicate Valid()
      reads this, bank.Frame()
    {
      bank.Valid() && Inv(State())
    }

    /** The backlogs of the rings are the buffers of the pool. */
    ghost function State(): (p: Pool)
      requires bank.Valid()
      reads this, bank.Frame()
    {
      Pool(inUse, bank.Backlogs(), handles)
    }

    constructor Mount()
      ensures Valid() && State() == MOUNTED && fresh(bank.Frame())
    {
      bank := new Bank();
      inUse, handles := MOUNTED.inUse, MOUNTED.handles;
    }

    method SearchHandle() returns (h: nat)
      requires |handles| == HANDLES
      ensures h == FreeHandle(handles, 0)
    {
      h := 0;
      while h < HANDLES && handles[h].inUse
        invariant h <= HANDLES && FreeHandle(handles, 0) == FreeHandle(handles, h)
      {
        h := h + 1;
      }
    }

    method SearchPair() returns (i: nat)
      requires |inUse| == PAIRS
      ensures i == FreePair(inUse, 0)
    {
      i := 0;
      while i < PAIRS && inUse[i]
        invariant i <= PAIRS && FreePair(inUse, 0) == FreePair(inUse, i)
      {
        i := i + 1;
      }
    }

    method OpOpen(path: string) returns (rc: int, h: nat)
      requires Valid()
      modifies this, bank.Frame()
      ensures Valid() && (rc, h, State()) == Open(old(State()), path)
    {
      OpenInv(State(), path);
      h := SearchHandle();
      if h == HANDLES {
        return EMFILE, 0;
      }
      match Parse(path) {
        case Master =>
          var i := SearchPair();
          if i == PAIRS {
            return EMFILE, 0;
          }
          bank.ClearPair(i);
          inUse := inUse[i := true];
          handles := handles[h := Handle(true, i, true)];
        case Slave(i) =>
          if !inUse[i] {
            return ENOENT, 0;
          }
          handles := handles[h := Handle(true, i, false)];
        case Nowhere =>
          return ENOENT, 0;
      }
      rc := 0;
    }

    method OpClose(h: nat)
      requires Valid() && h < HANDLES
      modifies this
      ensures Valid() && State() == Close(old(State()), h)
    {
      CloseInv(State(), h);
      handles := handles[h := handles[h].(inUse := false)];
      ghost var q := State();
      var i, k := handles[h].pair, 0;
      while k < HANDLES && !(handles[k].inUse && handles[k].pair == i)
        invariant k <= HANDLES && forall j :: 0 <= j < k ==> !OpenOn(q, j, i)
      {
        k := k + 1;
      }
      if k < HANDLES {
        assert OpenOn(q, k, i);
      } else {
        assert !exists j :: 0 <= j < HANDLES && OpenOn(q, j, i);
        inUse := inUse[i := false];
      }
    }

    method OpWrite(h: nat, src: seq<Byte>) returns (rc: int)
      requires Valid() && h < HANDLES
      modifies this, bank.Frame()
      ensures Valid() && inUse == old(inUse) && handles == old(handles) && State() == Write(old(State()), h, src)
      ensures rc == if Usable(old(State()), h) then |Taken(old(State()), h, src)| else -9
    {
      hide Bank.Backlogs, Bank.Valid, Inv;
      TransferInv(State(), h, src, 0);
      PoolShape(State());
      var i := handles[h].pair;
      if !handles[h].inUse || !inUse[i] {
        return EBADF;
      }
      if handles[h].master {
        rc := bank.Write(Lane(i, true), src);
      } else {
        rc := bank.Write(Lane(i, false), src);
      }
    }

    method OpRead(h: nat, count: nat) returns (rc: int, out: seq<Byte>)
      requires Valid() && h < HANDLES
      modifies this, bank.Frame()
      ensures Valid() && inUse == old(inUse) && handles == old(handles) && State() == Read(old(State()), h, count)
      ensures if Usable(old(State()), h) then rc == |out| && out == Given(old(State()), h, count)
              else rc == -9 && out == []
    {
      hide Bank.Backlogs, Bank.Valid, Inv;
      TransferInv(State(), h, [], count);
      PoolShape(State());
      var i := handles[h].pair;
      if !handles[h].inUse || !inUse[i] {
        return EBADF, [];
      }
      if handles[h].master {
        out := bank.Read(Lane(i, false), count);
      } else {
        out := bank.Read(Lane(i, true), count);
      }
      rc := |out|;
    }

    /** One operation, with the logs its caller keeps from the results. */
    method Serve(op: Op, logs: seq<Talk>) returns (r: seq<Talk>)
      requires Valid() && Addressed(op) && |logs| == PAIRS
      modifies this, bank.Frame()
      ensures Valid() && State() == Step(old(State()), op) && r == Told(old(State()), logs, op)
    {
      r := logs;
      match op {
        case OpOpen(path) =>
          var rc, h := OpOpen(path);
          if rc == 0 && handles[h].master {
            r := logs[handles[h].pair := Talk(NONE, NONE)];
          }
        case OpClose(h) =>
          OpClose(h);
        case OpWrite(h, src) =>
          var rc := OpWrite(h, src);
          if rc >= 0 {
            var i := handles[h].pair;
            r := logs[i := Heard(logs[i], handles[h].master, src[..rc])];
          }
        case OpRead(h, count) =>
          var rc, out := OpRead(h, count);
          if rc >= 0 {
            var i := handles[h].pair;
            r := logs[i := Passed(logs[i], handles[h].master, out)];
          }
      }
    }

    /** A whole run over the rings: each way of each pair, accepted = returned + backlog. */
    method Session(ops: seq<Op>, logs: seq<Talk>) returns (r: seq<Talk>)
      requires Valid() && |logs| == PAIRS && Balanced(bank.Backlogs(), logs)
      requires forall i :: 0 <= i < |ops| ==> Addressed(ops[i])
      modifies this, bank.Frame()
      ensures Valid() && State() == Run(old(State()), ops) && r == Logs(old(State()), logs, ops)
      ensures Balanced(bank.Backlogs(), r)
    {
      hide Step, Told, Inv, Balanced, Run, Logs, Bank.Backlogs, Bank.Valid;
      r := logs;
      ghost var p := State();
      RunUnfolds(p, logs, ops, 0);
      for n := 0 to |ops|
        invariant Valid() && State() == Run(p, ops[..n]) && r == Logs(p, logs, ops[..n])
      {
        RunUnfolds(p, logs, ops, n + 1);
        r := Serve(ops[n], r);
      }
      assert ops[..|ops|] == ops;
      StreamsAndLifetimes(p, logs, ops);
    }
  }
}
