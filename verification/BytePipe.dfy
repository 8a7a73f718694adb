/**
 The cross-address-space byte channel: a single-producer single-consumer ring with 65472
 cells and 32-bit free-running cursors (include/sotnet/bytepipe.h).
 */
module BytePipe {
  import opened Machine
  import opened RingWindow

  const CAP: nat := 65472

  /** The cursor value of stream position p. */
  function Cur(p: nat): (c: U32) {
    p % TWO32
  }

  /** A cursor advanced by n bytes. */
  function Adv(c: U32, n: nat): (c': U32) {
    (c + n) % TWO32
  }

  /** Cell of the byte a cursor value points at. */
  function At(p: nat): (c: nat)
    ensures c < CAP
  {
    Cell(p, TWO32, CAP)
  }

  /** What the push loop leaves in the ring: `src` stored from cursor `w` on. */
  function Put(data: seq<Byte>, w: U32, src: seq<Byte>): (r: seq<Byte>)
    requires |data| == CAP
    ensures |r| == CAP
  {
    if src == [] then data
    else Put(data, w, src[..|src| - 1])[At(Adv(w, |src| - 1)) := src[|src| - 1]]
  }

  /** What the pull loop copies out: n bytes from cursor `rd` on. */
  function Take(data: seq<Byte>, rd: U32, n: nat): (r: seq<Byte>)
    requires |data| == CAP
    ensures |r| == n
    decreases n
  {
    if n == 0 then [] else Take(data, rd, n - 1) + [data[At(Adv(rd, n - 1))]]
  }

  lemma {:induction false} TakeAt(data: seq<Byte>, rd: U32, n: nat, i: nat)
    requires |data| == CAP && i < n
    ensures Take(data, rd, n)[i] == data[At(Adv(rd, i))]
    decreases n
  {
    if i < n - 1 {
      TakeAt(data, rd, n - 1, i);
    }
  }

  /** Bytes published but not yet read, as the consumer computes them. */
  function Avail(w: U32, rd: U32): (n: U32) {
    (w - rd) % TWO32
  }

  /** The read cursor after the lap check. */
  function Start(w: U32, rd: U32): (s: U32) {
    if Avail(w, rd) > CAP then (w - CAP) % TWO32 else rd
  }

  function Count(w: U32, rd: U32, max: U32): (n: nat) {
    Min(Min(Avail(w, rd), CAP), max)
  }

  class Ring {
    var data: array<Byte>
    var w: U32

    ghost predicate Valid()
      reads this
    {
      data.Length == CAP
    }

    /** bytepipe_producer_init on a freshly mapped region. */
    constructor ()
      ensures Valid() && fresh(data) && w == 0
    {
      data := new Byte[CAP];
      w := 0;
    }

    /** bytepipe_push: append at most CAP bytes, then publish the cursor. */
    method Push(src: seq<Byte>) returns (n: nat)
      requires Valid() && |src| < TWO32
      modifies this`w, data
      ensures Valid() && data == old(data)
      ensures n == Min(|src|, CAP)
      ensures data[..] == Put(old(data[..]), old(w), src[..n])
      ensures w == Adv(old(w), n)
    {
      n := if |src| > CAP then CAP else |src|;
      var i := 0;
      while i < n
        invariant 0 <= i <= n && w == old(w) && data == old(data)
        invariant data[..] == Put(old(data[..]), w, src[..i])
      {
        data[At(Adv(w, i))] := src[i];
        i := i + 1;
        assert src[..i][..i - 1] == src[..i - 1];
      }
      w := Adv(w, n);
    }

    /** bytepipe_pull: drain up to `max` bytes past the private cursor `rd`. */
    method Pull(rd: U32, max: U32) returns (dst: seq<Byte>, rd': U32)
      requires Valid()
      ensures dst == Take(data[..], Start(w, rd), Count(w, rd, max))
      ensures rd' == Adv(Start(w, rd), |dst|)
    {
      var avail := (w - rd) % TWO32;
      rd' := rd;
      if avail > CAP {
        rd' := (w - CAP) % TWO32;
        avail := CAP;
      }
      var n := if avail < max then avail else max;
      dst := [];
      while |dst| < n
        invariant |dst| <= n
        invariant dst == Take(data[..], rd', |dst|)
      {
        dst := dst + [data[At(Adv(rd', |dst|))]];
      }
      rd' := Adv(rd', n);
    }
  }

  // ---- the ring against the unbounded stream ----------------------------------------

  /** `data` and `w` are what pushing the stream `hist` leaves behind. */
  ghost predicate Carries(data: seq<Byte>, w: U32, hist: seq<Byte>) {
    && |data| == CAP
    && w == Cur(|hist|)
    && Fresh(data, hist, TWO32, CAP)
  }

  lemma AtWrap(p: nat, w: U32, i: nat)
    requires w == Cur(p)
    ensures Adv(w, i) == Cur(p + i)
    ensures At(Adv(w, i)) == At(p + i)
  {
    assert Adv(w, i) == Cur(p + i) by { assert (p % TWO32 + i) % TWO32 == (p + i) % TWO32; }
    assert Cur(p + i) % TWO32 == (p + i) % TWO32;
  }

  lemma PutOne(data: seq<Byte>, w: U32, hist: seq<Byte>, b: Byte)
    requires Carries(data, w, hist)
    ensures Carries(data[At(w) := b], Adv(w, 1), hist + [b])
  {
    AtWrap(|hist|, w, 0);
    AtWrap(|hist|, w, 1);
    StoreKeepsFresh(data, hist, b, TWO32, CAP);
  }

  lemma NextCursor(w: U32, k: nat)
    ensures Adv(Adv(w, k), 1) == Adv(w, k + 1)
  {
  }

  /** Pushing extends the stream, with no condition on what gets overwritten. */
  lemma {:induction false} PutExtends(data: seq<Byte>, w: U32, hist: seq<Byte>, src: seq<Byte>)
    requires Carries(data, w, hist)
    ensures Carries(Put(data, w, src), Adv(w, |src|), hist + src)
  {
    if src == [] {
      assert hist + src == hist;
      assert Adv(w, |src|) == w;
    } else {
      var k := |src| - 1;
      var d, w', h := Put(data, w, src[..k]), Adv(w, k), hist + src[..k];
      PutExtends(data, w, hist, src[..k]);
      PutOne(d, w', h, src[k]);
      NextCursor(w, k);
      assert h + [src[k]] == hist + src;
      assert Put(data, w, src) == d[At(w') := src[k]];
      assert Adv(w', 1) == Adv(w, |src|);
    }
  }

  /** An unread byte stays readable while later ones, up to `end`, are being stored. */
  lemma UnreadReadable(data: seq<Byte>, hist: seq<Byte>, r: nat, p: nat, end: nat)
    requires |data| == CAP && Fresh(data, hist, TWO32, CAP)
    requires r <= p < |hist| <= end && Safe(r, end, TWO32, CAP)
    ensures data[At(p)] == hist[p]
  {
    SafeWindowIntact(r, end, TWO32, CAP);
    assert Latest(p, end, TWO32, CAP);
    assert Latest(p, |hist|, TWO32, CAP);
  }

  lemma {:induction false} TakeReads(data: seq<Byte>, w: U32, hist: seq<Byte>, r: nat, n: nat)
    requires Carries(data, w, hist)
    requires r + n <= |hist| && Safe(r, |hist|, TWO32, CAP)
    ensures Take(data, Cur(r), n) == hist[r..r + n]
    decreases n
  {
    if n > 0 {
      TakeReads(data, w, hist, r, n - 1);
      AtWrap(r, Cur(r), n - 1);
      UnreadReadable(data, hist, r, r + n - 1, |hist|);
      assert hist[r..r + n] == hist[r..r + n - 1] + [hist[r + n - 1]];
    }
  }

  lemma CursorLag(end: nat, r: nat)
    requires r <= end
    ensures Avail(Cur(end), Cur(r)) == (end - r) % TWO32
  {
  }

  lemma CursorBack(end: nat, d: nat)
    requires d <= end
    ensures (Cur(end) - d) % TWO32 == Cur(end - d)
  {
  }

  /** A consumer whose backlog is safe gets the next bytes of the stream, in order, and its
      cursor stays on the stream through any number of wraps. */
  lemma PullDelivers(data: seq<Byte>, w: U32, hist: seq<Byte>, r: nat, max: U32)
    requires Carries(data, w, hist)
    requires r <= |hist| && Safe(r, |hist|, TWO32, CAP)
    ensures Start(w, Cur(r)) == Cur(r)
    ensures var n := Min(|hist| - r, max);
            && Count(w, Cur(r), max) == n
            && Take(data, Start(w, Cur(r)), n) == hist[r..r + n]
  {
    assert Avail(w, Cur(r)) == |hist| - r by { CursorLag(|hist|, r); }
    TakeReads(data, w, hist, r, Min(|hist| - r, max));
  }

  /** A lapped consumer resumes on exactly the newest CAP bytes, provided those do not
      straddle a cursor wrap. */
  lemma LappedResumesOnNewest(data: seq<Byte>, w: U32, hist: seq<Byte>, r: nat, max: U32)
    requires Carries(data, w, hist)
    requires r <= |hist| && (|hist| - r) % TWO32 > CAP
    requires !Straddles(|hist| - CAP, |hist|, TWO32)
    ensures var n, newest := Min(CAP, max), |hist| - CAP;
            && Start(w, Cur(r)) == Cur(newest)
            && Count(w, Cur(r), max) == n
            && Take(data, Start(w, Cur(r)), n) == hist[newest..newest + n]
  {
    CursorLag(|hist|, r);
    CursorBack(|hist|, CAP);
    TakeReads(data, w, hist, |hist| - CAP, Min(CAP, max));
  }

  /** The ring after a producer that started from a zeroed region pushed `hist`. */
  function RingOf(hist: seq<Byte>): (d: seq<Byte>)
    ensures |d| == CAP
  {
    Put(Zeros(CAP), 0, hist)
  }

  lemma RingOfCarries(hist: seq<Byte>)
    ensures Carries(RingOf(hist), Cur(|hist|), hist)
  {
    PutExtends(Zeros(CAP), 0, [], hist);
    assert [] + hist == hist;
  }

  lemma LastEpochLatest(p: nat, q: nat, end: nat)
    requires p < q < end <= p + CAP && p / TWO32 != q / TWO32
    ensures Latest(q, end, TWO32, CAP)
  {
    forall x: nat | q < x < end
      ensures Cell(x, TWO32, CAP) != Cell(q, TWO32, CAP)
    {
      Collision(q, x, TWO32, CAP);
    }
  }

  /** A stream on which an unsafe backlog is delivered wrongly. */
  lemma UnsafeBacklogCorrupts(r: nat, end: nat) returns (hist: seq<Byte>)
    requires r <= end <= r + CAP && !Safe(r, end, TWO32, CAP)
    ensures |hist| == end
    ensures Take(RingOf(hist), Cur(r), end - r) != hist[r..]
  {
    var p := UnsafeWindowLoses(r, end, TWO32, CAP);
    var q := p + TWO32 % CAP;
    hist := Zeros(end)[q := 1];
    RingOfCarries(hist);
    AtWrap(r, Cur(r), p - r);
    LastEpochLatest(p, q, end);
    TakeAt(RingOf(hist), Cur(r), end - r, p - r);
    assert Take(RingOf(hist), Cur(r), end - r)[p - r] == 1;
    assert hist[r..][p - r] == 0;
  }

  /** For a backlog that fits the ring: every stream is delivered intact if and only if the
      backlog does not straddle a cursor wrap or is at most 2^32 mod 65472 = 4096 bytes. */
  lemma DeliveryIffSafe(r: nat, end: nat)
    requires r <= end <= r + CAP
    ensures (forall hist: seq<Byte> :: |hist| == end ==> Take(RingOf(hist), Cur(r), end - r) == hist[r..])
            <==> (Straddles(r, end, TWO32) ==> end - r <= 4096)
  {
    assert TWO32 % CAP == 4096;
    if Safe(r, end, TWO32, CAP) {
      forall hist: seq<Byte> | |hist| == end
        ensures Take(RingOf(hist), Cur(r), end - r) == hist[r..]
      {
        RingOfCarries(hist);
        TakeReads(RingOf(hist), Cur(end), hist, r, end - r);
      }
    } else {
      var hist := UnsafeBacklogCorrupts(r, end);
    }
  }
}
