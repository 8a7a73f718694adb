/**
 Where the bytes of an unbounded stream live in a ring whose cursors are free-running
 machine integers.  Stream position p sits in cell (p mod range) mod cap, where range is
 the cursor range (2^32 or 2^64) and cap the number of cells.  When cap does not divide
 range the map jumps each time the cursor wraps, so a window of positions may reuse a
 cell although it is no longer than the ring.  `Safe` says exactly when it does not.
 */
module RingWindow {
  import opened Machine
  import opened Arithmetic

  function Cell(p: nat, range: nat, cap: nat): (c: nat)
    requires 0 < cap <= range
    ensures c < cap
  {
    (p % range) % cap
  }

  /** Does [lo, end) cross a multiple of range, that is a cursor wrap? */
  predicate Straddles(lo: nat, end: nat, range: nat)
    requires 0 < range
  {
    lo < end && lo / range != (end - 1) / range
  }

  /** No position of [lo, end) shares its cell with another one of the window. */
  predicate Safe(lo: nat, end: nat, range: nat, cap: nat)
    requires 0 < cap <= range
  {
    && end - lo <= cap
    && (Straddles(lo, end, range) && range % cap != 0 ==> end - lo <= range % cap)
  }

  /** Position p has not been overwritten by any later position below end. */
  ghost predicate Latest(p: nat, end: nat, range: nat, cap: nat)
    requires 0 < cap <= range
  {
    forall q: nat :: p < q < end ==> Cell(q, range, cap) != Cell(p, range, cap)
  }

  /** Every cell holds the byte of the last position stored in it. */
  ghost predicate Fresh(data: seq<Byte>, hist: seq<Byte>, range: nat, cap: nat)
    requires 0 < cap <= range
    requires |data| == cap
  {
    forall p: nat {:trigger Latest(p, |hist|, range, cap)} ::
      p < |hist| && Latest(p, |hist|, range, cap) ==> data[Cell(p, range, cap)] == hist[p]
  }

  // ---- arithmetic -------------------------------------------------------------------

  lemma ModDifference(x: nat, d: nat, m: nat)
    requires 0 < d < m
    ensures (x + d) % m != x % m
  {
    var q, r := x / m, x % m;
    if r + d < m {
      DivModUnique(x + d, m, q, r + d);
    } else {
      DivModUnique(x + d, m, q + 1, r + d - m);
    }
  }

  lemma ModShift(x: nat, d: nat, range: nat, cap: nat)
    requires 0 < cap <= range && 0 < d < cap && x < range <= x + d
    ensures (x + d - range) % cap == x % cap <==> d == range % cap
  {
    var k, res := range / cap, range % cap;
    var q, r := x / cap, x % cap;
    var y := x + d - range;
    assert y == (q - k) * cap + (r + d - res);
    if r + d - res < 0 {
      DivModUnique(y, cap, q - k - 1, r + d - res + cap);
    } else if r + d - res < cap {
      DivModUnique(y, cap, q - k, r + d - res);
    } else {
      DivModUnique(y, cap, q - k + 1, r + d - res - cap);
    }
  }

  /** Two positions less than cap apart share a cell exactly when a cursor wrap lies between
      them and their distance is the remainder of range by cap. */
  lemma Collision(p: nat, q: nat, range: nat, cap: nat)
    requires 0 < cap <= range && p < q < p + cap
    ensures Cell(p, range, cap) == Cell(q, range, cap) <==> (p / range != q / range && q - p == range % cap)
  {
    var e, x, d := p / range, p % range, q - p;
    if x + d < range {
      DivModUnique(q, range, e, x + d);
      ModDifference(x, d, cap);
    } else {
      DivModUnique(q, range, e + 1, x + d - range);
      ModShift(x, d, range, cap);
    }
  }

  // ---- windows ----------------------------------------------------------------------

  lemma SafeWindowIntact(lo: nat, end: nat, range: nat, cap: nat)
    requires 0 < cap <= range && lo <= end && Safe(lo, end, range, cap)
    ensures forall p: nat :: lo <= p < end ==> Latest(p, end, range, cap)
  {
    forall p: nat, q: nat | lo <= p < q < end
      ensures Cell(q, range, cap) != Cell(p, range, cap)
    {
      Collision(p, q, range, cap);
      DivMonotone(lo, p, range);
      DivMonotone(p, q, range);
      DivMonotone(q, end - 1, range);
    }
  }

  lemma SafeShrinks(lo: nat, lo': nat, end: nat, range: nat, cap: nat)
    requires 0 < cap <= range && lo <= lo' <= end && Safe(lo, end, range, cap)
    ensures Safe(lo', end, range, cap)
  {
    DivMonotone(lo, lo', range);
    if lo' < end {
      DivMonotone(lo', end - 1, range);
    }
  }

  /** The first position of an unsafe window that a later one overwrites. */
  lemma UnsafeWindowLoses(lo: nat, end: nat, range: nat, cap: nat) returns (p: nat)
    requires 0 < cap <= range && lo <= end && end - lo <= cap
    requires !Safe(lo, end, range, cap)
    ensures lo <= p && p + range % cap < end
    ensures 0 < range % cap && Cell(p, range, cap) == Cell(p + range % cap, range, cap)
    ensures !Latest(p, end, range, cap)
  {
    var res := range % cap;
    var e := lo / range;
    var b := (e + 1) * range;
    assert b == e * range + range;
    assert lo == e * range + lo % range;
    DivMonotone(lo, end - 1, range);
    if end - 1 < b {
      DivModUnique(end - 1, range, e, end - 1 - e * range);
      assert false;
    }
    p := if lo + res >= b then lo else b - res;
    DivModUnique(p, range, e, p - e * range);
    DivModUnique(p + res, range, e + 1, p + res - b);
    Collision(p, p + res, range, cap);
  }

  /** All unread bytes are still in the ring if and only if the window is safe. */
  lemma WindowIntactIffSafe(lo: nat, end: nat, range: nat, cap: nat)
    requires 0 < cap <= range && lo <= end && end - lo <= cap
    ensures Safe(lo, end, range, cap) <==> (forall p: nat :: lo <= p < end ==> Latest(p, end, range, cap))
  {
    if Safe(lo, end, range, cap) {
      SafeWindowIntact(lo, end, range, cap);
    } else {
      var p := UnsafeWindowLoses(lo, end, range, cap);
    }
  }

  /** Storing the next byte of the stream keeps every cell up to date, whatever it overwrites. */
  lemma StoreKeepsFresh(data: seq<Byte>, hist: seq<Byte>, b: Byte, range: nat, cap: nat)
    requires 0 < cap <= range && |data| == cap
    requires Fresh(data, hist, range, cap)
    ensures Fresh(data[Cell(|hist|, range, cap) := b], hist + [b], range, cap)
  {
    var data' := data[Cell(|hist|, range, cap) := b];
    var hist' := hist + [b];
    forall p: nat | p < |hist'| && Latest(p, |hist'|, range, cap)
      ensures data'[Cell(p, range, cap)] == hist'[p]
    {
      if p < |hist| {
        assert Cell(|hist|, range, cap) != Cell(p, range, cap);
        assert Latest(p, |hist|, range, cap);
      }
    }
  }
}
