/** Machine integers and byte strings shared by the models. */
module Machine {
  const TWO16: nat := 0x1_0000
  const TWO32: nat := 0x1_0000_0000
  const TWO64: nat := 0x1_0000_0000_0000_0000

  type Byte = x: int | 0 <= x < 256
  type U16 = x: int | 0 <= x < 0x1_0000
  type U32 = x: int | 0 <= x < 0x1_0000_0000
  type U64 = x: int | 0 <= x < 0x1_0000_0000_0000_0000

  function Min(a: int, b: int): int {
    if a < b then a else b
  }

  /** `n` zero bytes, as left by memset. */
  function Zeros(n: nat): (z: seq<Byte>)
    ensures |z| == n
    ensures forall i :: 0 <= i < n ==> z[i] == 0
  {
    seq(n, _ => 0)
  }

  /** A positional write of `src` at `off` inside `buf`: bytes outside keep their value. */
  function Splice(buf: seq<Byte>, off: nat, src: seq<Byte>): (r: seq<Byte>)
    requires off + |src| <= |buf|
    ensures |r| == |buf|
    ensures r[off..off + |src|] == src
    ensures forall i :: 0 <= i < |buf| && !(off <= i < off + |src|) ==> r[i] == buf[i]
  {
    buf[..off] + src + buf[off + |src|..]
  }
}

/** Facts about division by a variable. */
module Arithmetic {
  lemma MulAtLeast(k: int, m: nat)
    ensures k >= 1 ==> k * m >= m
    ensures k <= -1 ==> k * m + m <= 0
  {
    if k >= 1 {
      assert (k - 1) * m >= 0;
    } else if k <= -1 {
      assert (-k - 1) * m >= 0;
    }
  }

  lemma DivModUnique(x: int, m: nat, q: int, r: int)
    requires 0 <= r < m && x == q * m + r
    ensures x / m == q && x % m == r
  {
    var k, r' := x / m - q, x % m;
    assert k * m == r - r' by {
      assert x / m * m + r' == x;
      assert k * m == x / m * m - q * m;
    }
    MulAtLeast(k, m);
  }

  lemma DivMonotone(a: nat, b: nat, m: nat)
    requires 0 < m && a <= b
    ensures a / m <= b / m
  {
    var k := a / m - b / m;
    assert k * m == a / m * m - b / m * m;
    MulAtLeast(k, m);
  }

  lemma MulMono(a: int, b: int, c: nat)
    requires a <= b
    ensures a * c <= b * c
  {
    assert (b - a) * c >= 0;
  }

  lemma MulCancel(a: int, b: int, c: nat)
    requires c > 0 && a * c <= b * c
    ensures a <= b
  {
    assert (a - b) * c == a * c - b * c;
    MulAtLeast(a - b, c);
  }

  lemma DivBounds(x: nat, m: nat)
    requires m > 0
    ensures x / m * m <= x < x / m * m + m
  {
  }

  lemma FloorAtLeast(q: int, x: nat, m: nat)
    requires m > 0 && q * m <= x
    ensures q <= x / m
  {
    MulAtLeast(q - x / m, m);
    assert (q - x / m) * m == q * m - x / m * m;
  }

  lemma FloorBelow(q: nat, x: nat, m: nat)
    requires m > 0 && x < q * m
    ensures x / m < q
  {
    if x / m >= q {
      MulMono(q, x / m, m);
    }
  }

  lemma DivAdd(a: nat, b: nat, m: nat)
    requires m > 0
    ensures (a * m + b) / m == a + b / m
  {
    assert a * m + b == (a + b / m) * m + b % m;
    DivModUnique(a * m + b, m, a + b / m, b % m);
  }
}

/** Little-endian integers, as memcpy of a C integer lays them out on x86-64. */
module LittleEndian {
  import opened Machine

  /** 256 to the power k. */
  function Pow256(k: nat): (r: nat)
    ensures r > 0
  {
    if k == 0 then 1 else 256 * Pow256(k - 1)
  }

  /** The k low-order bytes of x, least significant first. */
  function Encode(x: nat, k: nat): (s: seq<Byte>)
    ensures |s| == k
    decreases k
  {
    if k == 0 then [] else [x % 256] + Encode(x / 256, k - 1)
  }

  function Decode(s: seq<Byte>): (x: nat)
    ensures x < Pow256(|s|)
  {
    if s == [] then 0 else s[0] + 256 * Decode(s[1..])
  }

  /** Writing an integer and reading it back loses nothing when it fits the width. */
  lemma {:induction false} DecodeEncode(x: nat, k: nat)
    requires x < Pow256(k)
    ensures Decode(Encode(x, k)) == x
  {
    if k > 0 {
      assert x / 256 < Pow256(k - 1);
      DecodeEncode(x / 256, k - 1);
      assert Encode(x, k)[1..] == Encode(x / 256, k - 1);
    }
  }

  /** Reading k bytes as an integer and writing it back reproduces the bytes. */
  lemma {:induction false} EncodeDecode(s: seq<Byte>)
    ensures Encode(Decode(s), |s|) == s
  {
    if s != [] {
      var d := Decode(s[1..]);
      assert (s[0] + 256 * d) % 256 == s[0] && (s[0] + 256 * d) / 256 == d;
      EncodeDecode(s[1..]);
    }
  }

  lemma Widths()
    ensures Pow256(2) == TWO16 && Pow256(4) == TWO32 && Pow256(8) == TWO64
  {
    assert Pow256(1) == 256 && Pow256(2) == 0x1_0000 && Pow256(3) == 0x100_0000;
    assert Pow256(4) == TWO32 && Pow256(5) == 0x100_0000_0000 && Pow256(6) == 0x1_0000_0000_0000;
  }
}
