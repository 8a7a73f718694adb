/**
 The render-stream codec (include/sotabi/wire.h): bytes packed into 64-bit message words at
 bit level, and the client's pull loop (src/sotabi/sotabi_client.c).
 */
module Wire {
  const CHUNK: nat := 512

  function Wide(x: bv8): (w: bv64) {
    x as bv64
  }

  function Or(a: bv64, b: bv64): (w: bv64) {
    a | b
  }

  /** Byte k of a word, moved into place: x << 8k. */
  function Place(x: bv8, k: nat): (w: bv64)
    requires k < 8
  {
    var v := x as bv64;
    match k
    case 0 => v
    case 1 => v << 8
    case 2 => v << 16
    case 3 => v << 24
    case 4 => v << 32
    case 5 => v << 40
    case 6 => v << 48
    case 7 => v << 56
  }

  /** w >> 8k. */
  function Shifted(w: bv64, k: nat): (v: bv64)
    requires k < 8
  {
    match k
    case 0 => w
    case 1 => w >> 8
    case 2 => w >> 16
    case 3 => w >> 24
    case 4 => w >> 32
    case 5 => w >> 40
    case 6 => w >> 48
    case 7 => w >> 56
  }

  function Low(w: bv64): (x: bv8) {
    (w & 0xff) as bv8
  }

  /** (w >> 8k) & 0xff. */
  function Bits(w: bv64, k: nat): (v: bv64)
    requires k < 8
  {
    Shifted(w, k) & 0xff
  }

  lemma ShiftOr(a: bv64, b: bv64, k: nat)
    requires k < 8
    ensures Bits(Or(a, b), k) == Or(Bits(a, k), Bits(b, k))
  {
    match k
    case 0 => assert (a | b) & 0xff == (a & 0xff) | (b & 0xff);
    case 1 => assert ((a | b) >> 8) & 0xff == ((a >> 8) & 0xff) | ((b >> 8) & 0xff);
    case 2 => assert ((a | b) >> 16) & 0xff == ((a >> 16) & 0xff) | ((b >> 16) & 0xff);
    case 3 => assert ((a | b) >> 24) & 0xff == ((a >> 24) & 0xff) | ((b >> 24) & 0xff);
    case 4 => assert ((a | b) >> 32) & 0xff == ((a >> 32) & 0xff) | ((b >> 32) & 0xff);
    case 5 => assert ((a | b) >> 40) & 0xff == ((a >> 40) & 0xff) | ((b >> 40) & 0xff);
    case 6 => assert ((a | b) >> 48) & 0xff == ((a >> 48) & 0xff) | ((b >> 48) & 0xff);
    case 7 => assert ((a | b) >> 56) & 0xff == ((a >> 56) & 0xff) | ((b >> 56) & 0xff);
  }

  lemma PlacedLow(x: bv8, i: nat, k: nat)
    requires i < 4 && k < 8
    ensures Shifted(Place(x, i), k) & 0xff == if i == k then Wide(x) else 0
  {
  }

  lemma PlacedHigh(x: bv8, i: nat, k: nat)
    requires 4 <= i < 8 && k < 8
    ensures Shifted(Place(x, i), k) & 0xff == if i == k then Wide(x) else 0
  {
  }

  lemma ShiftPlaced(x: bv8, i: nat, k: nat)
    requires i < 8 && k < 8
    ensures Bits(Place(x, i), k) == if i == k then Wide(x) else 0
  {
    hide Shifted, Place;
    if i < 4 {
      PlacedLow(x, i, k);
    } else {
      PlacedHigh(x, i, k);
    }
  }

  /** Up to eight bytes in one word, the first in the low-order bits. */
  function WordOf(bs: seq<bv8>): (w: bv64)
    requires |bs| <= 8
  {
    if bs == [] then 0 else Or(WordOf(bs[..|bs| - 1]), Place(bs[|bs| - 1], |bs| - 1))
  }

  function ByteOf(w: bv64, k: nat): (x: bv8)
    requires k < 8
  {
    Low(Shifted(w, k))
  }

  lemma OrZero(a: bv64, b: bv64)
    ensures (a == 0 ==> Or(a, b) == b) && (b == 0 ==> Or(a, b) == a)
  {
  }

  lemma WordSteps(s: seq<bv8>, b: nat)
    requires |s| <= 8
    ensures WordOf(s[..0]) == 0
    ensures b < |s| ==> WordOf(s[..b + 1]) == Or(WordOf(s[..b]), Place(s[b], b))
  {
    hide Place;
    assert b < |s| ==> s[..b + 1][..b] == s[..b];
  }

  lemma {:induction false} WordBits(bs: seq<bv8>, k: nat)
    requires |bs| <= 8 && k < 8
    ensures Bits(WordOf(bs), k) == if k < |bs| then Wide(bs[k]) else 0
    decreases |bs|
  {
    hide Place, Bits, WordOf, Or, Wide;
    WordSteps(bs, if bs == [] then 0 else |bs| - 1);
    if bs == [] {
      assert bs[..0] == bs;
      ZeroBits(k);
    } else {
      var n := |bs| - 1;
      assert bs[..n + 1] == bs;
      WordBits(bs[..n], k);
      ShiftOr(WordOf(bs[..n]), Place(bs[n], n), k);
      ShiftPlaced(bs[n], n, k);
      OrZero(Bits(WordOf(bs[..n]), k), Bits(Place(bs[n], n), k));
    }
  }

  lemma ZeroBits(k: nat)
    requires k < 8
    ensures Bits(0, k) == 0
  {
  }

  lemma WideZero()
    ensures Wide(0) == 0
  {
  }

  lemma LowByte(w: bv64, x: bv8)
    requires w & 0xff == Wide(x)
    ensures Low(w) == x
  {
  }

  /** The bytes of a packed word, and zero in the places past the end. */
  lemma WordBytes(bs: seq<bv8>, k: nat)
    requires |bs| <= 8 && k < 8
    ensures ByteOf(WordOf(bs), k) == if k < |bs| then bs[k] else 0
  {
    hide WordOf, Shifted, Low, Wide;
    WordBits(bs, k);
    WideZero();
    LowByte(Shifted(WordOf(bs), k), if k < |bs| then bs[k] else 0);
  }

  // ---- chunks -----------------------------------------------------------------------

  function WordCount(n: nat): (w: nat)
    ensures n <= 8 * w < n + 8
  {
    (n + 7) / 8
  }

  /** The bytes of word w of a chunk. */
  function Slice(bs: seq<bv8>, w: nat): (s: seq<bv8>)
    requires w < WordCount(|bs|)
    ensures |s| <= 8
  {
    if 8 * w + 8 <= |bs| then bs[8 * w..8 * w + 8] else bs[8 * w..]
  }

  function Pack(bs: seq<bv8>): (ws: seq<bv64>)
    ensures |ws| == WordCount(|bs|)
  {
    seq(WordCount(|bs|), w requires 0 <= w < WordCount(|bs|) => WordOf(Slice(bs, w)))
  }

  function Unpack(ws: seq<bv64>, n: nat): (bs: seq<bv8>)
    requires |ws| >= WordCount(n)
    ensures |bs| == n
  {
    seq(n, i requires 0 <= i < n => ByteOf(ws[i / 8], i % 8))
  }

  lemma SliceAt(bs: seq<bv8>, i: nat)
    requires i < |bs|
    ensures i / 8 < WordCount(|bs|) && i % 8 < |Slice(bs, i / 8)| && Slice(bs, i / 8)[i % 8] == bs[i]
  {
    assert i == 8 * (i / 8) + i % 8;
  }

  /** Unpacking what was packed gives the bytes back. */
  lemma UnpackPack(bs: seq<bv8>)
    ensures Unpack(Pack(bs), |bs|) == bs
  {
    hide ByteOf, WordOf, Slice, WordCount;
    forall i | 0 <= i < |bs|
      ensures Unpack(Pack(bs), |bs|)[i] == bs[i]
    {
      SliceAt(bs, i);
      WordBytes(Slice(bs, i / 8), i % 8);
    }
  }

  /** The chunk at an offset: at most 512 bytes, none past the end. */
  function ChunkAt(src: seq<bv8>, off: nat): (c: seq<bv8>)
    ensures |c| == (if off >= |src| then 0 else if |src| - off > 512 then 512 else |src| - off)
  {
    if off >= |src| then [] else if |src| - off > CHUNK then src[off..off + CHUNK] else src[off..]
  }

  /** sotabi_pack_chunk: its two loops. */
  method PackChunk(src: seq<bv8>, off: nat) returns (n: nat, words: seq<bv64>)
    ensures n == |ChunkAt(src, off)| && words == Pack(ChunkAt(src, off))
  {
    hide Place, WordOf, Slice, ChunkAt, WordCount;
    ghost var chunk := ChunkAt(src, off);
    n := if off >= |src| then 0 else if |src| - off > CHUNK then CHUNK else |src| - off;
    words := [];
    while |words| < WordCount(n)
      invariant |words| <= WordCount(n)
      invariant words == Pack(chunk)[..|words|]
    {
      var w := |words|;
      var v := PackWord(src, off, n, w);
      assert Pack(chunk)[w] == v;
      words := words + [v];
    }
  }

  /** The inner loop: byte b of the word comes from chunk byte 8w + b, if there is one. */
  method PackWord(src: seq<bv8>, off: nat, n: nat, w: nat) returns (v: bv64)
    requires n == |ChunkAt(src, off)| && w < WordCount(n)
    ensures v == WordOf(Slice(ChunkAt(src, off), w))
  {
    hide Place, WordOf, Or;
    ghost var s := Slice(ChunkAt(src, off), w);
    WordSteps(s, 0);
    v := 0;
    var b := 0;
    while b < 8
      invariant 0 <= b <= 8
      invariant v == WordOf(s[..if b < |s| then b else |s|])
    {
      var rel := w * 8 + b;
      assert rel < n <==> b < |s|;
      if rel < n {
        assert ChunkAt(src, off)[rel] == src[off + rel];
        assert s[b] == ChunkAt(src, off)[8 * w + b];
        WordSteps(s, b);
        v := Or(v, Place(src[off + rel], b));
      }
      b := b + 1;
    }
    assert s[..|s|] == s;
  }

  method UnpackChunk(words: seq<bv64>, n: nat) returns (dst: seq<bv8>)
    requires n <= CHUNK && |words| >= WordCount(n)
    ensures dst == Unpack(words, n)
  {
    hide ByteOf;
    dst := [];
    while |dst| < n
      invariant |dst| <= n && dst == Unpack(words, n)[..|dst|]
    {
      var i := |dst|;
      dst := dst + [ByteOf(words[i / 8], i % 8)];
    }
  }

  /** The client's loop: pull from offset 0, advance by the count, stop at 0.  It terminates
      with the rendered buffer, whatever its length. */
  method RenderStream(src: seq<bv8>) returns (out: seq<bv8>)
    ensures out == src
  {
    hide Pack, Unpack;
    out := [];
    while true
      invariant |out| <= |src| && out == src[..|out|]
      decreases |src| - |out|
    {
      var n, words := PackChunk(src, |out|);
      if n == 0 {
        break;
      }
      UnpackPack(ChunkAt(src, |out|));
      var chunk := UnpackChunk(words, n);
      out := out + chunk;
    }
  }
}
