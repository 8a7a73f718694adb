/**
 Length-prefixed, connection-tagged frames over the byte channel
 (include/sotnet/bytepipe_frame.h).  A frame is an 8-byte header (two 16-bit fields and a
 32-bit length, little-endian, no padding) followed by the payload.
 */
module BytePipeFrame {
  import opened Machine
  import opened RingWindow
  import opened BytePipe

  const HDR: nat := 8

  datatype RawFrame = Frame(conn: U16, port: U16, payload: seq<Byte>)

  /** Payload lengths for which header plus payload is still a 32-bit count. */
  type Frame = f: RawFrame | HDR + |f.payload| < TWO32 witness Frame(0, 0, [])

  function Header(f: Frame): (h: seq<Byte>)
    ensures |h| == HDR
  {
    var lo, hi := |f.payload| % 0x1_0000, |f.payload| / 0x1_0000;
    [f.conn % 256, f.conn / 256, f.port % 256, f.port / 256, lo % 256, lo / 256, hi % 256, hi / 256]
  }

  function EncodeFrame(f: Frame): (s: seq<Byte>)
    ensures |s| == HDR + |f.payload|
  {
    Header(f) + f.payload
  }

  /** A little-endian 16-bit field. */
  function Int16(lo: int, hi: int): (n: int) {
    lo + 256 * hi
  }

  /** The frame a header announces, once its payload is known. */
  function WithHeader(h: seq<Byte>, payload: seq<Byte>): (f: RawFrame)
    requires |h| == HDR
  {
    Frame(Int16(h[0], h[1]), Int16(h[2], h[3]), payload)
  }

  function HeaderLen(h: seq<Byte>): (n: U32)
    requires |h| == HDR
  {
    Int16(h[4], h[5]) + 0x1_0000 * Int16(h[6], h[7])
  }

  /** Outcome of bytepipe_pull_frame: the private cursor left behind and the frame, if any. */
  datatype Outcome = Nothing(rd: U32) | Dequeued(rd: U32, frame: RawFrame)

  function PullOutcome(data: seq<Byte>, w: U32, rd: U32, outMax: U32): (r: Outcome)
    requires |data| == CAP
    ensures r.Dequeued? ==> HDR + |r.frame.payload| <= CAP
  {
    var avail, s := Min(Avail(w, rd), CAP), Start(w, rd);
    if avail < HDR then Nothing(s)
    else
      var h := Take(data, s, HDR);
      var len := HeaderLen(h);
      if len > CAP || avail < HDR + len || len > outMax then Nothing(s)
      else Dequeued(Adv(s, HDR + len), WithHeader(h, Take(data, Adv(s, HDR), len)))
  }

  lemma StartMoves(w: U32, rd: U32)
    ensures Start(w, rd) == rd <==> Avail(w, rd) <= CAP
  {
    assert Avail(w, rd) == if w >= rd then w - rd else w - rd + TWO32;
    assert (w - CAP) % TWO32 == if w >= CAP then w - CAP else w - CAP + TWO32;
  }

  /** Returning no frame leaves the private cursor where it was if and only if the producer
      has not lapped the consumer; the header comment promises it always. */
  lemma NothingKeepsCursor(data: seq<Byte>, w: U32, rd: U32, outMax: U32)
    requires |data| == CAP
    requires PullOutcome(data, w, rd, outMax).Nothing?
    ensures PullOutcome(data, w, rd, outMax).rd == rd <==> Avail(w, rd) <= CAP
  {
    assert PullOutcome(data, w, rd, outMax).rd == Start(w, rd);
    StartMoves(w, rd);
  }

  /** The size test of a push, on 32-bit counts. */
  predicate Refuses(len: U32) {
    (HDR + len) % TWO32 > CAP
  }

  /** The test refuses exactly the frames that do not fit if and only if header plus payload is
      a 32-bit count; the eight lengths past that all pass. */
  lemma RefusesIff(len: U32)
    ensures (Refuses(len) <==> HDR + len > CAP) <==> len < TWO32 - HDR
    ensures len >= TWO32 - HDR ==> !Refuses(len)
  {
    assert len >= TWO32 - HDR ==> (HDR + len) % TWO32 == HDR + len - TWO32;
  }

  /** bytepipe_push_frame: stage header and payload, then one push; 0 when it would not fit. */
  method PushFrame(r: Ring, f: Frame) returns (n: nat)
    requires r.Valid()
    modifies r`w, r.data
    ensures r.Valid() && r.data == old(r.data)
    ensures HDR + |f.payload| > CAP ==> n == 0 && r.w == old(r.w) && r.data[..] == old(r.data[..])
    ensures HDR + |f.payload| <= CAP ==>
              && n == HDR + |f.payload|
              && r.data[..] == Put(old(r.data[..]), old(r.w), EncodeFrame(f))
              && r.w == Adv(old(r.w), n)
  {
    RefusesIff(|f.payload|);
    if Refuses(|f.payload|) {
      return 0;
    }
    var stage := Header(f);
    stage := stage + f.payload;
    n := r.Push(stage);
    assert stage[..n] == EncodeFrame(f);
  }

  /** bytepipe_pull_frame: copy header and payload, move the cursor only past a whole frame. */
  method PullFrame(r: Ring, rd: U32, outMax: U32) returns (o: Outcome)
    requires r.Valid()
    ensures o == PullOutcome(r.data[..], r.w, rd, outMax)
  {
    var avail := (r.w - rd) % TWO32;
    var rd' := rd;
    if avail > CAP {
      rd' := (r.w - CAP) % TWO32;
      avail := CAP;
    }
    if avail < HDR {
      return Nothing(rd');
    }
    var h := CopyOut(r, rd', HDR);
    var len := HeaderLen(h);
    if len > CAP || avail < HDR + len || len > outMax {
      return Nothing(rd');
    }
    var payload := CopyOut(r, Adv(rd', HDR), len);
    o := Dequeued(Adv(rd', HDR + len), WithHeader(h, payload));
  }

  method CopyOut(r: Ring, from: U32, n: nat) returns (s: seq<Byte>)
    requires r.Valid()
    ensures s == Take(r.data[..], from, n)
  {
    s := [];
    while |s| < n
      invariant |s| <= n
      invariant s == Take(r.data[..], from, |s|)
    {
      s := s + [r.data[At(Adv(from, |s|))]];
    }
  }

  // ---- runs of sends and receives ---------------------------------------------------

  /** The byte stream of a frame sequence. */
  function Flatten(fs: seq<Frame>): (s: seq<Byte>) {
    if fs == [] then [] else Flatten(fs[..|fs| - 1]) + EncodeFrame(fs[|fs| - 1])
  }

  /** Frame k follows the first k frames in the stream of all of them. */
  lemma {:induction false} FrameInStream(fs: seq<Frame>, k: nat)
    requires k < |fs|
    ensures Flatten(fs[..k + 1]) == Flatten(fs[..k]) + EncodeFrame(fs[k])
    ensures Flatten(fs[..k + 1]) <= Flatten(fs)
  {
    assert fs[..k + 1][..k] == fs[..k];
    if k == |fs| - 1 {
      assert fs[..k + 1] == fs;
    } else {
      var init := fs[..|fs| - 1];
      FrameInStream(init, k);
      assert init[..k + 1] == fs[..k + 1];
    }
  }

  /** `sent` and `got` are history: frames accepted by the sender, frames delivered. */
  datatype Link = Link(data: seq<Byte>, w: U32, rd: U32, sent: seq<Frame>, got: seq<Frame>)

  datatype Op = Send(frame: Frame) | Receive(outMax: U32)

  predicate Fits(f: Frame) {
    HDR + |f.payload| <= CAP
  }

  function Step(l: Link, op: Op): (l': Link)
    requires |l.data| == CAP
    ensures |l'.data| == CAP
  {
    match op
    case Send(f) =>
      if !Fits(f) then l
      else l.(data := Put(l.data, l.w, EncodeFrame(f)), w := Adv(l.w, HDR + |f.payload|), sent := l.sent + [f])
    case Receive(outMax) =>
      match PullOutcome(l.data, l.w, l.rd, outMax)
      case Nothing(rd) => l.(rd := rd)
      case Dequeued(rd, f) => l.(rd := rd, got := l.got + [f])
  }

  function Run(l: Link, ops: seq<Op>): (l': Link)
    requires |l.data| == CAP
    ensures |l'.data| == CAP
    decreases |ops|
  {
    if ops == [] then l else Run(Step(l, ops[0]), ops[1..])
  }

  /** A frame is sent only while the unread bytes, its own included, form a safe window. */
  predicate Paced(l: Link, ops: seq<Op>)
    requires |l.data| == CAP
    decreases |ops|
  {
    ops == [] ||
    (&& (ops[0].Send? && Fits(ops[0].frame) ==>
           Safe(|Flatten(l.got)|, |Flatten(l.sent)| + HDR + |ops[0].frame.payload|, TWO32, CAP))
     && Paced(Step(l, ops[0]), ops[1..]))
  }

  ghost predicate Inv(l: Link) {
    && Carries(l.data, l.w, Flatten(l.sent))
    && l.got <= l.sent
    && |Flatten(l.got)| <= |Flatten(l.sent)|
    && l.rd == Cur(|Flatten(l.got)|)
    && (forall f :: f in l.sent ==> Fits(f))
    && Safe(|Flatten(l.got)|, |Flatten(l.sent)|, TWO32, CAP)
  }

  lemma HeaderRoundTrip(f: Frame)
    ensures HeaderLen(Header(f)) == |f.payload| && WithHeader(Header(f), f.payload) == f
  {
  }

  lemma SendInv(l: Link, f: Frame)
    requires Inv(l)
    requires Fits(f) ==> Safe(|Flatten(l.got)|, |Flatten(l.sent)| + HDR + |f.payload|, TWO32, CAP)
    ensures Inv(Step(l, Send(f)))
  {
    if Fits(f) {
      PutExtends(l.data, l.w, Flatten(l.sent), EncodeFrame(f));
      assert (l.sent + [f])[..|l.sent|] == l.sent;
    }
  }

  lemma HeadBytes(data: seq<Byte>, w: U32, hist: seq<Byte>, r: nat, f: Frame)
    requires Carries(data, w, hist)
    requires r + HDR + |f.payload| <= |hist| && Safe(r, |hist|, TWO32, CAP)
    requires hist[r..r + HDR + |f.payload|] == EncodeFrame(f)
    ensures Take(data, Cur(r), HDR) == Header(f)
    ensures Take(data, Adv(Cur(r), HDR), |f.payload|) == f.payload
  {
    var e, n := EncodeFrame(f), |f.payload|;
    assert hist[r..r + HDR] == e[..HDR] && hist[r + HDR..r + HDR + n] == e[HDR..];
    TakeReads(data, w, hist, r, HDR);
    AtWrap(r, Cur(r), HDR);
    SafeShrinks(r, r + HDR, |hist|, TWO32, CAP);
    TakeReads(data, w, hist, r + HDR, n);
  }

  /** A safe backlog that starts with a whole frame: that frame is dequeued when it fits the
      caller's buffer, and the cursor stays put when it does not. */
  lemma PullHead(data: seq<Byte>, w: U32, hist: seq<Byte>, r: nat, f: Frame, outMax: U32)
    requires Carries(data, w, hist) && Fits(f)
    requires r + HDR + |f.payload| <= |hist| && Safe(r, |hist|, TWO32, CAP)
    requires hist[r..r + HDR + |f.payload|] == EncodeFrame(f)
    ensures PullOutcome(data, w, Cur(r), outMax) ==
            if |f.payload| <= outMax then Dequeued(Adv(Cur(r), HDR + |f.payload|), f)
            else Nothing(Cur(r))
  {
    assert Avail(w, Cur(r)) == |hist| - r by { CursorLag(|hist|, r); }
    HeadBytes(data, w, hist, r, f);
    HeaderRoundTrip(f);
  }

  /** The link after its first undelivered frame has been dequeued. */
  function Delivered(l: Link): (l': Link)
    requires l.got < l.sent
  {
    var f := l.sent[|l.got|];
    l.(rd := Adv(l.rd, HDR + |f.payload|), got := l.got + [f])
  }

  lemma DeliveredInv(l: Link)
    requires Inv(l) && l.got < l.sent
    ensures Inv(Delivered(l))
  {
    hide Carries, Safe, Cur, Adv, EncodeFrame;
    var k, r := |l.got|, |Flatten(l.got)|;
    var n := HDR + |l.sent[k].payload|;
    FrameInStream(l.sent, k);
    assert l.sent[..k] == l.got && l.sent[..k + 1] == l.got + [l.sent[k]];
    AtWrap(r, l.rd, n);
    SafeShrinks(r, r + n, |Flatten(l.sent)|, TWO32, CAP);
  }

  lemma PullNothing(data: seq<Byte>, w: U32, rd: U32, outMax: U32)
    requires |data| == CAP && Avail(w, rd) == 0
    ensures PullOutcome(data, w, rd, outMax) == Nothing(rd)
  {
  }

  /** With a safe backlog a receive delivers exactly the first undelivered frame, and it does
      so if and only if there is one and it fits the caller's buffer. */
  lemma ReceiveOutcome(l: Link, outMax: U32)
    requires Inv(l)
    ensures Step(l, Receive(outMax)) ==
            if l.got < l.sent && |l.sent[|l.got|].payload| <= outMax then Delivered(l) else l
  {
    hide PullOutcome, Safe, Flatten, EncodeFrame, Fresh;
    var k, hist, r := |l.got|, Flatten(l.sent), |Flatten(l.got)|;
    if l.got == l.sent {
      CursorLag(|hist|, r);
      PullNothing(l.data, l.w, l.rd, outMax);
    } else {
      FrameInStream(l.sent, k);
      assert l.sent[..k] == l.got;
      PullHead(l.data, l.w, hist, r, l.sent[k], outMax);
    }
  }

  lemma ReceiveInv(l: Link, outMax: U32)
    requires Inv(l)
    ensures Inv(Step(l, Receive(outMax)))
  {
    ReceiveOutcome(l, outMax);
    if l.got < l.sent {
      DeliveredInv(l);
    }
  }

  lemma {:induction false} RunInv(l: Link, ops: seq<Op>)
    requires Inv(l) && Paced(l, ops)
    ensures Inv(Run(l, ops))
    decreases |ops|
  {
    if ops != [] {
      match ops[0]
      case Send(f) => SendInv(l, f); RunInv(Step(l, ops[0]), ops[1..]);
      case Receive(outMax) => ReceiveInv(l, outMax); RunInv(Step(l, ops[0]), ops[1..]);
    }
  }

  predicate Initial(l: Link) {
    |l.data| == CAP && l.w == 0 && l.rd == 0 && l.sent == [] && l.got == []
  }

  /** In every paced run the frames delivered are, in order and field by field, a prefix of
      the frames accepted; and the first undelivered one is delivered by the next receive
      whose buffer is large enough. */
  lemma FramesDeliveredInOrder(l: Link, ops: seq<Op>, outMax: U32)
    requires Initial(l) && Paced(l, ops)
    ensures Run(l, ops).got <= Run(l, ops).sent
    ensures var f := Run(l, ops);
            f.got < f.sent && |f.sent[|f.got|].payload| <= outMax ==>
              Step(f, Receive(outMax)).got == f.got + [f.sent[|f.got|]]
  {
    RunInv(l, ops);
    ReceiveOutcome(Run(l, ops), outMax);
  }

  // ---- the link as a queue of frames ------------------------------------------------

  /** The frames accepted and the frames delivered, kept from the operations alone. */
  datatype Frames = Frames(sent: seq<Frame>, got: seq<Frame>)

  function Served(q: Frames, ops: seq<Op>): (r: Frames)
    decreases |ops|
  {
    if ops == [] then q else Served(Serve(q, ops[0]), ops[1..])
  }

  /** A frame of at most 65464 bytes is accepted; a receive gives the first accepted frame that
      was not delivered yet, if there is one and it fits. */
  function Serve(q: Frames, op: Op): (r: Frames) {
    match op
    case Send(f) => if |f.payload| <= 65464 then q.(sent := q.sent + [f]) else q
    case Receive(outMax) =>
      if |q.got| < |q.sent| && |q.sent[|q.got|].payload| <= outMax then q.(got := q.got + [q.sent[|q.got|]]) else q
  }

  /** Every paced run over the ring accepts and delivers what that queue does. */
  lemma LinkIsQueue(l: Link, ops: seq<Op>)
    requires Initial(l) && Paced(l, ops)
    ensures var f := Run(l, ops); Frames(f.sent, f.got) == Served(Frames([], []), ops)
  {
    RunIsQueue(l, ops);
  }

  lemma {:induction false} RunIsQueue(l: Link, ops: seq<Op>)
    requires Inv(l) && Paced(l, ops)
    ensures var f := Run(l, ops); Frames(f.sent, f.got) == Served(Frames(l.sent, l.got), ops)
    decreases |ops|
  {
    hide Inv, Step, Safe;
    if ops != [] {
      StepIsQueue(l, ops[0]);
      match ops[0]
      case Send(f) => SendInv(l, f); RunIsQueue(Step(l, ops[0]), ops[1..]);
      case Receive(outMax) => ReceiveInv(l, outMax); RunIsQueue(Step(l, ops[0]), ops[1..]);
    }
  }

  lemma StepIsQueue(l: Link, op: Op)
    requires Inv(l)
    ensures |l.data| == CAP && var m := Step(l, op); Frames(m.sent, m.got) == Serve(Frames(l.sent, l.got), op)
  {
    if op.Receive? {
      ReceiveOutcome(l, op.outMax);
      assert l.got < l.sent <==> |l.got| < |l.sent|;
    }
  }
}
