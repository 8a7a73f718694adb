/**
 Frames over the byte channel with sender and receiver running concurrently: every byte of a
 frame stored and every byte of it loaded is a step of its own
 (include/sotnet/bytepipe_frame.h).
 */
module FrameInterleaving {
  import opened Machine
  import opened RingWindow
  import opened BytePipe
  import B = BytePipeInterleaving
  import F = BytePipeFrame

  /** The channel, the frame being pushed, and the receiver's buffer size; `sent`, `got` and
      `seen` are history: frames published, frames delivered, and how many had been published
      when the receive under way loaded the cursor. */
  datatype Wire = Wire(
    c: B.Chan, pending: seq<F.Frame>, outMax: U32,
    sent: seq<F.Frame>, got: seq<F.RawFrame>, seen: nat)

  datatype Step =
    | Send(frame: F.Frame)   // size test, stage header and payload, start the push
    | Store                  // store one byte
    | Publish                // publish the cursor
    | Receive(outMax: U32)   // load the cursor, lap check
    | Load                   // load one byte of the header or the payload
    | Finish                 // return the frame, or nothing

  /** The header is there and one of the three checks on it fails. */
  predicate Refused(w: Wire)
    requires |w.c.dst| >= F.HDR
  {
    var len := F.HeaderLen(w.c.dst[..F.HDR]);
    len > CAP || w.c.want < F.HDR + len || len > w.outMax
  }

  /** The receive goes on to load another byte. */
  predicate Wants(w: Wire) {
    if |w.c.dst| < F.HDR then w.c.want >= F.HDR
    else !Refused(w) && |w.c.dst| < F.HDR + F.HeaderLen(w.c.dst[..F.HDR])
  }

  predicate Enabled(w: Wire, s: Step) {
    match s
    case Send(_) => !w.c.pushing
    case Store => B.Enabled(w.c, B.PushByte)
    case Publish => B.Enabled(w.c, B.PushPublish)
    case Receive(_) => !w.c.pulling
    case Load => w.c.pulling && Wants(w)
    case Finish => w.c.pulling && !Wants(w)
  }

  /** A receive ends with a frame when it has loaded all of one. */
  predicate Complete(w: Wire) {
    |w.c.dst| >= F.HDR && !Refused(w)
  }

  function Next(w: Wire, s: Step): (w': Wire)
    requires |w.c.data| == CAP && Enabled(w, s)
    ensures |w'.c.data| == CAP
  {
    match s
    case Send(f) =>
      if F.Refuses(|f.payload|) then w else w.(c := B.Next(w.c, B.PushStart(F.EncodeFrame(f))), pending := [f])
    case Store => w.(c := B.Next(w.c, B.PushByte))
    case Publish => w.(c := B.Next(w.c, B.PushPublish), sent := w.sent + w.pending, pending := [])
    case Receive(outMax) => w.(c := B.Next(w.c, B.PullStart(TWO32 - 1)), outMax := outMax, seen := |w.sent|)
    case Load => w.(c := B.Next(w.c, B.PullByte))
    case Finish =>
      if Complete(w) then
        w.(c := B.Next(w.c.(want := |w.c.dst|), B.PullCommit),
           got := w.got + [F.WithHeader(w.c.dst[..F.HDR], w.c.dst[F.HDR..])])
      else w.(c := w.c.(pulling := false, want := 0, dst := []))
  }

  // ---- invariant --------------------------------------------------------------------

  ghost predicate Inv(w: Wire) {
    && B.Inv(w.c)
    && w.c.sent == F.Flatten(w.sent) && w.got <= w.sent && w.c.out == F.Flatten(w.sent[..|w.got|])
    && (if w.c.pushing then |w.pending| == 1 && w.c.src == F.EncodeFrame(w.pending[0]) else w.pending == [])
    && (w.c.pulling ==>
          && |w.got| <= w.seen <= |w.sent| && |w.c.out| + w.c.want == |F.Flatten(w.sent[..w.seen])|
          && (|w.c.dst| > 0 ==> w.c.want >= F.HDR) && Measured(w.c.dst))
  }

  /** No more is loaded than the header announces. */
  predicate Measured(dst: seq<Byte>) {
    |dst| > F.HDR ==> |dst| <= F.HDR + F.HeaderLen(dst[..F.HDR])
  }

  predicate Initial(w: Wire) {
    B.Initial(w.c) && w.pending == [] && w.sent == [] && w.got == []
  }

  /** A frame is sent only while the unread bytes, its own included, form a safe window. */
  predicate Paced(w: Wire, s: Step) {
    s.Send? && F.Fits(s.frame) ==>
      Safe(|w.c.out|, |w.c.sent| + F.HDR + |s.frame.payload|, TWO32, CAP)
  }

  predicate PacedRun(w: Wire, steps: seq<Step>)
    requires |w.c.data| == CAP
    decreases |steps|
  {
    steps == [] || (Enabled(w, steps[0]) && Paced(w, steps[0]) && PacedRun(Next(w, steps[0]), steps[1..]))
  }

  function Run(w: Wire, steps: seq<Step>): (w': Wire)
    requires |w.c.data| == CAP && PacedRun(w, steps)
    decreases |steps|
  {
    if steps == [] then w else Run(Next(w, steps[0]), steps[1..])
  }

  lemma {:induction false} FlattenGrows(fs: seq<F.Frame>, i: nat, j: nat)
    requires i <= j <= |fs|
    ensures |F.Flatten(fs[..i])| <= |F.Flatten(fs[..j])|
    decreases j
  {
    if i < j {
      FlattenGrows(fs, i, j - 1);
      assert fs[..j][..j - 1] == fs[..j - 1];
    }
  }

  // ---- the head of the backlog ------------------------------------------------------

  /** Frame g starts where the first g frames end. */
  lemma FrameAt(fs: seq<F.Frame>, g: nat, n: nat)
    requires g < |fs| && n <= F.HDR + |fs[g].payload|
    ensures var r := |F.Flatten(fs[..g])|;
            && r + F.HDR + |fs[g].payload| == |F.Flatten(fs[..g + 1])| <= |F.Flatten(fs)|
            && F.Flatten(fs)[r..r + n] == F.EncodeFrame(fs[g])[..n]
  {
    hide F.Flatten, F.EncodeFrame;
    F.FrameInStream(fs, g);
    var s, h, e := F.Flatten(fs), F.Flatten(fs[..g]), F.EncodeFrame(fs[g]);
    assert s[..|h| + |e|] == h + e;
    assert s[|h|..|h| + n] == s[..|h| + |e|][|h|..|h| + n];
  }

  /** What the receive has loaded is the stream from where it is delivered to. */
  lemma LoadedIs(w: Wire)
    requires Inv(w)
    ensures var r := |F.Flatten(w.sent[..|w.got|])|;
            r == |w.c.out| && r + |w.c.dst| <= |F.Flatten(w.sent)|
            && w.c.dst == F.Flatten(w.sent)[r..r + |w.c.dst|]
  {
    hide F.Flatten, B.ProducerInv, Safe;
  }

  /** A receive that was granted a header was granted a whole frame, and what it has loaded is
      the beginning of the first undelivered one. */
  lemma HeadFrame(w: Wire)
    requires Inv(w) && w.c.pulling && w.c.want >= F.HDR
    ensures |w.got| < w.seen
    ensures var f := w.sent[|w.got|];
            && F.HDR + |f.payload| <= w.c.want
            && (|w.c.dst| <= F.HDR + |f.payload| ==> w.c.dst == F.EncodeFrame(f)[..|w.c.dst|])
  {
    hide B.Inv, F.Flatten, F.EncodeFrame, F.HeaderLen;
    var g := |w.got|;
    assert g < w.seen;
    FrameAt(w.sent, g, 0);
    FlattenGrows(w.sent, g + 1, w.seen);
    LoadedIs(w);
    if |w.c.dst| <= F.HDR + |w.sent[g].payload| {
      FrameAt(w.sent, g, |w.c.dst|);
    }
  }

  /** Once the header is loaded it is that frame's. */
  lemma HeadHeader(w: Wire)
    requires Inv(w) && w.c.pulling && |w.c.dst| >= F.HDR
    ensures |w.got| < w.seen
    ensures F.HeaderLen(w.c.dst[..F.HDR]) == |w.sent[|w.got|].payload|
    ensures F.HDR + |w.sent[|w.got|].payload| <= w.c.want
  {
    hide B.Inv, F.Flatten, F.Header;
    HeadFrame(w);
    var f := w.sent[|w.got|];
    F.HeaderRoundTrip(f);
    HeadIsHeader(w, f);
  }

  lemma HeadIsHeader(w: Wire, f: F.Frame)
    requires Inv(w) && w.c.pulling && |w.c.dst| >= F.HDR && |w.got| < w.seen && f == w.sent[|w.got|]
    ensures w.c.dst[..F.HDR] == F.Header(f)
  {
    hide B.Inv, F.Flatten, F.Header, F.HeaderLen;
    LoadedIs(w);
    FrameAt(w.sent, |w.got|, F.HDR);
    var stream, r := F.Flatten(w.sent), |w.c.out|;
    assert w.c.dst[..F.HDR] == stream[r..r + F.HDR];
  }

  // ---- every step keeps the invariant -----------------------------------------------

  lemma SendInv(w: Wire, f: F.Frame)
    requires Inv(w) && Enabled(w, Send(f)) && Paced(w, Send(f))
    ensures Inv(Next(w, Send(f)))
  {
    hide B.Inv, F.Flatten, F.EncodeFrame;
    F.RefusesIff(|f.payload|);
    if F.Fits(f) {
      B.StepInv(w.c, B.PushStart(F.EncodeFrame(f)));
      assert F.EncodeFrame(f)[..Min(|F.EncodeFrame(f)|, CAP)] == F.EncodeFrame(f);
    }
  }

  lemma PublishInv(w: Wire)
    requires Inv(w) && Enabled(w, Publish)
    ensures Inv(Next(w, Publish))
  {
    hide B.Inv, F.EncodeFrame;
    B.StepInv(w.c, B.PushPublish);
    var w' := Next(w, Publish);
    assert w'.sent[..|w.sent|] == w.sent;
    assert w'.sent[..|w.got|] == w.sent[..|w.got|];
    if w.c.pulling {
      assert w'.sent[..w.seen] == w.sent[..w.seen];
    }
  }

  lemma ReceiveInv(w: Wire, outMax: U32)
    requires Inv(w) && Enabled(w, Receive(outMax))
    ensures Inv(Next(w, Receive(outMax)))
  {
    B.PullStartInv(w.c, TWO32 - 1);
    WindowFits(w.c);
    hide B.Inv, F.Flatten;
    assert w.sent[..|w.sent|] == w.sent;
  }

  lemma WindowFits(c: B.Chan)
    requires B.Inv(c)
    ensures |c.sent| - |c.out| <= CAP
  {
  }

  lemma LoadInv(w: Wire)
    requires Inv(w) && Enabled(w, Load)
    ensures Inv(Next(w, Load))
  {
    B.PullByteInv(w.c);
    hide B.Inv, F.Flatten, F.HeaderLen;
    var d := Next(w, Load).c.dst;
    assert |d| > F.HDR ==> d[..F.HDR] == w.c.dst[..F.HDR];
  }

  /** A receive that ends with a frame has loaded exactly the first undelivered one. */
  lemma CompleteIs(w: Wire)
    requires Inv(w) && Enabled(w, Finish) && Complete(w)
    ensures |w.got| < w.seen && |w.c.dst| == F.HDR + |w.sent[|w.got|].payload|
    ensures w.c.dst == F.EncodeFrame(w.sent[|w.got|])
    ensures F.WithHeader(w.c.dst[..F.HDR], w.c.dst[F.HDR..]) == w.sent[|w.got|]
  {
    hide B.Inv, F.Flatten, F.Header, F.WithHeader, F.HeaderLen;
    HeadHeader(w);
    var f := w.sent[|w.got|];
    HeadIsHeader(w, f);
    HeadFrame(w);
    F.HeaderRoundTrip(f);
    assert F.EncodeFrame(f)[F.HDR..] == f.payload;
  }

  lemma FinishInv(w: Wire)
    requires Inv(w) && Enabled(w, Finish)
    ensures Inv(Next(w, Finish))
  {
    hide F.HeaderLen, F.WithHeader, F.EncodeFrame, F.Flatten;
    var w' := Next(w, Finish);
    if Complete(w) {
      CompleteIs(w);
      ShorterWant(w.c);
      B.PullCommitInv(w.c.(want := |w.c.dst|));
      F.FrameInStream(w.sent, |w.got|);
      assert w.sent[..|w.got| + 1] == w'.got;
      hide B.Inv;
    } else {
      GivenUp(w.c);
      hide B.Inv;
    }
  }

  lemma ShorterWant(c: B.Chan)
    requires B.Inv(c) && c.pulling
    ensures B.Inv(c.(want := |c.dst|))
  {
  }

  lemma GivenUp(c: B.Chan)
    requires B.Inv(c)
    ensures B.Inv(c.(pulling := false, want := 0, dst := []))
  {
  }

  lemma StepInv(w: Wire, s: Step)
    requires Inv(w) && Enabled(w, s) && Paced(w, s)
    ensures Inv(Next(w, s))
  {
    hide Inv, Next, Paced;
    match s
    case Send(f) => SendInv(w, f);
    case Store => StoreInv(w);
    case Publish => PublishInv(w);
    case Receive(outMax) => ReceiveInv(w, outMax);
    case Load => LoadInv(w);
    case Finish => FinishInv(w);
  }

  lemma StoreInv(w: Wire)
    requires Inv(w) && Enabled(w, Store)
    ensures Inv(Next(w, Store))
  {
    B.PushByteInv(w.c);
    hide B.Inv, F.Flatten;
  }

  lemma InvShape(w: Wire)
    requires Inv(w)
    ensures |w.c.data| == CAP && w.got <= w.sent
  {
  }

  lemma {:induction false} RunInv(w: Wire, steps: seq<Step>)
    requires |w.c.data| == CAP && Inv(w) && PacedRun(w, steps)
    ensures Inv(Run(w, steps))
    decreases |steps|
  {
    hide Inv, Next, Enabled, Paced;
    if steps != [] {
      StepInv(w, steps[0]);
      RunInv(Next(w, steps[0]), steps[1..]);
    }
  }

  lemma InitialInv(w: Wire)
    requires Initial(w)
    ensures Inv(w)
  {
    B.InitialInv(w.c);
    assert w.sent[..0] == [];
  }

  // ---- what is delivered ------------------------------------------------------------

  /** A receive ends with the first undelivered frame if one had been published when it began
      and its payload fits the buffer, and otherwise with nothing, whatever the sender does in
      between. */
  lemma FinishOutcome(w: Wire)
    requires |w.c.data| == CAP && Inv(w) && Enabled(w, Finish)
    ensures |w.got| <= w.seen <= |w.sent|
    ensures Next(w, Finish).got
         == if |w.got| < w.seen && |w.sent[|w.got|].payload| <= w.outMax then w.got + [w.sent[|w.got|]] else w.got
  {
    hide B.Inv, F.Flatten, F.Header, F.WithHeader, F.HeaderLen, F.EncodeFrame;
    if |w.c.dst| >= F.HDR {
      HeadHeader(w);
      FrameFits(w);
      if Complete(w) {
        CompleteIs(w);
      }
    } else {
      NothingSeen(w);
    }
  }

  lemma FrameFits(w: Wire)
    requires Inv(w) && w.c.pulling && |w.got| < w.seen && F.HDR + |w.sent[|w.got|].payload| <= w.c.want
    ensures |w.sent[|w.got|].payload| <= CAP
  {
    WindowFits(w.c);
  }

  lemma NothingSeen(w: Wire)
    requires Inv(w) && w.c.pulling && w.c.want < F.HDR
    ensures w.seen == |w.got|
  {
    hide B.Inv, F.EncodeFrame;
    if |w.got| < w.seen {
      FlattenGrows(w.sent, |w.got| + 1, w.seen);
      F.FrameInStream(w.sent, |w.got|);
    }
  }

  /** In every interleaving of paced sends with receives, byte by byte, the delivered frames are
      a prefix, field by field, of the published ones. */
  lemma FramesInOrder(w: Wire, steps: seq<Step>)
    requires Initial(w) && PacedRun(w, steps)
    ensures Run(w, steps).got <= Run(w, steps).sent
  {
    hide Inv, Next, Enabled, Paced, Run, PacedRun;
    InitialInv(w);
    RunInv(w, steps);
    InvShape(Run(w, steps));
  }

  /** And a receive that has begun always gets to its end: as long as it cannot finish it can
      load one byte more, and it loads at most a header and the announced payload. */
  lemma ReceiveEnds(w: Wire)
    requires |w.c.data| == CAP && Inv(w) && w.c.pulling
    ensures Enabled(w, Load) != Enabled(w, Finish)
    ensures Enabled(w, Load) ==> |Next(w, Load).c.dst| == |w.c.dst| + 1
    ensures |w.c.dst| <= F.HDR || (|w.got| < w.seen && |w.c.dst| <= F.HDR + |w.sent[|w.got|].payload|)
  {
    hide B.Inv, F.Flatten, F.HeaderLen;
    if |w.c.dst| > F.HDR {
      HeadHeader(w);
    }
  }

  /** So does a send: it stores one byte more or publishes. */
  lemma SendEnds(w: Wire)
    requires |w.c.data| == CAP && Inv(w) && w.c.pushing
    ensures Enabled(w, Store) != Enabled(w, Publish)
    ensures Enabled(w, Store) ==> Next(w, Store).c.stored == w.c.stored + 1
    ensures |w.pending| == 1 && w.c.stored <= |w.c.src| == F.HDR + |w.pending[0].payload|
  {
    hide F.Flatten, F.EncodeFrame;
  }

  // ---- the wire as a queue of frames ------------------------------------------------

  /** The frames published and delivered, the one being pushed, and for the receive under way its
      buffer and the frames it can count on, kept from the steps alone. */
  datatype Queue = Queue(
    sent: seq<F.Frame>, pending: seq<F.Frame>, got: seq<F.RawFrame>, receiving: bool, outMax: U32, seen: nat)

  function Serve(q: Queue, s: Step): (r: Queue)
    requires q.seen <= |q.sent|
    ensures r.seen <= |r.sent|
  {
    match s
    case Send(f) => if |f.payload| <= 65464 then q.(pending := [f]) else q
    case Store => q
    case Publish => q.(sent := q.sent + q.pending, pending := [])
    case Receive(outMax) => q.(receiving := true, outMax := outMax, seen := |q.sent|)
    case Load => q
    case Finish =>
      if |q.got| < q.seen && |q.sent[|q.got|].payload| <= q.outMax
      then q.(receiving := false, got := q.got + [q.sent[|q.got|]]) else q.(receiving := false)
  }

  function Served(q: Queue, steps: seq<Step>): (r: Queue)
    requires q.seen <= |q.sent|
    decreases |steps|
  {
    if steps == [] then q else Served(Serve(q, steps[0]), steps[1..])
  }

  function AsQueue(w: Wire): (q: Queue) {
    Queue(w.sent, w.pending, w.got, w.c.pulling, w.outMax, w.seen)
  }

  /** And the push under way is the pending frame's. */
  lemma StepIsQueue(w: Wire, s: Step)
    requires |w.c.data| == CAP && Inv(w) && Enabled(w, s) && w.seen <= |w.sent|
    ensures AsQueue(Next(w, s)) == Serve(AsQueue(w), s)
    ensures Next(w, s).seen <= |Next(w, s).sent|
    ensures w.c.pushing <==> w.pending != []
  {
    hide B.Inv, F.Flatten, F.EncodeFrame, F.HeaderLen;
    match s
    case Send(f) => F.RefusesIff(|f.payload|);
    case Store =>
    case Publish =>
    case Receive(_) =>
    case Load =>
    case Finish => FinishOutcome(w);
  }

  lemma {:induction false} RunIsQueue(w: Wire, steps: seq<Step>)
    requires |w.c.data| == CAP && Inv(w) && PacedRun(w, steps) && w.seen <= |w.sent|
    ensures AsQueue(Run(w, steps)) == Served(AsQueue(w), steps)
    decreases |steps|
  {
    hide Inv, AsQueue, Serve, Next, Paced, Enabled;
    SameSent(w);
    if steps != [] {
      StepInv(w, steps[0]);
      StepIsQueue(w, steps[0]);
      RunIsQueue(Next(w, steps[0]), steps[1..]);
    }
  }

  lemma SameSent(w: Wire)
    ensures AsQueue(w).sent == w.sent && AsQueue(w).seen == w.seen
  {
  }

  /** In every interleaving the frames accepted, published and delivered, and whether a receive is
      under way, are those of a queue of whole frames. */
  lemma WireIsQueue(w: Wire, steps: seq<Step>)
    requires Initial(w) && PacedRun(w, steps) && w.seen == 0
    ensures AsQueue(Run(w, steps)) == Served(Queue([], [], [], false, w.outMax, 0), steps)
  {
    hide Inv, Next, Enabled, Paced, Run, PacedRun;
    InitialInv(w);
    RunIsQueue(w, steps);
  }
}
