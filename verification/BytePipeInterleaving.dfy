/**
 The same ring with producer and consumer running concurrently.  Every byte stored, every
 byte loaded and every cursor load or store is one atomic step, and steps of the two sides
 interleave freely (sequential consistency).  The producer publishes its cursor only after
 the bytes; the consumer advances its private cursor only after the copy.
 */
module BytePipeInterleaving {
  import opened Machine
  import opened RingWindow
  import opened BytePipe

  /** `sent` and `out` are history: the bytes published and the bytes the consumer returned. */
  datatype Chan = Chan(
    data: seq<Byte>, w: U32,
    pushing: bool, src: seq<Byte>, stored: nat,
    rd: U32, pulling: bool, want: nat, dst: seq<Byte>,
    sent: seq<Byte>, out: seq<Byte>)

  datatype Step =
    | PushStart(bytes: seq<Byte>)  // clamp the length, read the own cursor
    | PushByte                     // store one byte
    | PushPublish                  // release-store the cursor
    | PullStart(max: U32)          // acquire-load the cursor, lap check, clamp
    | PullByte                     // load one byte
    | PullCommit                   // advance the private cursor

  predicate Enabled(c: Chan, s: Step) {
    match s
    case PushStart(bytes) => !c.pushing && |bytes| < TWO32
    case PushByte => c.pushing && c.stored < |c.src|
    case PushPublish => c.pushing && c.stored == |c.src|
    case PullStart(_) => !c.pulling
    case PullByte => c.pulling && |c.dst| < c.want
    case PullCommit => c.pulling && |c.dst| == c.want
  }

  function Next(c: Chan, s: Step): (c': Chan)
    requires |c.data| == CAP && Enabled(c, s)
    ensures |c'.data| == CAP
  {
    match s
    case PushStart(bytes) => c.(pushing := true, src := bytes[..Min(|bytes|, CAP)], stored := 0)
    case PushByte => c.(data := c.data[At(Adv(c.w, c.stored)) := c.src[c.stored]], stored := c.stored + 1)
    case PushPublish =>
      c.(w := Adv(c.w, |c.src|), pushing := false, src := [], stored := 0, sent := c.sent + c.src)
    case PullStart(max) =>
      c.(rd := Start(c.w, c.rd), pulling := true, want := Count(c.w, c.rd, max), dst := [])
    case PullByte => c.(dst := c.dst + [c.data[At(Adv(c.rd, |c.dst|))]])
    case PullCommit => c.(rd := Adv(c.rd, c.want), pulling := false, want := 0, dst := [], out := c.out + c.dst)
  }

  /** After bytepipe_producer_init: the data area is arbitrary, both cursors are 0. */
  predicate Initial(c: Chan) {
    && |c.data| == CAP && c.w == 0 && c.rd == 0
    && !c.pushing && c.src == [] && c.stored == 0
    && !c.pulling && c.want == 0 && c.dst == []
    && c.sent == [] && c.out == []
  }

  /** The flow control the channel itself does not do: a push may start only when the bytes
      not yet consumed, the new ones included, form a safe window. */
  predicate Paced(c: Chan, s: Step) {
    s.PushStart? ==> Safe(|c.out|, |c.sent| + Min(|s.bytes|, CAP), TWO32, CAP)
  }

  /** Every step is enabled when taken and every push is paced. */
  predicate PacedRun(c: Chan, steps: seq<Step>)
    requires |c.data| == CAP
    decreases |steps|
  {
    steps == [] || (Enabled(c, steps[0]) && Paced(c, steps[0]) && PacedRun(Next(c, steps[0]), steps[1..]))
  }

  function Run(c: Chan, steps: seq<Step>): (c': Chan)
    requires |c.data| == CAP && PacedRun(c, steps)
    decreases |steps|
  {
    if steps == [] then c else Run(Next(c, steps[0]), steps[1..])
  }

  ghost predicate ProducerInv(c: Chan) {
    && |c.data| == CAP
    && c.w == Cur(|c.sent|)
    && c.stored <= |c.src|
    && (!c.pushing ==> c.src == [])
    && Fresh(c.data, c.sent + c.src[..c.stored], TWO32, CAP)
  }

  predicate ConsumerInv(c: Chan) {
    && |c.out| + c.want <= |c.sent| && |c.dst| <= c.want
    && c.rd == Cur(|c.out|)
    && (!c.pulling ==> c.want == 0)
    && c.out == c.sent[..|c.out|]
    && c.dst == c.sent[|c.out|..|c.out| + |c.dst|]
    && Safe(|c.out|, |c.sent| + |c.src|, TWO32, CAP)
  }

  ghost predicate Inv(c: Chan) {
    ProducerInv(c) && ConsumerInv(c)
  }

  lemma InitialInv(c: Chan)
    requires Initial(c)
    ensures Inv(c)
  {
    assert c.sent + c.src[..c.stored] == [];
  }

  lemma PushByteInv(c: Chan)
    requires Inv(c) && Enabled(c, PushByte)
    ensures Inv(Next(c, PushByte))
  {
    var h, b, c' := c.sent + c.src[..c.stored], c.src[c.stored], Next(c, PushByte);
    AtWrap(|c.sent|, c.w, c.stored);
    StoreKeepsFresh(c.data, h, b, TWO32, CAP);
    assert c'.sent + c'.src[..c'.stored] == h + [b];
  }

  lemma PushPublishInv(c: Chan)
    requires Inv(c) && Enabled(c, PushPublish)
    ensures Inv(Next(c, PushPublish))
  {
    var c' := Next(c, PushPublish);
    assert c.sent + c.src[..c.stored] == c'.sent;
    assert c'.sent + c'.src[..c'.stored] == c'.sent;
    AtWrap(|c.sent|, c.w, |c.src|);
    assert c'.sent[..|c.out|] == c.sent[..|c.out|];
    assert c'.sent[|c.out|..|c.out| + |c.dst|] == c.sent[|c.out|..|c.out| + |c.dst|];
  }

  /** With a safe backlog there is no lap, and everything published is granted. */
  lemma Granted(end: nat, more: nat, r: nat, max: U32)
    requires r <= end && Safe(r, end + more, TWO32, CAP)
    ensures Start(Cur(end), Cur(r)) == Cur(r) && Count(Cur(end), Cur(r), max) == Min(end - r, max)
  {
    CursorLag(end, r);
  }

  lemma PullStartInv(c: Chan, max: U32)
    requires Inv(c) && Enabled(c, PullStart(max))
    ensures Inv(Next(c, PullStart(max)))
    ensures Next(c, PullStart(max)).rd == c.rd
    ensures Next(c, PullStart(max)).want == Min(|c.sent| - |c.out|, max)
  {
    hide Fresh, Safe, Cur, Start, Count;
    Granted(|c.sent|, |c.src|, |c.out|, max);
  }

  /** The byte loaded is the stream's next one, even while the producer is storing others. */
  lemma LoadedByte(c: Chan)
    requires Inv(c) && Enabled(c, PullByte)
    ensures c.data[At(Adv(c.rd, |c.dst|))] == c.sent[|c.out| + |c.dst|]
  {
    var p, h := |c.out| + |c.dst|, c.sent + c.src[..c.stored];
    AtWrap(|c.out|, c.rd, |c.dst|);
    UnreadReadable(c.data, h, |c.out|, p, |c.sent| + |c.src|);
  }

  lemma PullByteInv(c: Chan)
    requires Inv(c) && Enabled(c, PullByte)
    ensures Inv(Next(c, PullByte))
  {
    LoadedByte(c);
    var p, c' := |c.out| + |c.dst|, Next(c, PullByte);
    assert c.sent[|c.out|..p + 1] == c.sent[|c.out|..p] + [c.sent[p]];
  }

  lemma PullCommitInv(c: Chan)
    requires Inv(c) && Enabled(c, PullCommit)
    ensures Inv(Next(c, PullCommit))
  {
    AtWrap(|c.out|, c.rd, c.want);
    assert c.sent[..|c.out| + |c.dst|] == c.out + c.dst;
    SafeShrinks(|c.out|, |c.out| + |c.dst|, |c.sent| + |c.src|, TWO32, CAP);
  }

  lemma StepInv(c: Chan, s: Step)
    requires Inv(c) && Enabled(c, s) && Paced(c, s)
    ensures Inv(Next(c, s))
  {
    match s
    case PushStart(bytes) =>
      assert c.sent + Next(c, s).src[..0] == c.sent + c.src[..c.stored];
    case PushByte => PushByteInv(c);
    case PushPublish => PushPublishInv(c);
    case PullStart(max) => PullStartInv(c, max);
    case PullByte => PullByteInv(c);
    case PullCommit => PullCommitInv(c);
  }

  lemma {:induction false} RunInv(c: Chan, steps: seq<Step>)
    requires Inv(c) && PacedRun(c, steps)
    ensures Inv(Run(c, steps))
    decreases |steps|
  {
    if steps != [] {
      StepInv(c, steps[0]);
      RunInv(Next(c, steps[0]), steps[1..]);
    }
  }

  /** In every interleaving of paced pushes with pulls, what the consumer has returned is a
      prefix of what the producer has published, and so is what it holds half-copied. */
  lemma FifoUnderInterleaving(c: Chan, steps: seq<Step>)
    requires Initial(c) && PacedRun(c, steps)
    ensures var f := Run(c, steps); f.out + f.dst <= f.sent
  {
    InitialInv(c);
    RunInv(c, steps);
    var f := Run(c, steps);
    assert f.sent[..|f.out| + |f.dst|] == f.out + f.dst;
  }

  /** No byte is lost to a missed wake-up: whenever the consumer starts a pull, it is granted
      everything published so far, up to its buffer. */
  lemma PullSeesAllPublished(c: Chan, steps: seq<Step>, max: U32)
    requires Initial(c) && PacedRun(c, steps) && Enabled(Run(c, steps), PullStart(max))
    ensures var f := Run(c, steps);
            |f.data| == CAP && Next(f, PullStart(max)).want == Min(|f.sent| - |f.out|, max)
  {
    InitialInv(c);
    RunInv(c, steps);
    PullStartInv(Run(c, steps), max);
  }

  /** A push and a pull that have begun get to their ends: each can always do its last step or
      move one byte more, of as many as it has to move. */
  lemma OperationsEnd(c: Chan)
    requires Inv(c)
    ensures c.pushing ==>
              && c.stored <= |c.src| && Enabled(c, PushByte) != Enabled(c, PushPublish)
              && (Enabled(c, PushByte) ==> Next(c, PushByte).stored == c.stored + 1)
    ensures c.pulling ==>
              && |c.dst| <= c.want && Enabled(c, PullByte) != Enabled(c, PullCommit)
              && (Enabled(c, PullByte) ==> |Next(c, PullByte).dst| == |c.dst| + 1)
  {
    hide Safe, Fresh;
  }

  // ---- the channel as a queue -------------------------------------------------------

  /** What was published and returned, and what the push and the pull under way are for, kept
      from the steps alone. */
  datatype Queue = Queue(
    sent: seq<Byte>, pushing: bool, src: seq<Byte>, out: seq<Byte>, pulling: bool, grant: nat)

  /** A push is of at most 65472 bytes, published at once; a pull is granted what is there when
      it starts, up to its buffer, and returns that. */
  function Serve(q: Queue, s: Step): (r: Queue)
    requires |q.out| + q.grant <= |q.sent|
    ensures |r.out| + r.grant <= |r.sent|
  {
    match s
    case PushStart(bytes) => q.(pushing := true, src := if |bytes| <= 65472 then bytes else bytes[..65472])
    case PushByte => q
    case PushPublish => q.(sent := q.sent + q.src, pushing := false, src := [])
    case PullStart(max) => q.(pulling := true, grant := if |q.sent| - |q.out| <= max then |q.sent| - |q.out| else max)
    case PullByte => q
    case PullCommit => q.(out := q.sent[..|q.out| + q.grant], pulling := false, grant := 0)
  }

  function Served(q: Queue, steps: seq<Step>): (r: Queue)
    requires |q.out| + q.grant <= |q.sent|
    decreases |steps|
  {
    if steps == [] then q else Served(Serve(q, steps[0]), steps[1..])
  }

  function AsQueue(c: Chan): (q: Queue) {
    Queue(c.sent, c.pushing, c.src, c.out, c.pulling, c.want)
  }

  lemma StepIsQueue(c: Chan, s: Step)
    requires Inv(c) && Enabled(c, s)
    ensures AsQueue(Next(c, s)) == Serve(AsQueue(c), s)
  {
    hide Safe, Fresh;
    match s
    case PushStart(bytes) =>
      assert |bytes| <= CAP ==> bytes[..|bytes|] == bytes;
    case PushByte =>
    case PushPublish =>
    case PullStart(max) => PullStartInv(c, max);
    case PullByte =>
    case PullCommit =>
      assert c.sent[..|c.out| + c.want] == c.out + c.dst;
  }

  lemma {:induction false} RunIsQueue(c: Chan, steps: seq<Step>)
    requires Inv(c) && PacedRun(c, steps)
    ensures AsQueue(Run(c, steps)) == Served(AsQueue(c), steps)
    decreases |steps|
  {
    hide AsQueue, Serve, Next, Paced;
    if steps != [] {
      StepInv(c, steps[0]);
      StepIsQueue(c, steps[0]);
      RunIsQueue(Next(c, steps[0]), steps[1..]);
    }
  }

  /** In every interleaving the two sides get what a queue that is read and written in one piece
      would give them, step for step. */
  lemma ChannelIsQueue(c: Chan, steps: seq<Step>)
    requires Initial(c) && PacedRun(c, steps)
    ensures AsQueue(Run(c, steps)) == Served(Queue([], false, [], [], false, 0), steps)
  {
    InitialInv(c);
    RunIsQueue(c, steps);
  }
}
