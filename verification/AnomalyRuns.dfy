/** Closed forms and budgets over whole runs of the suspicion engine. */
module AnomalyRuns {
  import opened Machine
  import opened Anomaly

  // ---- tenancy ----------------------------------------------------------------------

  /** Every reported count is nonzero and none is below the one before. */
  predicate Steady(w: nat, evs: seq<Event>)
    decreases |evs|
  {
    evs == [] ||
    if evs[0].Sync? then evs[0].count != 0 && evs[0].count >= w && Steady(evs[0].count, evs[1..])
    else Steady(w, evs[1..])
  }

  lemma {:induction false} SteadyNeverResets(s: Slot, wired: bool, evs: seq<Event>)
    requires Steady(s.watermark, evs)
    ensures NoReset(s, wired, evs)
    decreases |evs|
  {
    if evs != [] {
      SteadyNeverResets(Step(s, wired, evs[0]).0, wired, evs[1..]);
    }
  }

  predicate AllZeroCounts(evs: seq<Event>) {
    forall i :: 0 <= i < |evs| ==> evs[i].Sync? && evs[i].count == 0
  }

  lemma ZeroCountStep(s: Slot, wired: bool, ev: Event)
    requires ev.Sync? && ev.count == 0 && s.watermark + 1 < TWO32
    ensures Step(s, wired, ev).0.watermark == s.watermark + 1
  {
  }

  lemma {:induction false} ZeroCountsRaise(s: Slot, wired: bool, evs: seq<Event>)
    requires AllZeroCounts(evs) && s.watermark + |evs| < TWO32
    ensures Run(s, wired, evs).watermark == s.watermark + |evs|
    decreases |evs|
  {
    hide Step;
    if evs != [] {
      ZeroCountStep(s, wired, evs[0]);
      ZeroCountsRaise(Step(s, wired, evs[0]).0, wired, evs[1..]);
    }
  }

  /** A count of 0 raises the watermark, so after n such events a genuine count c is taken for
      a new process exactly when 0 < c < old watermark + n. */
  lemma ZeroCountsReset(s: Slot, wired: bool, evs: seq<Event>, kind: Kind, arg: U64, c: U32)
    requires AllZeroCounts(evs) && s.watermark + |evs| < TWO32
    ensures ResetsAt(Run(s, wired, evs), Sync(kind, arg, c)) <==> 0 < c < s.watermark + |evs|
  {
    ZeroCountsRaise(s, wired, evs);
  }

  /** No nonzero count is below the watermark it meets. */
  predicate Unnoticed(w: U32, evs: seq<Event>)
    decreases |evs|
  {
    evs == [] ||
    if !evs[0].Sync? then Unnoticed(w, evs[1..])
    else if evs[0].count == 0 then Unnoticed(Plus(w, 1), evs[1..])
    else evs[0].count >= w && Unnoticed(evs[0].count, evs[1..])
  }

  /** A new process is missed, for as long as it runs, if and only if none of its nonzero counts
      is below the watermark its predecessor and its own events have left. */
  lemma {:induction false} MissedIff(s: Slot, wired: bool, evs: seq<Event>)
    ensures NoReset(s, wired, evs) <==> Unnoticed(s.watermark, evs)
    decreases |evs|
  {
    hide Plus, Contribution;
    if evs != [] {
      MissedIff(Step(s, wired, evs[0]).0, wired, evs[1..]);
    }
  }

  /** Missed after a predecessor at tier 2, it inherits that tier in the engine, and no scored
      event of its own is ever answered with one. */
  lemma {:induction false} MissedIsNeverScored(s: Slot, wired: bool, evs: seq<Event>)
    requires Inv(s) && s.applied == 2 && Unnoticed(s.watermark, evs)
    ensures Run(s, wired, evs).applied == 2
    ensures forall i :: 0 <= i < |SyncReplies(s, wired, evs)| ==> SyncReplies(s, wired, evs)[i] == 0
    decreases |evs|
  {
    hide Plus, Contribution;
    MissedIff(s, wired, evs);
    if evs != [] {
      var t := Step(s, wired, evs[0]);
      StepInv(s, wired, evs[0]);
      assert t.0.applied == 2 && (evs[0].Sync? ==> t.1.tier == 0);
      MissedIff(t.0, wired, evs[1..]);
      MissedIsNeverScored(t.0, wired, evs[1..]);
    }
  }

  // ---- unlink bursts ----------------------------------------------------------------

  predicate Plain(ev: Event) {
    ev.Sync? && ev.kind == Unlink && ev.arg % 2 == 0
  }

  predicate AllPlain(evs: seq<Event>) {
    forall i :: 0 <= i < |evs| ==> Plain(evs[i])
  }

  function BurstScore(n: nat): (score: nat) {
    if n <= 6 then n * (n + 1) else 12 * n - 30
  }

  /** The record n unlinks into a burst. */
  predicate InBurst(s: Slot, n: nat) {
    s.run == n && s.since == 0 && s.score == BurstScore(n) && s.applied == TierOf(BurstScore(n)) && !s.promoted
  }

  /** What the n-th unlink of a burst adds. */
  function BurstAdd(n: nat): (add: nat) {
    if n <= 6 then 2 * n else 12
  }

  lemma BurstSum(n: nat)
    ensures BurstScore(n + 1) == BurstScore(n) + BurstAdd(n + 1)
  {
  }

  lemma BurstGrows(m: nat, n: nat)
    requires m <= n
    ensures BurstScore(m) <= BurstScore(n)
  {
  }

  lemma BurstContribution(s: Slot, n: nat, arg: U64)
    requires s.run == n && 0 < n < TWO32 / 4 && arg % 2 == 0
    ensures Contribution(s, Unlink, arg) == BurstAdd(n)
  {
    assert (BASE * n) % TWO32 == 2 * n;
  }

  lemma BurstStep(s: Slot, n: nat, wired: bool, ev: Event)
    requires InBurst(s, n) && Plain(ev) && !ResetsAt(s, ev) && BurstScore(n + 1) < TWO32
    ensures InBurst(Step(s, wired, ev).0, n + 1)
    ensures Step(s, wired, ev).1.tier
         == if TierOf(BurstScore(n + 1)) > TierOf(BurstScore(n)) then TierOf(BurstScore(n + 1)) else 0
  {
    var a := Aged(Tenant(s, ev.count), Unlink);
    assert n + 1 < TWO32 / 4;
    PlusSmall(n, 1);
    BurstContribution(a, n + 1, ev.arg);
    BurstSum(n);
    hide BurstScore, Contribution, BurstAdd;
    PlusSmall(s.score, BurstAdd(n + 1));
  }

  lemma {:induction false} BurstRun(s: Slot, n: nat, wired: bool, evs: seq<Event>)
    requires InBurst(s, n) && AllPlain(evs) && NoReset(s, wired, evs) && BurstScore(n + |evs|) < TWO32
    ensures InBurst(Run(s, wired, evs), n + |evs|)
    decreases |evs|
  {
    hide Step, InBurst, BurstScore;
    if evs != [] {
      BurstGrows(n + 1, n + |evs|);
      BurstStep(s, n, wired, evs[0]);
      BurstRun(Step(s, wired, evs[0]).0, n + 1, wired, evs[1..]);
    }
  }

  /** n consecutive plain unlinks by a fresh process score n(n + 1) up to the sixth and
      12n - 30 from then on, and that score decides the tier. */
  lemma BurstClosedForm(wired: bool, evs: seq<Event>)
    requires AllPlain(evs) && NoReset(EMPTY, wired, evs) && BurstScore(|evs|) < TWO32
    ensures var s := Run(EMPTY, wired, evs);
            s.score == BurstScore(|evs|) && s.applied == if |evs| < 4 then 0 else if |evs| < 6 then 1 else 2
  {
    BurstRun(EMPTY, 0, wired, evs);
  }

  /** Every unlink comes more than 8 scored events after the one before; `gap` counts them. */
  predicate Spaced(evs: seq<Event>, gap: nat)
    decreases |evs|
  {
    evs == [] ||
    (evs[0].Sync? && (evs[0].kind == Unlink ==> gap > 8 && evs[0].arg % 2 == 0)
     && Spaced(evs[1..], if evs[0].kind == Unlink then 0 else gap + 1))
  }

  /** The sum of the base weights. */
  function Flat(evs: seq<Event>): (n: nat)
    decreases |evs|
  {
    if evs == [] then 0 else (if evs[0].Sync? then Weight(evs[0].kind) else 0) + Flat(evs[1..])
  }

  /** An event far from the last unlink adds its base weight. */
  lemma SpacedStep(s: Slot, wired: bool, ev: Event, gap: nat)
    requires ev.Sync? && (ev.kind == Unlink ==> gap > 8 && ev.arg % 2 == 0) && !ResetsAt(s, ev)
    requires (s.run == 0 || s.since == gap) && gap + 1 < TWO32
    ensures Added(s, wired, ev) == Weight(ev.kind)
    ensures var t := Step(s, wired, ev).0; t.run == 0 || t.since == if ev.kind == Unlink then 0 else gap + 1
  {
  }

  /** Spaced deletes never escalate: each adds exactly its base weight 2. */
  lemma {:induction false} SpacedIsFlat(s: Slot, sum: nat, wired: bool, evs: seq<Event>, gap: nat)
    requires Spaced(evs, gap) && NoReset(s, wired, evs)
    requires s.run == 0 || s.since == gap
    requires gap + |evs| < TWO32
    ensures Suspicion(s, sum, wired, evs) == sum + Flat(evs)
    decreases |evs|
  {
    hide Step, Added, ResetsAt, Weight;
    if evs != [] {
      SpacedStep(s, wired, evs[0], gap);
      var t := Step(s, wired, evs[0]).0;
      SpacedIsFlat(t, sum + Weight(evs[0].kind), wired, evs[1..], if evs[0].kind == Unlink then 0 else gap + 1);
    }
  }

  predicate NoUnlinks(evs: seq<Event>) {
    forall i :: 0 <= i < |evs| ==> evs[i].Sync? && evs[i].kind != Unlink
  }

  lemma {:induction false} QuietRun(s: Slot, wired: bool, evs: seq<Event>)
    requires NoUnlinks(evs) && NoReset(s, wired, evs) && s.since + |evs| < TWO32
    ensures var t := Run(s, wired, evs); t.run == s.run && t.since == s.since + |evs|
    decreases |evs|
  {
    if evs != [] {
      PlusSmall(s.since, 1);
      QuietRun(Step(s, wired, evs[0]).0, wired, evs[1..]);
    }
  }

  /** A burst goes on over up to 8 other scored events, and ends with the ninth. */
  lemma BurstWindow(s: Slot, wired: bool, evs: seq<Event>, arg: U64, count: U32)
    requires s.since == 0 && NoUnlinks(evs) && NoReset(s, wired, evs) && |evs| < TWO32
    ensures var t := Run(s, wired, evs);
            !Resets(t, count) ==>
              HandleSync(t, Unlink, arg, count).0.run == if |evs| <= 8 then (s.run + 1) % TWO32 else 1
  {
    QuietRun(s, wired, evs);
  }

  // ---- plain kinds and triggers -----------------------------------------------------

  predicate AllOf(evs: seq<Event>, kind: Kind) {
    forall i :: 0 <= i < |evs| ==> evs[i].Sync? && evs[i].kind == kind
  }

  lemma {:induction false} PlainKindRun(s: Slot, wired: bool, evs: seq<Event>, kind: Kind)
    requires kind != Unlink && AllOf(evs, kind) && NoReset(s, wired, evs)
    requires s.score + 15 * |evs| < TWO32
    ensures Run(s, wired, evs).score
         == s.score + |evs| * (if kind == Write then 1 else if kind == Exec then 8 else 15)
    decreases |evs|
  {
    if evs != [] {
      var w := if kind == Write then 1 else if kind == Exec then 8 else 15;
      PlusSmall(s.score, w);
      PlainKindRun(Step(s, wired, evs[0]).0, wired, evs[1..], kind);
      assert |evs| * w == w + (|evs| - 1) * w;
    }
  }

  /** A fresh process reaches Tier 1 on its 20th write, 3rd exec or 2nd credential access, and
      Tier 2 on its 40th, 5th or 3rd. */
  lemma TiersByKind(wired: bool, evs: seq<Event>, kind: Kind)
    requires kind != Unlink && AllOf(evs, kind) && NoReset(EMPTY, wired, evs) && 15 * |evs| < TWO32
    ensures var n, t := |evs|, Run(EMPTY, wired, evs).applied;
            && (kind == Write ==> t == if n < 20 then 0 else if n < 40 then 1 else 2)
            && (kind == Exec ==> t == if n < 3 then 0 else if n < 5 then 1 else 2)
            && (kind == Cred ==> t == if n < 2 then 0 else if n < 3 then 1 else 2)
  {
    PlainKindRun(EMPTY, wired, evs, kind);
    ScoreIsExact(EMPTY, 0, wired, evs);
    SumOfKind(EMPTY, 0, wired, evs, kind);
  }

  lemma Times(n: nat, w: nat)
    requires n > 0
    ensures n * w == w + (n - 1) * w
  {
  }

  lemma {:induction false} SumOfKind(s: Slot, sum: nat, wired: bool, evs: seq<Event>, kind: Kind)
    requires kind != Unlink && AllOf(evs, kind) && NoReset(s, wired, evs)
    ensures Suspicion(s, sum, wired, evs) == sum + |evs| * Weight(kind)
    decreases |evs|
  {
    if evs != [] {
      Times(|evs|, Weight(kind));
      assert Added(s, wired, evs[0]) == Weight(kind);
      hide Weight, Added, Step;
      SumOfKind(Step(s, wired, evs[0]).0, sum + Weight(kind), wired, evs[1..], kind);
    }
  }

  /** A canary lookup, shellcode, a ransomware or lateral-movement signature (rules 1 and 2) or
      a connection off the 10.x net takes an unpromoted process to tier 2 at once; any other
      rule, a local connection, a second trigger and an unwired engine change nothing. */
  lemma TriggerIsInstant(s: Slot, t: Trigger, wired: bool)
    requires Inv(s)
    ensures var r := HandleAsync(s, t, wired);
            if wired && !s.promoted
               && (t == Dns || t == Msyscall || t == Curvature(1) || t == Curvature(2) || (t.TcpOpen? && t.octet != 10))
            then r.1 == 2 && r.0 == s.(promoted := true, applied := 2, score := (s.score + 40) % TWO32,
                                       since := (s.since + 1) % TWO32)
            else r == (s, 0)
  {
  }

  /** A process taken for a new one starts from nothing but the byte counter. */
  lemma NewTenantIsFresh(s: Slot, kind: Kind, arg: U64, count: U32)
    requires Resets(s, count)
    ensures HandleSync(s, kind, arg, count) == HandleSync(EMPTY.(bytes := s.bytes), kind, arg, count)
  {
  }

  // ---- credential deletes -----------------------------------------------------------

  predicate AllUnlinks(evs: seq<Event>) {
    forall i :: 0 <= i < |evs| ==> evs[i].Sync? && evs[i].kind == Unlink
  }

  /** Deletes of a credential or canary path among the events. */
  function Creds(evs: seq<Event>): (n: nat)
    decreases |evs|
  {
    if evs == [] then 0 else (if evs[0].Sync? && evs[0].arg % 2 == 1 then 1 else 0) + Creds(evs[1..])
  }

  lemma CredContribution(s: Slot, n: nat, arg: U64)
    requires s.run == n && 0 < n < TWO32 / 4
    ensures Contribution(s, Unlink, arg) == BurstAdd(n) + arg % 2 * 2
  {
    assert (BASE * n) % TWO32 == 2 * n;
    var capped := if 2 * n > 12 then 12 else 2 * n;
    LessTwo(capped);
    PlusSmall(capped - 2, 2);
    PlusSmall(2, capped - 2);
    PlusSmall(2, capped);
  }

  lemma LessTwo(c: U32)
    requires c >= 2
    ensures Plus(c, TWO32 - BASE) == c - 2
  {
  }

  lemma CredStep(s: Slot, n: nat, wired: bool, ev: Event)
    requires s.run == n && s.since == 0 && ev.Sync? && ev.kind == Unlink && !ResetsAt(s, ev)
    requires n + 1 < TWO32 / 4 && s.score + BurstAdd(n + 1) + 2 < TWO32
    ensures var t := Step(s, wired, ev).0;
            t.run == n + 1 && t.since == 0 && t.score == s.score + BurstAdd(n + 1) + ev.arg % 2 * 2
  {
    PlusSmall(n, 1);
    CredContribution(Aged(Tenant(s, ev.count), Unlink), n + 1, ev.arg);
    hide Contribution, BurstAdd;
    PlusSmall(s.score, BurstAdd(n + 1) + ev.arg % 2 * 2);
  }

  lemma {:induction false} CredRun(s: Slot, n: nat, wired: bool, evs: seq<Event>)
    requires s.run == n && s.since == 0 && AllUnlinks(evs) && NoReset(s, wired, evs)
    requires n + |evs| < TWO32 / 4 && s.score + BurstScore(n + |evs|) - BurstScore(n) + 2 * |evs| < TWO32
    ensures Run(s, wired, evs).score == s.score + BurstScore(n + |evs|) - BurstScore(n) + 2 * Creds(evs)
    decreases |evs|
  {
    hide Step;
    if evs != [] {
      BurstSum(n);
      BurstGrows(n + 1, n + |evs|);
      CredStep(s, n, wired, evs[0]);
      CredRun(Step(s, wired, evs[0]).0, n + 1, wired, evs[1..]);
    }
  }

  /** A burst of unlinks by a fresh process scores what a plain one does and 2 more for every
      credential or canary path in it. */
  lemma CredentialBurst(wired: bool, evs: seq<Event>)
    requires AllUnlinks(evs) && NoReset(EMPTY, wired, evs) && 14 * |evs| < TWO32 / 4
    ensures Run(EMPTY, wired, evs).score == BurstScore(|evs|) + 2 * Creds(evs)
  {
    CredRun(EMPTY, 0, wired, evs);
  }

  // ---- egress budget ----------------------------------------------------------------

  /** Pid 0 has a byte counter but no score. */
  function StepAs(s: Slot, tracked: bool, wired: bool, ev: Event): (r: (Slot, Reply)) {
    if tracked then Step(s, wired, ev)
    else if ev.Net? then HandleNet(s, ev.octet, ev.len, false, wired)
    else (s, Reply(Commit, 0))
  }

  /** Pid 0 is never promoted or scored: its sends are counted and judged by size alone. */
  lemma PidZeroIsOnlyCounted(s: Slot, wired: bool, ev: Event)
    ensures StepAs(s, true, wired, ev) == Step(s, wired, ev)
    ensures StepAs(s, false, wired, ev)
         == if ev.Net? then
              var n := (s.bytes + ev.len) % TWO32;
              (s.(bytes := n), Reply(if ev.octet == 10 || (ev.len <= 256 && n <= 4096) then Commit else Abort, 0))
            else (s, Reply(Commit, 0))
  {
  }

  /** All bytes announced so far, and those sent off the local net with leave to commit. */
  datatype Tally = Tally(total: nat, committed: nat)

  function Count(n: Tally, ev: Event, reply: Reply): (m: Tally) {
    if !ev.Net? then n
    else Tally(n.total + ev.len, n.committed + if ev.octet != 10 && reply.decision == Commit then ev.len else 0)
  }

  function Tallied(s: Slot, n: Tally, tracked: bool, wired: bool, evs: seq<Event>): (m: Tally)
    decreases |evs|
  {
    if evs == [] then n
    else
      var (t, reply) := StepAs(s, tracked, wired, evs[0]);
      Tallied(t, Count(n, evs[0], reply), tracked, wired, evs[1..])
  }

  function Allowance(total: nat): (n: nat) {
    4352 * (total / TWO32) + Min(total % TWO32, 4096)
  }

  /** The counter is the total modulo 2^32 and the committed bytes stay within the allowance. */
  predicate WithinBudget(s: Slot, n: Tally) {
    s.bytes == n.total % TWO32 && n.committed <= Allowance(n.total)
  }

  lemma Carry(total: nat, len: U32)
    ensures (total % TWO32 + len) % TWO32 == (total + len) % TWO32
    ensures (total + len) / TWO32 == total / TWO32 + if total % TWO32 + len < TWO32 then 0 else 1
    ensures total % TWO32 + len < TWO32 ==> (total + len) % TWO32 == total % TWO32 + len
  {
  }

  lemma StepWithinBudget(s: Slot, n: Tally, tracked: bool, wired: bool, ev: Event)
    requires WithinBudget(s, n)
    ensures var (t, reply) := StepAs(s, tracked, wired, ev); WithinBudget(t, Count(n, ev, reply))
  {
    if ev.Net? {
      Carry(n.total, ev.len);
    }
  }

  lemma {:induction false} RunWithinBudget(s: Slot, n: Tally, tracked: bool, wired: bool, evs: seq<Event>)
    requires WithinBudget(s, n)
    ensures var m := Tallied(s, n, tracked, wired, evs); m.committed <= Allowance(m.total)
    decreases |evs|
  {
    if evs != [] {
      var (t, reply) := StepAs(s, tracked, wired, evs[0]);
      StepWithinBudget(s, n, tracked, wired, evs[0]);
      RunWithinBudget(t, Count(n, evs[0], reply), tracked, wired, evs[1..]);
    }
  }

  /** Until 2^32 bytes have been announced, no more than 4096 of them were let off the local
      net; each time the counter wraps at most 4352 more get through. */
  lemma EgressBudget(tracked: bool, wired: bool, evs: seq<Event>)
    ensures var m := Tallied(EMPTY, Tally(0, 0), tracked, wired, evs);
            && m.committed <= Allowance(m.total)
            && (m.total < TWO32 ==> m.committed <= 4096)
  {
    RunWithinBudget(EMPTY, Tally(0, 0), tracked, wired, evs);
  }

  /** And so many do: local sends push the counter to just below the wrap, and a send over it is
      counted as if it were the first. */
  lemma BudgetAfterWrap(wired: bool)
    ensures var fill := seq(16, _ => Net(11, 256));
            var evs := fill + [Net(10, 0xffff_ef00), Net(11, 256)] + fill;
            var m := Tallied(EMPTY, Tally(0, 0), false, wired, evs);
            m.committed == 8448 == Allowance(m.total)
  {
    var fill := seq(16, _ => Net(11, 256));
    var rest := [Net(10, 0xffff_ef00), Net(11, 256)] + fill;
    assert fill + [Net(10, 0xffff_ef00), Net(11, 256)] + fill == fill + rest;
    FillCommits(EMPTY, Tally(0, 0), wired, 16, rest);
    var s := EMPTY.(bytes := 4096);
    assert rest[0] == Net(10, 0xffff_ef00) && rest[1..] == [Net(11, 256)] + fill && rest[1..][1..] == fill;
    assert Plus(4096, 0xffff_ef00) == 0xffff_ff00 && Plus(0xffff_ff00, 256) == 0;
    var t := EMPTY.(bytes := 0xffff_ff00);
    assert StepAs(s, false, wired, rest[0]) == (t, Reply(Commit, 0));
    assert StepAs(t, false, wired, rest[1..][0]) == (EMPTY, Reply(Commit, 0));
    FillCommits(EMPTY, Tally(0x1_0000_0000, 4352), wired, 16, []);
    assert fill + [] == fill;
  }

  lemma {:induction false} FillCommits(s: Slot, n: Tally, wired: bool, k: nat, rest: seq<Event>)
    requires s.bytes + 256 * k <= 4096
    ensures Tallied(s, n, false, wired, seq(k, _ => Net(11, 256)) + rest)
         == Tallied(s.(bytes := s.bytes + 256 * k), Tally(n.total + 256 * k, n.committed + 256 * k), false, wired, rest)
    decreases k
  {
    var evs := seq(k, _ => Net(11, 256)) + rest;
    if k == 0 {
      assert evs == rest;
    } else {
      assert evs[1..] == seq(k - 1, _ => Net(11, 256)) + rest;
      assert evs[0] == Net(11, 256);
      PlusSmall(s.bytes, 256);
      FillCommits(s.(bytes := s.bytes + 256), Tally(n.total + 256, n.committed + 256), wired, k - 1, rest);
    }
  }

  /** The answer to a send, by the bytes announced so far, this one included: a redirect for a
      tracked, unpromoted process past 16384 of them off the local net; else leave to commit
      on the local net, or off it for at most 256 bytes within the first 4096. */
  lemma NetAnswer(s: Slot, octet: Byte, len: U32, tracked: bool, wired: bool)
    requires Inv(s)
    ensures var n, r := (s.bytes + len) % TWO32, HandleNet(s, octet, len, tracked, wired);
            if tracked && wired && !s.promoted && octet != 10 && n > 16384
            then r.1 == Reply(Synth, 2) && r.0.promoted && r.0.applied == 2 && r.0.bytes == n
            else r.1 == Reply(if octet == 10 || (len <= 256 && n <= 4096) then Commit else Abort, 0)
                 && r.0 == s.(bytes := n)
  {
  }

  /** Bytes announced by sends. */
  function Announced(evs: seq<Event>): (n: nat)
    decreases |evs|
  {
    if evs == [] then 0 else (if evs[0].Net? then evs[0].len else 0) + Announced(evs[1..])
  }

  /** No send off the local net comes with more than 16384 bytes announced. */
  predicate Modest(bytes: nat, evs: seq<Event>)
    decreases |evs|
  {
    evs == [] ||
    var n := bytes + if evs[0].Net? then evs[0].len else 0;
    !(evs[0].Net? && evs[0].octet != 10 && n > 16384) && Modest(n, evs[1..])
  }

  /** While nothing else raises it, a process is redirected if and only if one of its sends off
      the local net comes with more than 16384 bytes announced. */
  lemma {:induction false} RedirectedIff(s: Slot, evs: seq<Event>)
    requires !s.promoted && (forall i :: 0 <= i < |evs| ==> !evs[i].Async?) && NoReset(s, true, evs)
    requires s.bytes + Announced(evs) < TWO32
    ensures Redirects(s, true, evs) == if Modest(s.bytes, evs) then 0 else 1
    decreases |evs|
  {
    if evs != [] {
      var t := Step(s, true, evs[0]).0;
      if evs[0].Net? {
        PlusSmall(s.bytes, evs[0].len);
      }
      if t.promoted {
        RedirectsOnce(t, true, evs[1..]);
      } else {
        RedirectedIff(t, evs[1..]);
      }
    }
  }

  /** How often the run was answered with a redirect. */
  function Redirects(s: Slot, wired: bool, evs: seq<Event>): (n: nat)
    decreases |evs|
  {
    if evs == [] then 0
    else (if Step(s, wired, evs[0]).1.decision == Synth then 1 else 0) + Redirects(Step(s, wired, evs[0]).0, wired, evs[1..])
  }

  /** A redirect is answered at most once between resets. */
  lemma {:induction false} RedirectsOnce(s: Slot, wired: bool, evs: seq<Event>)
    requires NoReset(s, wired, evs)
    ensures Redirects(s, wired, evs) <= if s.promoted then 0 else 1
    decreases |evs|
  {
    if evs != [] {
      RedirectsOnce(Step(s, wired, evs[0]).0, wired, evs[1..]);
    }
  }
}

/** The event loop's state: the per-pid arrays, changed in place. */
module AnomalyEngine {
  import opened Machine
  import opened Anomaly

  class Engine {
    var slots: seq<Slot>
    const wired: bool

    predicate Valid()
      reads this
    {
      |slots| == PIDS
    }

    constructor (orch: bool)
      ensures Valid() && wired == orch && forall i :: 0 <= i < PIDS ==> slots[i] == EMPTY
    {
      slots := seq(PIDS, _ => EMPTY);
      wired := orch;
    }

    /** anomaly_score_fold. */
    method ScoreFold(pid: nat, weight: U32, bonus: U32) returns (tier: nat)
      requires Valid() && 1 <= pid < PIDS
      modifies this`slots
      ensures Valid()
      ensures var (s, t) := Fold(old(slots[pid]), Plus(weight, bonus)); slots == old(slots)[pid := s] && tier == t
    {
      var s := slots[pid];
      var score := Plus(s.score, Plus(weight, bonus));
      slots := slots[pid := s.(score := score)];
      var target := if score >= T2 then 2 else if score >= T1 then 1 else 0;
      tier := 0;
      if target > s.applied {
        slots := slots[pid := slots[pid].(applied := target)];
        tier := target;
      }
    }

    /** anomaly_handle_sync: a message for a pid outside 1 to 15 changes nothing. */
    method OnSync(pid: int, kind: Kind, arg: U64, count: U32) returns (tier: nat)
      requires Valid()
      modifies this`slots
      ensures Valid()
      ensures !(1 <= pid < PIDS) ==> slots == old(slots) && tier == 0
      ensures 1 <= pid < PIDS ==>
                var (s, t) := HandleSync(old(slots[pid]), kind, arg, count);
                slots == old(slots)[pid := s] && tier == t
    {
      if pid < 1 || pid >= PIDS {
        return 0;
      }
      ghost var was := slots;
      var s := slots[pid];
      if count != 0 && count < s.watermark {
        s := s.(score := 0, applied := 0, run := 0, since := 0, promoted := false);
      }
      s := s.(watermark := if count != 0 then count else Plus(s.watermark, 1));
      assert s == Tenant(was[pid], count);
      var bonus := 0;
      if kind == Unlink {
        if s.since > WINDOW {
          s := s.(run := 0);
        }
        s := s.(run := Plus(s.run, 1), since := 0);
        var step := (BASE * s.run) % TWO32;
        if step > CAP {
          step := CAP;
        }
        bonus := Plus(step, TWO32 - BASE);
        if arg % 2 == 1 {
          bonus := Plus(bonus, BASE);
        }
      } else {
        s := s.(since := Plus(s.since, 1));
      }
      slots := slots[pid := s];
      assert s == Aged(Tenant(was[pid], count), kind);
      assert Plus(Weight(kind), bonus) == Contribution(s, kind, arg);
      tier := ScoreFold(pid, Weight(kind), bonus);
      assert slots == was[pid := slots[pid]];
    }

    /** The single-fire escalation shared by the event branches. */
    method Escalate(pid: nat)
      requires Valid() && 1 <= pid < PIDS
      modifies this`slots
      ensures Valid() && slots == old(slots)[pid := Promote(old(slots[pid]))]
    {
      slots := slots[pid := slots[pid].(promoted := true)];
      var _ := ScoreFold(pid, T2, 0);
      slots := slots[pid := slots[pid].(since := Plus(slots[pid].since, 1))];
      assert slots == old(slots)[pid := slots[pid]];
    }

    method OnTrigger(pid: int, t: Trigger) returns (tier: nat)
      requires Valid()
      modifies this`slots
      ensures Valid()
      ensures !(1 <= pid < PIDS) ==> slots == old(slots) && tier == 0
      ensures 1 <= pid < PIDS ==>
                var (s, r) := HandleAsync(old(slots[pid]), t, wired); slots == old(slots)[pid := s] && tier == r
      ensures 1 <= pid < PIDS && wired && !old(slots[pid]).promoted
              && (t == Dns || t == Msyscall || t == Curvature(1) || t == Curvature(2) || (t.TcpOpen? && t.octet != 10)) ==>
                tier == 2 && slots[pid].promoted && (Inv(old(slots[pid])) ==> slots[pid].applied == 2)
      ensures (t.TcpOpen? && t.octet == 10) || (t.Curvature? && t.rule != 1 && t.rule != 2) ==>
                tier == 0 && slots == old(slots)
    {
      tier := 0;
      if 1 <= pid < PIDS && Fires(t) && !slots[pid].promoted && wired {
        Escalate(pid);
        tier := 2;
      }
    }

    /** The pre-commit branch.  A pid outside 0 to 15 has no counter and is judged by the size
        of the send alone. */
    method OnNet(pid: int, octet: Byte, len: U32) returns (reply: Reply)
      requires Valid()
      modifies this`slots
      ensures Valid()
      ensures !(0 <= pid < PIDS) ==>
                slots == old(slots) && reply == Reply(if octet != 10 && len > 256 then Abort else Commit, 0)
      ensures 0 <= pid < PIDS ==>
                var (s, r) := HandleNet(old(slots[pid]), octet, len, 1 <= pid, wired);
                slots == old(slots)[pid := s] && reply == r
      ensures octet == 10 ==> reply == Reply(Commit, 0)
    {
      if 0 <= pid < PIDS {
        slots := slots[pid := slots[pid].(bytes := Plus(slots[pid].bytes, len))];
      }
      var decision, tier := Commit, 0;
      if octet == 10 {
        decision := Commit;
      } else if len > 256 {
        decision := Abort;
      } else if 0 <= pid < PIDS && slots[pid].bytes > 4096 {
        decision := Abort;
      }
      if 1 <= pid < PIDS && octet != 10 && slots[pid].bytes > 16384 && !slots[pid].promoted && wired {
        decision, tier := Synth, 2;
        Escalate(pid);
      }
      reply := Reply(decision, tier);
    }
  }
}