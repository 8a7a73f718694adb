/**
 The suspicion engine (src/anomaly/main.c): per-process scores, tiers, unlink bursts and the
 pre-commit byte budget, as a step function on one process's record.
 */
module Anomaly {
  import opened Machine

  const T1: nat := 20
  const T2: nat := 40
  const WINDOW: nat := 8
  const BASE: nat := 2
  const CAP: nat := 12
  const PIDS: nat := 16

  datatype Kind = Write | Unlink | Cred | Exec
  datatype Trigger = Curvature(rule: U32) | Dns | Msyscall | TcpOpen(octet: Byte)

  /** Messages the engine serves.  `octet` is the first octet of the destination address. */
  datatype Event =
    | Sync(kind: Kind, arg: U64, count: U32)
    | Net(octet: Byte, len: U32)
    | Async(trigger: Trigger)
    | Other

  /** One process's entry in the file-scope arrays. */
  datatype Slot = Slot(
    score: U32, applied: nat, watermark: U32, promoted: bool,
    run: U32, since: U32, bytes: U32)

  datatype Decision = Commit | Abort | Synth
  datatype Reply = Reply(decision: Decision, tier: nat)

  const EMPTY: Slot := Slot(0, 0, 0, false, 0, 0, 0)

  /** 32-bit addition. */
  function Plus(a: int, b: int): (c: U32) {
    (a + b) % TWO32
  }

  function TierOf(score: nat): (t: nat)
    ensures t <= 2
  {
    if score >= T2 then 2 else if score >= T1 then 1 else 0
  }

  function Weight(kind: Kind): (w: nat) {
    match kind
    case Write => 1
    case Unlink => BASE
    case Exec => 8
    case Cred => 15
  }

  /** anomaly_score_fold with the two contributions already added up. */
  function Fold(s: Slot, add: U32): (r: (Slot, nat)) {
    var score := Plus(s.score, add);
    var target := TierOf(score);
    if target > s.applied then (s.(score := score, applied := target), target) else (s.(score := score), 0)
  }

  /** The count fell below the last one seen: a new process has the slot. */
  predicate Resets(s: Slot, count: U32) {
    count != 0 && count < s.watermark
  }

  /** The byte counter is not part of the reset. */
  function Tenant(s: Slot, count: U32): (t: Slot) {
    var r := if Resets(s, count) then EMPTY.(bytes := s.bytes, watermark := s.watermark) else s;
    r.(watermark := if count != 0 then count else Plus(s.watermark, 1))
  }

  /** The run and window counters after a scored event. */
  function Aged(s: Slot, kind: Kind): (t: Slot) {
    if kind == Unlink then s.(run := Plus(if s.since > WINDOW then 0 else s.run, 1), since := 0)
    else s.(since := Plus(s.since, 1))
  }

  /** What the event adds, given the record after ageing: an unlink counts twice its place in
      the burst, at most 12, and 2 more for a credential or canary path. */
  function Contribution(s: Slot, kind: Kind, arg: U64): (add: U32) {
    if kind != Unlink then Weight(kind)
    else
      var step := (BASE * s.run) % TWO32;
      var capped := if step > CAP then CAP else step;
      var bonus := Plus(capped, TWO32 - BASE);
      Plus(Weight(kind), if arg % 2 == 1 then Plus(bonus, BASE) else bonus)
  }

  /** anomaly_handle_sync. */
  function HandleSync(s: Slot, kind: Kind, arg: U64, count: U32): (r: (Slot, nat)) {
    var a := Aged(Tenant(s, count), kind);
    Fold(a, Contribution(a, kind, arg))
  }

  /** Single-fire escalation of the network and graph triggers. */
  function Promote(s: Slot): (r: Slot) {
    var f := Fold(s.(promoted := true), T2).0;
    f.(since := Plus(f.since, 1))
  }

  predicate Fires(t: Trigger) {
    match t
    case Curvature(rule) => 1 <= rule <= 2
    case TcpOpen(octet) => octet != 10
    case _ => true
  }

  function HandleAsync(s: Slot, t: Trigger, wired: bool): (r: (Slot, nat)) {
    if Fires(t) && !s.promoted && wired then (Promote(s), 2) else (s, 0)
  }

  /** The pre-commit rules; `tracked` says that the pid is one that can be promoted. */
  function HandleNet(s: Slot, octet: Byte, len: U32, tracked: bool, wired: bool): (r: (Slot, Reply)) {
    var c := s.(bytes := Plus(s.bytes, len));
    var decision := if octet == 10 then Commit else if len > 256 || c.bytes > 4096 then Abort else Commit;
    if tracked && octet != 10 && c.bytes > 16384 && !c.promoted && wired
    then (Promote(c), Reply(Synth, 2))
    else (c, Reply(decision, 0))
  }

  /** One message for a tracked process (pid 1 to 15). */
  function Step(s: Slot, wired: bool, ev: Event): (r: (Slot, Reply)) {
    match ev
    case Sync(kind, arg, count) => var (t, tier) := HandleSync(s, kind, arg, count); (t, Reply(Commit, tier))
    case Net(octet, len) => HandleNet(s, octet, len, true, wired)
    case Async(trigger) => var (t, tier) := HandleAsync(s, trigger, wired); (t, Reply(Commit, tier))
    case Other => (s, Reply(Commit, 0))
  }

  function Run(s: Slot, wired: bool, evs: seq<Event>): (r: Slot)
    decreases |evs|
  {
    if evs == [] then s else Run(Step(s, wired, evs[0]).0, wired, evs[1..])
  }

  predicate ResetsAt(s: Slot, ev: Event) {
    ev.Sync? && Resets(s, ev.count)
  }

  // ---- tier and score ---------------------------------------------------------------

  predicate Inv(s: Slot) {
    TierOf(s.score) <= s.applied <= 2 && (s.promoted ==> s.applied == 2)
  }

  lemma StepInv(s: Slot, wired: bool, ev: Event)
    requires Inv(s)
    ensures Inv(Step(s, wired, ev).0)
  {
  }

  /** In every run from an empty record the applied tier covers the score, and a promoted
      process is at tier 2: also after the 32-bit score has wrapped. */
  lemma {:induction false} TierCoversScore(s: Slot, wired: bool, evs: seq<Event>)
    requires Inv(s)
    ensures Inv(Run(s, wired, evs))
    decreases |evs|
  {
    if evs != [] {
      StepInv(s, wired, evs[0]);
      TierCoversScore(Step(s, wired, evs[0]).0, wired, evs[1..]);
    }
  }

  /** What the step adds to the score, and the sum since the last reset without wrap-around. */
  function Added(s: Slot, wired: bool, ev: Event): (n: nat) {
    match ev
    case Sync(kind, arg, count) => Contribution(Aged(Tenant(s, count), kind), kind, arg)
    case Net(octet, len) => if HandleNet(s, octet, len, true, wired).1.decision == Synth then T2 else 0
    case Async(trigger) => if HandleAsync(s, trigger, wired).1 == 2 then T2 else 0
    case Other => 0
  }

  function Suspicion(s: Slot, sum: nat, wired: bool, evs: seq<Event>): (n: nat)
    decreases |evs|
  {
    if evs == [] then sum
    else
      var before := if ResetsAt(s, evs[0]) then 0 else sum;
      Suspicion(Step(s, wired, evs[0]).0, before + Added(s, wired, evs[0]), wired, evs[1..])
  }

  /** The record agrees with the unbounded sum as long as that sum fits. */
  predicate Exact(s: Slot, sum: nat) {
    sum < TWO32 ==> s.score == sum && s.applied == TierOf(sum)
  }

  lemma PlusSmall(a: nat, b: nat)
    requires a + b < TWO32
    ensures Plus(a, b) == a + b
  {
  }

  lemma StepExact(s: Slot, sum: nat, wired: bool, ev: Event)
    requires Exact(s, sum)
    ensures Exact(Step(s, wired, ev).0, (if ResetsAt(s, ev) then 0 else sum) + Added(s, wired, ev))
  {
    var before := if ResetsAt(s, ev) then 0 else sum;
    if before + Added(s, wired, ev) < TWO32 {
      PlusSmall(before, Added(s, wired, ev));
    }
  }

  /** Until the sum since the last reset reaches 2^32, score and tier are exactly those of the
      sum. */
  lemma {:induction false} ScoreIsExact(s: Slot, sum: nat, wired: bool, evs: seq<Event>)
    requires Exact(s, sum)
    ensures Exact(Run(s, wired, evs), Suspicion(s, sum, wired, evs))
    decreases |evs|
  {
    if evs != [] {
      var before := if ResetsAt(s, evs[0]) then 0 else sum;
      StepExact(s, sum, wired, evs[0]);
      ScoreIsExact(Step(s, wired, evs[0]).0, before + Added(s, wired, evs[0]), wired, evs[1..]);
    }
  }

  // ---- replies ----------------------------------------------------------------------

  predicate NoReset(s: Slot, wired: bool, evs: seq<Event>)
    decreases |evs|
  {
    evs == [] || (!ResetsAt(s, evs[0]) && NoReset(Step(s, wired, evs[0]).0, wired, evs[1..]))
  }

  /** The synchronous replies among them. */
  function SyncReplies(s: Slot, wired: bool, evs: seq<Event>): (r: seq<nat>)
    decreases |evs|
  {
    if evs == [] then []
    else
      (if evs[0].Sync? then [Step(s, wired, evs[0]).1.tier] else [])
      + SyncReplies(Step(s, wired, evs[0]).0, wired, evs[1..])
  }

  /** Apart from zeros, each reply is above `low` and above every reply before it. */
  predicate Rising(low: nat, r: seq<nat>)
    decreases |r|
  {
    r == [] || (if r[0] == 0 then Rising(low, r[1..]) else r[0] > low && Rising(r[0], r[1..]))
  }

  lemma {:induction false} RisingFromHigher(low: nat, high: nat, r: seq<nat>)
    requires low <= high && Rising(high, r)
    ensures Rising(low, r)
    decreases |r|
  {
    if r != [] && r[0] == 0 {
      RisingFromHigher(low, high, r[1..]);
    }
  }

  /** Within a tenancy the nonzero synchronous replies strictly increase. */
  lemma {:induction false} SyncRepliesRise(s: Slot, wired: bool, evs: seq<Event>)
    requires Inv(s) && NoReset(s, wired, evs)
    ensures Rising(s.applied, SyncReplies(s, wired, evs))
    decreases |evs|
  {
    if evs != [] {
      var (t, reply) := Step(s, wired, evs[0]);
      StepInv(s, wired, evs[0]);
      SyncRepliesRise(t, wired, evs[1..]);
      var rest := SyncReplies(t, wired, evs[1..]);
      assert s.applied <= t.applied;
      RisingFromHigher(s.applied, t.applied, rest);
      if evs[0].Sync? {
        assert ([reply.tier] + rest)[1..] == rest;
      } else {
        assert [] + rest == rest;
      }
    }
  }
}
