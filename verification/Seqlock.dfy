/**
 The sequence lock over a process record (include/procd/shm.h): one writer brackets its
 updates with begin (set the low version bit) and end (add one); any number of readers
 load version, tier, version and retry until both loads agree on an even value.  Every
 load, store or read-modify-write is one step and steps interleave freely (sequential
 consistency).  The version counts without bound here; readers see its low 64 bits.
 */
module Seqlock {
  import opened Machine

  type Tier = int
  const TIER_0: Tier := 0

  datatype Mem = Mem(version: nat, tier: Tier)

  /** Spins left, when the reader is the bounded variant. */
  datatype Budget = Unbounded | Spins(left: nat)

  /** `since` is the time the call began and `until` the time it returned; `at` and `read` are
      the times of its loads so far. */
  datatype Reader =
    | Idle
    | Loop(since: nat, budget: Budget)
    | HaveVersion(since: nat, budget: Budget, at: nat, v1: U64)
    | HaveTier(since: nat, budget: Budget, at: nat, v1: U64, read: nat, t: Tier)
    | Returned(since: nat, until: nat, t: Tier, settled: bool)

  /** `past[k]` is the record after k steps, the current one included. */
  datatype Sys = Sys(mem: Mem, readers: seq<Reader>, past: seq<Mem>)

  datatype Event =
    | Begin | Store(t: Tier) | End
    | Call(r: nat, budget: Budget)
    | LoadVersion(r: nat) | LoadTier(r: nat) | Recheck(r: nat) | GiveUp(r: nat)

  function Word(version: nat): (w: U64) {
    version % TWO64
  }

  predicate Odd(version: nat) {
    version % 2 == 1
  }

  /** procd_seqlock_begin: fetch_or with 1. */
  function SetLow(version: nat): (v: nat)
    ensures v % 2 == 1 && version <= v <= version + 1
  {
    if Odd(version) then version else version + 1
  }

  /** One loop iteration spent; the bounded loop has one fewer left. */
  function Spend(b: Budget): (b': Budget) {
    match b
    case Unbounded => Unbounded
    case Spins(n) => Spins(if n > 0 then n - 1 else 0)
  }

  /** Writer steps respect the brackets; reader steps follow the loop's program order. */
  predicate Enabled(s: Sys, e: Event) {
    match e
    case Begin => !Odd(s.mem.version)
    case Store(_) => Odd(s.mem.version)
    case End => Odd(s.mem.version)
    case Call(r, _) => r < |s.readers| && (s.readers[r].Idle? || s.readers[r].Returned?)
    case LoadVersion(r) => r < |s.readers| && s.readers[r].Loop? && s.readers[r].budget != Spins(0)
    case LoadTier(r) => r < |s.readers| && s.readers[r].HaveVersion?
    case Recheck(r) => r < |s.readers| && s.readers[r].HaveTier?
    case GiveUp(r) => r < |s.readers| && s.readers[r].Loop? && s.readers[r].budget == Spins(0)
  }

  function ReaderAfter(s: Sys, e: Event): (q: Reader)
    requires Enabled(s, e) && !e.Begin? && !e.Store? && !e.End?
  {
    var now, x := if s.past == [] then 0 else |s.past| - 1, s.readers[e.r];
    match e
    case Call(_, b) => Loop(now, b)
    case LoadVersion(_) =>
      if Odd(Word(s.mem.version)) then Loop(x.since, Spend(x.budget))
      else HaveVersion(x.since, x.budget, now, Word(s.mem.version))
    case LoadTier(_) => HaveTier(x.since, x.budget, x.at, x.v1, now, s.mem.tier)
    case Recheck(_) =>
      if Word(s.mem.version) == x.v1 then Returned(x.since, now, x.t, true) else Loop(x.since, Spend(x.budget))
    case GiveUp(_) => Returned(x.since, now, TIER_0, false)
  }

  function Next(s: Sys, e: Event): (s': Sys)
    requires Enabled(s, e)
  {
    match e
    case Begin => Write(s, Mem(SetLow(s.mem.version), s.mem.tier))
    case Store(t) => Write(s, Mem(s.mem.version, t))
    case End => Write(s, Mem(s.mem.version + 1, s.mem.tier))
    case _ => s.(readers := s.readers[e.r := ReaderAfter(s, e)], past := s.past + [s.mem])
  }

  function Write(s: Sys, m: Mem): (s': Sys) {
    s.(mem := m, past := s.past + [m])
  }

  /** Between the two version loads of one attempt the writer completes fewer than 2^63
      sections, so the 64-bit version cannot come round to the same value. */
  predicate NoWrap(s: Sys, e: Event) {
    (e.Recheck? && e.r < |s.readers| && s.readers[e.r].HaveTier? && s.readers[e.r].at < |s.past|) ==>
      s.mem.version < s.past[s.readers[e.r].at].version + TWO64
  }

  /** The version never goes back, and while it stays on one even value the tier is fixed. */
  predicate History(past: seq<Mem>) {
    && past != []
    && (forall i, j :: 0 <= i < j < |past| ==> past[i].version <= past[j].version)
    && (forall i, j :: 0 <= i < j < |past| && past[i].version == past[j].version && !Odd(past[i].version)
          ==> past[i].tier == past[j].tier)
  }

  /** A value that was the committed tier, with no section open, at a time in [from, to]. */
  predicate CommittedBetween(past: seq<Mem>, from: nat, to: int, t: Tier) {
    exists k :: from <= k <= to < |past| && !Odd(past[k].version) && past[k].tier == t
  }

  predicate ReaderInv(past: seq<Mem>, q: Reader) {
    match q
    case Idle => true
    case Loop(since, _) => since < |past|
    case HaveVersion(since, _, at, v1) => since <= at < |past| && !Odd(past[at].version) && v1 == Word(past[at].version)
    case HaveTier(since, _, at, v1, read, t) =>
      && since <= at <= read < |past|
      && !Odd(past[at].version) && v1 == Word(past[at].version)
      && t == past[read].tier
    case Returned(since, until, t, settled) =>
      since <= until < |past| && if settled then CommittedBetween(past, since, until, t) else t == TIER_0
  }

  predicate Inv(s: Sys) {
    && History(s.past)
    && s.past[|s.past| - 1] == s.mem
    && forall r :: 0 <= r < |s.readers| ==> ReaderInv(s.past, s.readers[r])
  }

  lemma Parity(version: nat)
    ensures Odd(Word(version)) <==> Odd(version)
  {
  }

  /** Equal low 64 bits less than 2^64 apart are equal versions. */
  lemma SameWord(v: nat, w: nat)
    requires v <= w < v + TWO64 && Word(v) == Word(w)
    ensures v == w
  {
  }

  lemma HistoryGrows(past: seq<Mem>, m: Mem)
    requires History(past)
    requires var l := past[|past| - 1];
             m.version >= l.version && (m.version == l.version && !Odd(m.version) ==> m.tier == l.tier)
    ensures History(past + [m])
  {
    var p, n := past + [m], |past|;
    forall i | 0 <= i < n
      ensures p[i].version <= p[n].version
      ensures p[i].version == p[n].version && !Odd(p[i].version) ==> p[i].tier == p[n].tier
    {
      assert past[i].version <= past[n - 1].version;
    }
  }

  lemma ReaderInvGrows(past: seq<Mem>, m: Mem, q: Reader)
    requires ReaderInv(past, q)
    ensures ReaderInv(past + [m], q)
  {
    var p := past + [m];
    if q.Returned? && q.settled {
      var k :| q.since <= k <= q.until < |past| && !Odd(past[k].version) && past[k].tier == q.t;
      assert p[k] == past[k];
    }
  }

  /** The attempt that returns saw no section open between its first and last load. */
  lemma RecheckSettles(s: Sys, r: nat)
    requires Inv(s) && r < |s.readers| && s.readers[r].HaveTier? && NoWrap(s, Recheck(r))
    requires Word(s.mem.version) == s.readers[r].v1
    ensures CommittedBetween(s.past, s.readers[r].since, |s.past| - 1, s.readers[r].t)
  {
    var q, n := s.readers[r], |s.past| - 1;
    assert ReaderInv(s.past, q);
    assert s.past[q.at].version <= s.past[n].version;
    SameWord(s.past[q.at].version, s.mem.version);
    assert s.past[q.at].version <= s.past[q.read].version <= s.past[n].version;
    assert !Odd(s.past[q.read].version) && s.past[q.read].tier == q.t;
  }

  lemma ReaderStep(s: Sys, e: Event)
    requires Inv(s) && Enabled(s, e) && NoWrap(s, e) && !e.Begin? && !e.Store? && !e.End?
    ensures ReaderInv(s.past, ReaderAfter(s, e))
  {
    assert ReaderInv(s.past, s.readers[e.r]);
    Parity(s.mem.version);
    if e.Recheck? && Word(s.mem.version) == s.readers[e.r].v1 {
      RecheckSettles(s, e.r);
    }
  }

  lemma StepInv(s: Sys, e: Event)
    requires Inv(s) && Enabled(s, e) && NoWrap(s, e)
    ensures Inv(Next(s, e))
  {
    var s' := Next(s, e);
    var m := s'.mem;
    HistoryGrows(s.past, m);
    if !e.Begin? && !e.Store? && !e.End? {
      ReaderStep(s, e);
      ReaderInvGrows(s.past, m, ReaderAfter(s, e));
    }
    forall r | 0 <= r < |s.readers|
      ensures ReaderInv(s'.past, s'.readers[r])
    {
      ReaderInvGrows(s.past, m, s.readers[r]);
    }
  }

  predicate IsRun(s: Sys, events: seq<Event>)
    decreases |events|
  {
    events == [] || (Enabled(s, events[0]) && IsRun(Next(s, events[0]), events[1..]))
  }

  function Run(s: Sys, events: seq<Event>): (s': Sys)
    requires IsRun(s, events)
    decreases |events|
  {
    if events == [] then s else Run(Next(s, events[0]), events[1..])
  }

  /** No attempt of the run is overtaken by 2^63 sections. */
  predicate Unwrapped(s: Sys, events: seq<Event>)
    requires IsRun(s, events)
    decreases |events|
  {
    events == [] || (NoWrap(s, events[0]) && Unwrapped(Next(s, events[0]), events[1..]))
  }

  predicate Initial(s: Sys) {
    && !Odd(s.mem.version) && s.past == [s.mem]
    && forall r :: 0 <= r < |s.readers| ==> s.readers[r].Idle?
  }

  lemma {:induction false} RunInv(s: Sys, events: seq<Event>)
    requires Inv(s) && IsRun(s, events) && Unwrapped(s, events)
    ensures Inv(Run(s, events))
    decreases |events|
  {
    if events != [] {
      StepInv(s, events[0]);
      RunInv(Next(s, events[0]), events[1..]);
    }
  }

  /** Linearizability: in every interleaving, a tier a reader has returned after a settled
      read was the committed tier, with no section open, at some instant between the start of
      that call and its return; a bounded reader that gave up returns tier 0. */
  lemma ReadsAreLinearizable(s: Sys, events: seq<Event>, r: nat)
    requires Initial(s) && IsRun(s, events) && Unwrapped(s, events) && r < |Run(s, events).readers|
    requires Run(s, events).readers[r].Returned?
    ensures var f := Run(s, events);
            var q := f.readers[r];
            if q.settled
            then exists k :: q.since <= k <= q.until < |f.past| && f.past[k].version % 2 == 0 && f.past[k].tier == q.t
            else q.t == 0
  {
    RunInv(s, events);
    var f := Run(s, events);
    assert ReaderInv(f.past, f.readers[r]);
  }

  // ---- the bounded loop -------------------------------------------------------------

  /** The attempts a reader has begun: its first version loads. */
  function Attempts(events: seq<Event>, r: nat): (n: nat)
    decreases |events|
  {
    if events == [] then 0 else (if events[0] == LoadVersion(r) then 1 else 0) + Attempts(events[1..], r)
  }

  /** Where a bounded reader of n spins can be after k attempts. */
  predicate Spent(q: Reader, n: nat, k: nat) {
    match q
    case Idle => false
    case Loop(_, b) => k <= n && b == Spins(n - k)
    case HaveVersion(_, b, _, _) => 0 < k <= n && b == Spins(n - k + 1)
    case HaveTier(_, b, _, _, _, _) => 0 < k <= n && b == Spins(n - k + 1)
    case Returned(_, _, _, settled) => if settled then 0 < k <= n else k == n
  }

  lemma {:induction false} SpentInRun(s: Sys, events: seq<Event>, r: nat, n: nat, k: nat)
    requires IsRun(s, events) && r < |s.readers| && Spent(s.readers[r], n, k)
    requires forall i, b :: 0 <= i < |events| ==> events[i] != Call(r, b)
    ensures r < |Run(s, events).readers| && Spent(Run(s, events).readers[r], n, k + Attempts(events, r))
    decreases |events|
  {
    if events != [] {
      var t := Next(s, events[0]);
      SpentInRun(t, events[1..], r, n, k + if events[0] == LoadVersion(r) then 1 else 0);
    }
  }

  /** A bounded reader makes at most its n attempts, settles within them or gives up after exactly
      n, whatever the writer and the other readers do. */
  lemma BoundedReader(s: Sys, events: seq<Event>, r: nat, n: nat)
    requires Enabled(s, Call(r, Spins(n))) && IsRun(Next(s, Call(r, Spins(n))), events)
    requires forall i, b :: 0 <= i < |events| ==> events[i] != Call(r, b)
    ensures var f, k := Run(Next(s, Call(r, Spins(n))), events), Attempts(events, r);
            && r < |f.readers| && k <= n
            && (f.readers[r].Returned? ==> if f.readers[r].settled then k > 0 else k == n)
            && (Enabled(f, GiveUp(r)) ==> k == n)
            && (Enabled(f, LoadVersion(r)) ==> k < n)
  {
    hide Attempts;
    SpentInRun(Next(s, Call(r, Spins(n))), events, r, n, 0);
  }

  // ---- the version comes round ------------------------------------------------------

  lemma {:induction false} RunAppend(s: Sys, a: seq<Event>, b: seq<Event>)
    requires IsRun(s, a) && IsRun(Run(s, a), b)
    ensures IsRun(s, a + b) && Run(s, a + b) == Run(Run(s, a), b)
    decreases |a|
  {
    if a == [] {
      assert a + b == b;
    } else {
      assert (a + b)[0] == a[0] && (a + b)[1..] == a[1..] + b;
      RunAppend(Next(s, a[0]), a[1..], b);
    }
  }

  /** n sections in which the writer stores nothing. */
  function Sections(n: nat): (events: seq<Event>) {
    if n == 0 then [] else [Begin, End] + Sections(n - 1)
  }

  /** What the record history holds after those sections: nothing but the committed tier. */
  predicate Extends(past: seq<Mem>, more: seq<Mem>, t: Tier) {
    past <= more && forall k :: |past| <= k < |more| ==> more[k].tier == t
  }

  lemma {:induction false} SectionsRun(s: Sys, n: nat)
    requires !Odd(s.mem.version)
    ensures IsRun(s, Sections(n))
    ensures var f := Run(s, Sections(n));
            && f.mem == Mem(s.mem.version + 2 * n, s.mem.tier) && f.readers == s.readers
            && Extends(s.past, f.past, s.mem.tier)
    decreases n
  {
    if n > 0 {
      var a := Next(s, Begin);
      var b := Next(a, End);
      var rest := Sections(n - 1);
      assert Sections(n)[0] == Begin && Sections(n)[1..] == [End] + rest;
      assert ([End] + rest)[0] == End && ([End] + rest)[1..] == rest;
      assert IsRun(a, [End] + rest) <==> IsRun(b, rest);
      SectionsRun(b, n - 1);
    }
  }

  /** A reader loads the version, then the tier inside a section that stores t and takes it
      back; then come sections until the 64-bit version is the one it loaded. */
  function Overtaken(committed: Tier, t: Tier): (events: seq<Event>) {
    [Call(0, Unbounded), LoadVersion(0), Begin, Store(t), LoadTier(0), Store(committed), End]
    + Sections(TWO64 / 2 - 1)
  }

  lemma CaughtInside(s: Sys, t: Tier)
    requires Initial(s) && s.readers != []
    ensures var es := [Call(0, Unbounded), LoadVersion(0), Begin, Store(t)];
            && IsRun(s, es)
            && var f := Run(s, es);
               && f.mem == Mem(s.mem.version + 1, t) && |f.readers| > 0
               && f.readers[0] == HaveVersion(0, Unbounded, 1, Word(s.mem.version))
               && f.past == [s.mem, s.mem, s.mem, Mem(s.mem.version + 1, s.mem.tier), Mem(s.mem.version + 1, t)]
  {
    hide IsRun, Run;
    Parity(s.mem.version);
    var s1 := Next(s, Call(0, Unbounded));
    var s2 := Next(s1, LoadVersion(0));
    var s3 := Next(s2, Begin);
    LastStep(s3, Store(t));
    Front(s2, Begin, [Store(t)]);
    assert [Begin] + [Store(t)] == [Begin, Store(t)];
    Front(s1, LoadVersion(0), [Begin, Store(t)]);
    assert [LoadVersion(0)] + [Begin, Store(t)] == [LoadVersion(0), Begin, Store(t)];
    Front(s, Call(0, Unbounded), [LoadVersion(0), Begin, Store(t)]);
    assert [Call(0, Unbounded)] + [LoadVersion(0), Begin, Store(t)] == [Call(0, Unbounded), LoadVersion(0), Begin, Store(t)];
  }

  lemma TakenBack(s: Sys, c: Tier)
    requires Odd(s.mem.version) && |s.readers| > 0 && s.readers[0].HaveVersion?
    ensures var es := [LoadTier(0), Store(c), End];
            && IsRun(s, es)
            && var f := Run(s, es);
               && f.mem == Mem(s.mem.version + 1, c) && |f.readers| > 0
               && f.readers[0].HaveTier? && f.readers[0].v1 == s.readers[0].v1 && f.readers[0].t == s.mem.tier
               && f.past == s.past + [s.mem, Mem(s.mem.version, c), Mem(s.mem.version + 1, c)]
  {
    hide IsRun, Run;
    var s1 := Next(s, LoadTier(0));
    var s2 := Next(s1, Store(c));
    LastStep(s2, End);
    Front(s1, Store(c), [End]);
    assert [Store(c)] + [End] == [Store(c), End];
    Front(s, LoadTier(0), [Store(c), End]);
    assert [LoadTier(0)] + [Store(c), End] == [LoadTier(0), Store(c), End];
  }

  lemma OvertakenPrefix(s: Sys, t: Tier)
    requires Initial(s) && s.readers != []
    ensures var es := [Call(0, Unbounded), LoadVersion(0), Begin, Store(t), LoadTier(0), Store(s.mem.tier), End];
            && IsRun(s, es)
            && var f := Run(s, es);
               && f.mem == Mem(s.mem.version + 2, s.mem.tier)
               && |f.readers| > 0 && f.readers[0].HaveTier?
               && f.readers[0].v1 == Word(s.mem.version) && f.readers[0].t == t
               && forall k :: 0 <= k < |f.past| && !Odd(f.past[k].version) ==> f.past[k].tier == s.mem.tier
  {
    hide IsRun, Run, Word;
    var a, b := [Call(0, Unbounded), LoadVersion(0), Begin, Store(t)], [LoadTier(0), Store(s.mem.tier), End];
    CaughtInside(s, t);
    TakenBack(Run(s, a), s.mem.tier);
    RunAppend(s, a, b);
    assert a + b == [Call(0, Unbounded), LoadVersion(0), Begin, Store(t), LoadTier(0), Store(s.mem.tier), End];
  }

  lemma LastStep(s: Sys, e: Event)
    requires Enabled(s, e)
    ensures IsRun(s, [e]) && Run(s, [e]) == Next(s, e)
  {
  }

  lemma Front(s: Sys, e: Event, rest: seq<Event>)
    requires Enabled(s, e) && IsRun(Next(s, e), rest)
    ensures IsRun(s, [e] + rest) && Run(s, [e] + rest) == Run(Next(s, e), rest)
  {
    assert ([e] + rest)[1..] == rest;
  }

  /** The no-wrap hypothesis is needed: from every initial state with a reader there is a run
      whose last recheck accepts a tier that was never committed. */
  lemma WrapDefeatsRecheck(s: Sys, t: Tier)
    requires Initial(s) && s.readers != [] && t != s.mem.tier
    ensures var es := Overtaken(s.mem.tier, t) + [Recheck(0)];
            && IsRun(s, es)
            && var f := Run(s, es);
               && |f.readers| > 0 && f.readers[0].Returned? && f.readers[0].settled && f.readers[0].t == t
               && forall k :: 0 <= k < |f.past| && !Odd(f.past[k].version) ==> f.past[k].tier != t
  {
    hide IsRun, Run, Enabled, Next, Odd, Sections, Word;
    var es := [Call(0, Unbounded), LoadVersion(0), Begin, Store(t), LoadTier(0), Store(s.mem.tier), End];
    OvertakenPrefix(s, t);
    var f := Run(s, es);
    EvenAgain(s.mem.version);
    SectionsRun(f, TWO64 / 2 - 1);
    RunAppend(s, es, Sections(TWO64 / 2 - 1));
    var g := Run(s, Overtaken(s.mem.tier, t));
    RecheckAccepts(g, s.mem.version);
    RunAppend(s, Overtaken(s.mem.tier, t), [Recheck(0)]);
  }

  lemma EvenAgain(version: nat)
    requires !Odd(version)
    ensures !Odd(version + 2)
  {
  }

  lemma RecheckAccepts(g: Sys, version: nat)
    requires |g.readers| > 0 && g.readers[0].HaveTier? && g.readers[0].v1 == Word(version)
    requires g.mem.version == version + TWO64
    ensures IsRun(g, [Recheck(0)])
    ensures var f := Run(g, [Recheck(0)]);
            && |f.readers| == |g.readers| && f.past == g.past + [g.mem]
            && f.readers[0].Returned? && f.readers[0].settled && f.readers[0].t == g.readers[0].t
  {
    LastStep(g, Recheck(0));
  }

  /** An attempt with no writer step between its loads succeeds, whatever came before it. */
  lemma QuietAttemptReturns(s: Sys, r: nat)
    requires Enabled(s, LoadVersion(r)) && !Odd(s.mem.version)
    ensures var a := Next(s, LoadVersion(r));
            && Enabled(a, LoadTier(r))
            && var b := Next(a, LoadTier(r));
               && Enabled(b, Recheck(r))
               && var q := Next(b, Recheck(r)).readers[r];
                  q.Returned? && q.settled && q.since == s.readers[r].since && q.t == s.mem.tier
  {
    Parity(s.mem.version);
  }
}
