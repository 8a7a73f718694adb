/**
 The guest side of the suspicion engine: every writer of a guest's tier (src/lucas/functor.c,
 src/lucas/anomaly.c, the pledge gate of src/lucas/dispatch.c, the quarantines and the
 operator's order in src/orch/main.c), run together with the engine's record of the guest.
 */
module AnomalyGuest {
  import opened Machine
  import opened Anomaly

  datatype Guest = Guest(tier: int, trusted: bool, violations: U32)

  /** lucas_set_tier: a trusted guest is never raised; the old tier is not looked at. */
  function SetTier(g: Guest, tier: int): (r: Guest) {
    if g.trusted && tier > 0 then g else g.(tier := tier)
  }

  /** anomaly_apply_reply_tier. */
  function ApplyReply(g: Guest, target: int): (r: Guest) {
    if target > g.tier then SetTier(g, target) else g
  }

  /** What a report's sender does with the reply: tier 0 says nothing. */
  function Heed(g: Guest, target: int): (r: Guest) {
    if target > 0 then ApplyReply(g, target) else g
  }

  /** The pledge gate: tier 1 on every violation, then tier 2 from the third on. */
  function Violate(g: Guest): (r: Guest) {
    var h := SetTier(g.(violations := Plus(g.violations, 1)), 1);
    if h.tier == 1 && h.violations >= 3 then SetTier(h, 2) else h
  }

  datatype Happening =
    | Reported(ev: Event)
    | Violation
    | Quarantine
    | Order(tier: int)

  /** The engine's record of a guest, and the guest. */
  datatype Pair = Pair(slot: Slot, guest: Guest)

  /** A report goes to the engine and its reply is applied; the engine only logs a violation. */
  function Next(p: Pair, wired: bool, h: Happening): (r: Pair) {
    match h
    case Reported(ev) => Pair(Step(p.slot, wired, ev).0, Heed(p.guest, Step(p.slot, wired, ev).1.tier))
    case Violation => p.(guest := Violate(p.guest))
    case Quarantine => p.(guest := SetTier(p.guest, 2))
    case Order(tier) => p.(guest := SetTier(p.guest, tier))
  }

  function History(p: Pair, wired: bool, hs: seq<Happening>): (r: Pair)
    decreases |hs|
  {
    if hs == [] then p else History(Next(p, wired, hs[0]), wired, hs[1..])
  }

  // ---- when the tier goes down ------------------------------------------------------

  /** The happening lowers the tier of this guest. */
  predicate Lowers(g: Guest, h: Happening) {
    match h
    case Reported(_) => false
    case Violation => !g.trusted && (if Plus(g.violations, 1) < 3 then g.tier > 1 else g.tier > 2)
    case Quarantine => !g.trusted && g.tier > 2
    case Order(tier) => tier < g.tier && (g.trusted ==> tier <= 0)
  }

  lemma TierDropsIff(p: Pair, wired: bool, h: Happening)
    ensures Next(p, wired, h).guest.tier < p.guest.tier <==> Lowers(p.guest, h)
  {
  }

  /** Nothing in the history lowers the tier. */
  predicate Steady(p: Pair, wired: bool, hs: seq<Happening>)
    decreases |hs|
  {
    hs == [] || (!Lowers(p.guest, hs[0]) && Steady(Next(p, wired, hs[0]), wired, hs[1..]))
  }

  /** The tier after each part of the history is at least the one before it. */
  predicate Climbs(p: Pair, wired: bool, hs: seq<Happening>)
    decreases |hs|
  {
    hs == [] || (p.guest.tier <= Next(p, wired, hs[0]).guest.tier && Climbs(Next(p, wired, hs[0]), wired, hs[1..]))
  }

  /** The tier never goes down in a history if and only if no happening in it lowers it. */
  lemma {:induction false} TierNeverDrops(p: Pair, wired: bool, hs: seq<Happening>)
    ensures Climbs(p, wired, hs) <==> Steady(p, wired, hs)
    decreases |hs|
  {
    if hs != [] {
      TierDropsIff(p, wired, hs[0]);
      TierNeverDrops(Next(p, wired, hs[0]), wired, hs[1..]);
    }
  }

  /** Nothing but an order to tier 0 or below moves a trusted guest. */
  lemma {:induction false} TrustedIsPinned(p: Pair, wired: bool, hs: seq<Happening>)
    requires p.guest.trusted && forall h :: h in hs && h.Order? ==> h.tier > 0
    ensures History(p, wired, hs).guest.tier == p.guest.tier
    decreases |hs|
  {
    if hs != [] {
      TrustedIsPinned(Next(p, wired, hs[0]), wired, hs[1..]);
    }
  }

  // ---- when a promotion is lost -----------------------------------------------------

  /** Whatever the engine has applied, the guest is at. */
  predicate KeptUp(p: Pair) {
    p.slot.applied <= p.guest.tier
  }

  /** The happening takes a guest below what the engine has applied: a violation by a guest
      the engine has at tier 2, before the third, or an order to a lower tier. */
  predicate Loses(p: Pair, h: Happening) {
    match h
    case Violation => p.slot.applied == 2 && Plus(p.guest.violations, 1) < 3
    case Order(tier) => tier < p.slot.applied
    case _ => false
  }

  lemma LosesIff(p: Pair, wired: bool, h: Happening)
    requires Inv(p.slot) && !p.guest.trusted && KeptUp(p)
    ensures Inv(Next(p, wired, h).slot) && !Next(p, wired, h).guest.trusted
    ensures KeptUp(Next(p, wired, h)) <==> !Loses(p, h)
  {
    match h
    case Reported(ev) => StepInv(p.slot, wired, ev);
    case _ =>
  }

  predicate Lossless(p: Pair, wired: bool, hs: seq<Happening>)
    decreases |hs|
  {
    hs == [] || (!Loses(p, hs[0]) && Lossless(Next(p, wired, hs[0]), wired, hs[1..]))
  }

  predicate AlwaysKeptUp(p: Pair, wired: bool, hs: seq<Happening>)
    decreases |hs|
  {
    KeptUp(p) && (hs == [] || AlwaysKeptUp(Next(p, wired, hs[0]), wired, hs[1..]))
  }

  /** An untrusted guest is at every tier the engine has applied, all through a history with
      any resets, if and only if nothing in it loses a promotion. */
  lemma {:induction false} SupervisorKeepsUp(p: Pair, wired: bool, hs: seq<Happening>)
    requires Inv(p.slot) && !p.guest.trusted && KeptUp(p)
    ensures AlwaysKeptUp(p, wired, hs) <==> Lossless(p, wired, hs)
    decreases |hs|
  {
    if hs != [] {
      LosesIff(p, wired, hs[0]);
      if KeptUp(Next(p, wired, hs[0])) {
        SupervisorKeepsUp(Next(p, wired, hs[0]), wired, hs[1..]);
      }
    }
  }

  function Reports(evs: seq<Event>): (hs: seq<Happening>)
    ensures |hs| == |evs|
  {
    seq(|evs|, i requires 0 <= i < |evs| => Reported(evs[i]))
  }

  /** A lost promotion stays lost: the engine fires once, so whatever a promoted guest does
      next in its tenancy the engine never answers with a tier again. */
  lemma {:induction false} LostForGood(p: Pair, wired: bool, evs: seq<Event>)
    requires Inv(p.slot) && p.slot.promoted && NoReset(p.slot, wired, evs)
    ensures var q := History(p, wired, Reports(evs));
            q.guest == p.guest && q.slot.promoted && q.slot.applied == 2
    decreases |evs|
  {
    if evs != [] {
      StepInv(p.slot, wired, evs[0]);
      var q := Next(p, wired, Reported(evs[0]));
      assert q.guest == p.guest && q.slot.promoted;
      LostForGood(q, wired, evs[1..]);
      assert Reports(evs)[0] == Reported(evs[0]) && Reports(evs)[1..] == Reports(evs[1..]);
    }
  }

  /** A fresh guest that the engine raises for one query and that then breaks its pledge once
      is at tier 1, and stays there through the rest of its tenancy, while the engine has it
      at tier 2. */
  lemma PromotionLost(evs: seq<Event>)
    requires NoReset(History(Pair(EMPTY, Guest(0, false, 0)), true, [Reported(Async(Dns)), Violation]).slot, true, evs)
    ensures var p := History(Pair(EMPTY, Guest(0, false, 0)), true, [Reported(Async(Dns))]);
            p.guest.tier == 2 && p.slot.applied == 2
    ensures var p := History(Pair(EMPTY, Guest(0, false, 0)), true, [Reported(Async(Dns)), Violation]);
            var q := History(p, true, Reports(evs));
            q.guest.tier == 1 && q.slot.applied == 2
  {
    var start := Pair(EMPTY, Guest(0, false, 0));
    var raised := Next(start, true, Reported(Async(Dns)));
    PlusSmall(0, T2);
    assert [Reported(Async(Dns)), Violation][1..] == [Violation];
    assert History(start, true, [Reported(Async(Dns)), Violation]) == Next(raised, true, Violation);
    LostForGood(Next(raised, true, Violation), true, evs);
  }

  // ---- the fields -------------------------------------------------------------------

  /** The three fields of the guest's state that decide its tier. */
  class Sandbox {
    var tier: int
    const trusted: bool
    var violations: U32

    function State(): (g: Guest)
      reads this
    {
      Guest(tier, trusted, violations)
    }

    constructor (initial: int, operator: bool)
      ensures State() == Guest(initial, operator, 0)
    {
      tier, trusted, violations := initial, operator, 0;
    }

    method Set(target: int)
      modifies this`tier
      ensures State() == SetTier(old(State()), target)
    {
      if trusted && target > 0 {
        return;
      }
      tier := target;
    }

    method Apply(target: int)
      modifies this`tier
      ensures State() == ApplyReply(old(State()), target) && tier >= old(tier)
    {
      if target > tier {
        Set(target);
      }
    }

    method Violated()
      modifies this
      ensures State() == Violate(old(State()))
    {
      violations := Plus(violations, 1);
      Set(1);
      if tier == 1 && violations >= 3 {
        Set(2);
      }
    }
  }
}
