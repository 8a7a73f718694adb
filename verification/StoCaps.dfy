/** Capabilities tied to transactions: when they can be invoked, over whole runs. */
module StoCaps {
  import opened Sto
  import opened StoSerial

  /** The transaction in slot k is the cap's parent and lists it. */
  predicate ParentAt(r: Registry, c: Cap, k: nat)
    requires Shaped(r)
  {
    && k < MAX_TX && r.txs[k].id == c.tx && r.txs[k].phase != Free && c.id in r.txs[k].caps
    && (r.txs[k].phase == Committed ==> c.mode == CommitOnly)
  }

  ghost predicate Parented(r: Registry, c: Cap)
    requires Shaped(r)
  {
    exists k :: ParentAt(r, c, k)
  }

  ghost predicate PoolOk(r: Registry)
    requires Shaped(r)
  {
    && (forall j :: 0 <= j < MAX_CAPS && r.pool[j].id != 0 ==> r.pool[j].id < r.nextCap && Parented(r, r.pool[j]))
    && (forall i, j :: 0 <= i < j < MAX_CAPS && r.pool[i].id != 0 ==> r.pool[i].id != r.pool[j].id)
  }

  /** A transaction lists only its own caps. */
  predicate ListsOk(r: Registry)
    requires Shaped(r)
  {
    && r.nextCap > 0
    && (forall k, c :: 0 <= k < MAX_TX && r.txs[k].phase != Free && c in r.txs[k].caps ==> 0 < c < r.nextCap)
    && (forall j, k :: 0 <= k < MAX_TX && r.txs[k].phase != Free && 0 <= j < MAX_CAPS && r.pool[j].id in r.txs[k].caps ==>
          r.pool[j].tx == r.txs[k].id)
  }

  ghost predicate CapInv(r: Registry) {
    Shaped(r) && SlotsOk(r) && PoolOk(r) && ListsOk(r)
  }

  lemma InitialCapInv()
    ensures CapInv(Initial())
  {
  }

  lemma {:induction false} SlotOfIs(r: Registry, k: nat, i: nat)
    requires Shaped(r) && SlotsOk(r) && i <= k < MAX_TX && r.txs[k].phase != Free
    ensures k < r.high && SlotOf(r, r.txs[k].id, i) == k
    decreases k - i
  {
    if i < k {
      SlotOfIs(r, k, i + 1);
    }
  }

  /** The exact rule: an ActiveOk cap works while its transaction is active and not after it
      has committed; a CommitOnly cap works exactly once it has committed. */
  lemma InvocableIff(r: Registry, j: nat, k: nat)
    requires CapInv(r) && j < MAX_CAPS && r.pool[j].id != 0 && ParentAt(r, r.pool[j], k)
    ensures Invocable(r, r.pool[j]) <==> r.txs[k].phase == (if r.pool[j].mode == ActiveOk then Active else Committed)
  {
    SlotOfIs(r, k, 0);
  }

  // ---- every step keeps the invariant -----------------------------------------------

  lemma BeginCapInv(r: Registry, badge: nat)
    requires CapInv(r)
    ensures CapInv(Begin(r, badge).1)
  {
    var g := Begin(r, badge).1;
    forall j | 0 <= j < MAX_CAPS && g.pool[j].id != 0
      ensures Parented(g, g.pool[j])
    {
      var k :| ParentAt(r, r.pool[j], k);
      assert ParentAt(g, g.pool[j], k);
    }
  }

  /** Changing a transaction's object sets. */
  lemma SetsCapInv(r: Registry, k: nat, t: Tx)
    requires CapInv(r) && k < MAX_TX && t.id == r.txs[k].id && t.phase == r.txs[k].phase && t.caps == r.txs[k].caps
    ensures CapInv(r.(txs := r.txs[k := t]))
  {
    var g := r.(txs := r.txs[k := t]);
    forall j | 0 <= j < MAX_CAPS && g.pool[j].id != 0
      ensures Parented(g, g.pool[j])
    {
      var n :| ParentAt(r, r.pool[j], n);
      assert ParentAt(g, g.pool[j], n);
    }
  }

  lemma WrapParented(r: Registry, k: nat, obj: nat, mode: Mode, j: nat)
    requires CapInv(r) && k < MAX_TX && r.txs[k].phase == Active && j < MAX_CAPS
    requires Wrap(r, k, obj, mode).1.pool[j].id != 0
    ensures var g := Wrap(r, k, obj, mode).1; Parented(g, g.pool[j])
  {
    var g := Wrap(r, k, obj, mode).1;
    if g.pool[j] == r.pool[j] {
      var n :| ParentAt(r, r.pool[j], n);
      assert ParentAt(g, g.pool[j], n);
    } else {
      assert ParentAt(g, g.pool[j], k);
    }
  }

  lemma WrapCapInv(r: Registry, k: nat, obj: nat, mode: Mode)
    requires CapInv(r) && k < MAX_TX && r.txs[k].phase == Active
    ensures CapInv(Wrap(r, k, obj, mode).1)
  {
    hide Parented;
    var g := Wrap(r, k, obj, mode).1;
    forall j | 0 <= j < MAX_CAPS && g.pool[j].id != 0
      ensures Parented(g, g.pool[j])
    {
      WrapParented(r, k, obj, mode, j);
    }
  }

  /** Ending the transaction in slot k, with its caps swept or left under a commit. */
  function Ended(r: Registry, k: nat, phase: Phase, all: bool, log: seq<Entry>): (g: Registry)
    requires Shaped(r) && k < MAX_TX
    ensures Shaped(g)
  {
    Collected(r.(log := log, pool := Swept(r.pool, r.txs[k].caps, all), txs := r.txs[k := r.txs[k].(phase := phase)]))
  }

  predicate Endable(r: Registry, k: nat, phase: Phase, all: bool)
    requires Shaped(r) && k < MAX_TX
  {
    && r.txs[k].phase == Active
    && ((phase == Free && !KeepsCap(Swept(r.pool, r.txs[k].caps, all), r.txs[k].caps)) || (phase == Committed && !all))
  }

  lemma EndParented(r: Registry, k: nat, phase: Phase, all: bool, log: seq<Entry>, j: nat)
    requires CapInv(r) && k < MAX_TX && Endable(r, k, phase, all) && j < MAX_CAPS
    requires Ended(r, k, phase, all, log).pool[j].id != 0
    ensures var g := Ended(r, k, phase, all, log); Parented(g, g.pool[j])
  {
    var pool, g := Swept(r.pool, r.txs[k].caps, all), Ended(r, k, phase, all, log);
    var n :| ParentAt(r, r.pool[j], n);
    assert !Doomed(r.pool[j], r.txs[k].caps, all);
    if n == k && !all {
      StillLive(r.pool, pool, j);
      var i :| 0 <= i < |r.txs[k].caps| && r.txs[k].caps[i] == pool[j].id;
      assert LiveCommitOnly(pool, r.txs[k].caps[i]);
    }
    assert ParentAt(g, g.pool[j], n);
  }

  lemma EndCapInv(r: Registry, k: nat, phase: Phase, all: bool, log: seq<Entry>)
    requires CapInv(r) && k < MAX_TX && Endable(r, k, phase, all)
    ensures CapInv(Ended(r, k, phase, all, log))
  {
    hide Parented;
    var g := Ended(r, k, phase, all, log);
    forall j | 0 <= j < MAX_CAPS && g.pool[j].id != 0
      ensures Parented(g, g.pool[j])
    {
      EndParented(r, k, phase, all, log, j);
    }
  }

  lemma StillLive(was: seq<Cap>, pool: seq<Cap>, j: nat)
    requires |pool| == |was| && j < |pool| && pool[j].id != 0 && pool[j].mode == CommitOnly
    requires forall n :: 0 <= n < |pool| ==> pool[n].id == was[n].id || pool[n].id == 0
    requires forall i, n :: 0 <= i < n < |was| && was[i].id != 0 ==> was[i].id != was[n].id
    ensures LiveCommitOnly(pool, pool[j].id)
  {
    var i := FindCap(pool, pool[j].id);
  }

  lemma HandleCapInv(r: Registry, badge: nat, op: Op)
    requires CapInv(r)
    ensures CapInv(Handle(r, badge, op).1)
  {
    hide Collected, Swept, KeepsCap, Wrap, Begin, CapInv;
    assert Shaped(r) by {
      CapInvShaped(r);
    }
    match op {
      case OpBegin => BeginCapInv(r, badge);
      case OpRead(tx, obj) =>
        var k := FindTx(r, tx, badge);
        if k != -1 {
          SetsCapInv(r, k, r.txs[k].(readSet := Added(r.txs[k].readSet, obj).1));
        }
      case OpStage(tx, obj) =>
        var k := FindTx(r, tx, badge);
        if k != -1 {
          SetsCapInv(r, k, r.txs[k].(writeSet := Added(r.txs[k].writeSet, obj).1));
        }
      case OpCommit(tx) =>
        var k := FindTx(r, tx, badge);
        if k != -1 {
          CommitCapInv(r, k);
          AbortCapInv(r, k);
        }
      case OpRollback(tx) =>
        var k := FindTx(r, tx, badge);
        if k != -1 {
          AbortCapInv(r, k);
        }
      case OpWrap(tx, obj, mode) =>
        var k := FindTx(r, tx, badge);
        if k != -1 {
          WrapCapInv(r, k, obj, mode);
        }
      case OpInvoke(cap) =>
    }
  }

  lemma CapInvShaped(r: Registry)
    requires CapInv(r)
    ensures Shaped(r)
  {
  }

  lemma AbortCapInv(r: Registry, k: nat)
    requires CapInv(r) && k < MAX_TX && r.txs[k].phase == Active
    ensures CapInv(Abort(r, k))
  {
    hide CapInv;
    CapInvShaped(r);
    assert !KeepsCap(Swept(r.pool, r.txs[k].caps, true), r.txs[k].caps) by {
      assert forall i :: 0 <= i < |r.txs[k].caps| ==> !LiveCommitOnly(Swept(r.pool, r.txs[k].caps, true), r.txs[k].caps[i]);
    }
    EndCapInv(r, k, Free, true, r.log);
  }

  lemma CommitCapInv(r: Registry, k: nat)
    requires CapInv(r) && k < MAX_TX && r.txs[k].phase == Active
    ensures CapInv(Commit(r, k).1)
  {
    hide CapInv, Collected, Swept;
    CapInvShaped(r);
    var pool := Swept(r.pool, r.txs[k].caps, false);
    var phase := if KeepsCap(pool, r.txs[k].caps) then Committed else Free;
    EndCapInv(r, k, phase, false, r.log + [Entry(r.txs[k].id, r.txs[k].writeSet)]);
  }

  // ---- whole runs -------------------------------------------------------------------

  function Serve(r: Registry, ms: seq<Message>): (g: Registry)
    requires Shaped(r)
    ensures Shaped(g)
    decreases |ms|
  {
    if ms == [] then r else Serve(Handle(r, ms[0].badge, ms[0].op).1, ms[1..])
  }

  lemma {:induction false} ServeCapInv(r: Registry, ms: seq<Message>)
    requires CapInv(r)
    ensures CapInv(Serve(r, ms))
    decreases |ms|
  {
    hide CapInv, Handle;
    CapInvShaped(r);
    if ms != [] {
      HandleCapInv(r, ms[0].badge, ms[0].op);
      ServeCapInv(Handle(r, ms[0].badge, ms[0].op).1, ms[1..]);
    }
  }

  /** The id has been given out and its cap is gone. */
  predicate Revoked(r: Registry, id: nat) {
    0 < id < r.nextCap && forall j :: 0 <= j < |r.pool| ==> r.pool[j].id != id
  }

  lemma RevokedStep(r: Registry, badge: nat, op: Op, id: nat)
    requires Shaped(r) && Revoked(r, id)
    ensures Revoked(Handle(r, badge, op).1, id)
  {
  }

  lemma {:induction false} RevokedForever(r: Registry, ms: seq<Message>, id: nat)
    requires Shaped(r) && Revoked(r, id)
    ensures Revoked(Serve(r, ms), id)
    decreases |ms|
  {
    hide Handle, Revoked;
    if ms != [] {
      RevokedStep(r, ms[0].badge, ms[0].op, id);
      RevokedForever(Handle(r, ms[0].badge, ms[0].op).1, ms[1..], id);
    }
  }

  lemma AbortRevokes(r: Registry, k: nat, id: nat)
    requires CapInv(r) && k < MAX_TX && r.txs[k].phase == Active && id in r.txs[k].caps
    ensures Revoked(Abort(r, k), id)
  {
  }

  /** No effects from aborted transactions: once a transaction has been rolled back or refused,
      no cap it handed out is ever invoked successfully again, whatever anybody sends. */
  lemma AbortedCapsAreDead(r: Registry, k: nat, ms: seq<Message>, badge: nat, id: nat)
    requires CapInv(r) && k < MAX_TX && r.txs[k].phase == Active && id in r.txs[k].caps
    ensures Handle(Serve(Abort(r, k), ms), badge, OpInvoke(id)).0 == InvalidTx
  {
    hide Abort;
    AbortRevokes(r, k, id);
    RevokedForever(Abort(r, k), ms, id);
  }

  // ---- what a commit does to its caps -----------------------------------------------

  lemma CommitRevokes(r: Registry, k: nat, j: nat)
    requires CapInv(r) && k < MAX_TX && r.txs[k].phase == Active && Commit(r, k).0 == Ok
    requires j < MAX_CAPS && r.pool[j].id != 0 && r.pool[j].id in r.txs[k].caps && r.pool[j].mode == ActiveOk
    ensures Revoked(Commit(r, k).1, r.pool[j].id)
  {
    hide Parented;
    assert Doomed(r.pool[j], r.txs[k].caps, false);
    forall i | 0 <= i < MAX_CAPS
      ensures Swept(r.pool, r.txs[k].caps, false)[i].id != r.pool[j].id
    {
      assert if i < j then r.pool[i].id == 0 || r.pool[i].id != r.pool[j].id
             else i == j || r.pool[i].id != r.pool[j].id;
    }
  }

  /** The cap in pool slot j is a CommitOnly cap of the committed transaction in slot k. */
  predicate Standing(r: Registry, c: Cap, j: nat, k: nat)
    requires Shaped(r)
  {
    && j < MAX_CAPS && r.pool[j] == c && c.id != 0 && c.mode == CommitOnly
    && ParentAt(r, c, k) && r.txs[k].phase == Committed
  }

  lemma CommitKeeps(r: Registry, k: nat, j: nat)
    requires CapInv(r) && k < MAX_TX && r.txs[k].phase == Active && Commit(r, k).0 == Ok
    requires j < MAX_CAPS && r.pool[j].id != 0 && r.pool[j].id in r.txs[k].caps && r.pool[j].mode == CommitOnly
    ensures Standing(Commit(r, k).1, r.pool[j], j, k)
  {
    hide Parented;
    var pool := Swept(r.pool, r.txs[k].caps, false);
    StillLive(r.pool, pool, j);
    var i :| 0 <= i < |r.txs[k].caps| && r.txs[k].caps[i] == pool[j].id;
    assert LiveCommitOnly(pool, r.txs[k].caps[i]);
  }

  /** Sweeping another transaction's caps leaves it alone. */
  lemma NotListedElsewhere(r: Registry, c: Cap, j: nat, k: nat, n: nat)
    requires CapInv(r) && Standing(r, c, j, k) && n < MAX_TX && r.txs[n].phase == Active
    ensures c.id !in r.txs[n].caps
  {
    hide Parented;
    assert r.txs[n].id != r.txs[k].id by {
      assert if n < k then r.txs[n].id != r.txs[k].id else r.txs[k].id != r.txs[n].id;
    }
  }

  lemma StandingStep(r: Registry, badge: nat, op: Op, c: Cap, j: nat, k: nat)
    requires CapInv(r) && Standing(r, c, j, k)
    ensures Standing(Handle(r, badge, op).1, c, j, k)
  {
    hide PoolOk, ListsOk;
    OnlyOwnerMutates(r, badge, op, k);
    if op.OpCommit? || op.OpRollback? {
      var n := FindTx(r, op.tx, badge);
      if n != -1 {
        NotListedElsewhere(r, c, j, k, n);
      }
    }
  }

  lemma {:induction false} StandingForever(r: Registry, ms: seq<Message>, c: Cap, j: nat, k: nat)
    requires CapInv(r) && Standing(r, c, j, k)
    ensures CapInv(Serve(r, ms)) && Standing(Serve(r, ms), c, j, k)
    decreases |ms|
  {
    hide CapInv, Handle, Standing;
    CapInvShaped(r);
    if ms != [] {
      StandingStep(r, ms[0].badge, ms[0].op, c, j, k);
      HandleCapInv(r, ms[0].badge, ms[0].op);
      StandingForever(Handle(r, ms[0].badge, ms[0].op).1, ms[1..], c, j, k);
    }
  }

  lemma StandingInvocable(r: Registry, badge: nat, c: Cap, j: nat, k: nat)
    requires CapInv(r) && Standing(r, c, j, k)
    ensures Handle(r, badge, OpInvoke(c.id)).0 == Ok
  {
    hide Parented;
    var i := FindCap(r.pool, c.id);
    assert i == j;
    InvocableIff(r, j, k);
  }

  /** After a commit that returns Ok, whatever anybody sends: a CommitOnly cap of that
      transaction can always be invoked, an ActiveOk one never again. */
  lemma CommitSettlesCaps(r: Registry, k: nat, j: nat, ms: seq<Message>, badge: nat)
    requires CapInv(r) && k < MAX_TX && r.txs[k].phase == Active && Commit(r, k).0 == Ok
    requires j < MAX_CAPS && r.pool[j].id != 0 && r.pool[j].id in r.txs[k].caps
    ensures Handle(Serve(Commit(r, k).1, ms), badge, OpInvoke(r.pool[j].id)).0
         == if r.pool[j].mode == CommitOnly then Ok else InvalidTx
  {
    hide Commit, CapInv, Standing;
    CapInvShaped(r);
    if r.pool[j].mode == CommitOnly {
      CommitKeeps(r, k, j);
      CommitCapInv(r, k);
      StandingForever(Commit(r, k).1, ms, r.pool[j], j, k);
      StandingInvocable(Serve(Commit(r, k).1, ms), badge, r.pool[j], j, k);
    } else {
      CommitRevokes(r, k, j);
      RevokedForever(Commit(r, k).1, ms, r.pool[j].id);
    }
  }

  /** Both ends of a transaction, in every run from the start: `before` the end and `after` it
      anybody may send anything. */
  lemma CapsFromStart(before: seq<Message>, k: nat, j: nat, after: seq<Message>, badge: nat)
    requires k < MAX_TX && j < MAX_CAPS
    requires var r := Serve(Initial(), before);
             r.txs[k].phase == Active && r.pool[j].id != 0 && r.pool[j].id in r.txs[k].caps
    ensures var r := Serve(Initial(), before);
            && Handle(Serve(Abort(r, k), after), badge, OpInvoke(r.pool[j].id)).0 == InvalidTx
            && (Commit(r, k).0 == Ok ==>
                  Handle(Serve(Commit(r, k).1, after), badge, OpInvoke(r.pool[j].id)).0
                  == if r.pool[j].mode == CommitOnly then Ok else InvalidTx)
  {
    hide CapInv, Handle, Serve, Abort, Commit;
    var r := Serve(Initial(), before);
    InitialCapInv();
    ServeCapInv(Initial(), before);
    AbortedCapsAreDead(r, k, after, badge, r.pool[j].id);
    if Commit(r, k).0 == Ok {
      CommitSettlesCaps(r, k, j, after, badge);
    }
  }

  /** An invocation that succeeds is of a cap whose transaction is in the phase its mode asks
      for: CommitOnly effects are never visible before the commit. */
  lemma InvokedInPhase(r: Registry, badge: nat, id: nat)
    requires CapInv(r) && Handle(r, badge, OpInvoke(id)).0 == Ok
    ensures var c := r.pool[FindCap(r.pool, id)];
            exists k: nat :: ParentAt(r, c, k) && r.txs[k].phase == if c.mode == ActiveOk then Active else Committed
  {
    var j := FindCap(r.pool, id);
    var k :| ParentAt(r, r.pool[j], k);
    InvocableIff(r, j, k);
  }

  /** Nobody but its owner changes a transaction, and a committed one does not change. */
  lemma OnlyOwnerMutates(r: Registry, badge: nat, op: Op, k: nat)
    requires Shaped(r) && k < MAX_TX && r.txs[k].phase != Free
    requires r.txs[k].owner != badge || r.txs[k].phase == Committed
    ensures Handle(r, badge, op).1.txs[k] == r.txs[k]
  {
  }

  /** So a transaction that commits with a CommitOnly cap holds its slot for good. */
  lemma {:induction false} CommittedForever(r: Registry, ms: seq<Message>, k: nat)
    requires Shaped(r) && k < MAX_TX && r.txs[k].phase == Committed
    ensures Serve(r, ms).txs[k] == r.txs[k]
    decreases |ms|
  {
    hide Handle;
    if ms != [] {
      OnlyOwnerMutates(r, ms[0].badge, ms[0].op, k);
      CommittedForever(Handle(r, ms[0].badge, ms[0].op).1, ms[1..], k);
    }
  }
}
