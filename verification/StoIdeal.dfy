/**
 What the transaction service promises, without slots, searches, sweeps or logs: transactions
 and capabilities by their ids.  The registry gives every client the same answers.
 */
module StoIdeal {
  import opened Sto
  import opened StoSerial
  import opened StoCaps

  /** A running transaction, and the number of caps it has been given. */
  datatype Deal = Deal(owner: nat, read: set<nat>, wrote: set<nat>, wrapped: nat)
  datatype Deed = Deed(tx: nat, obj: nat, mode: Mode)

  /** The running transactions, the committed ones whose caps still stand, what was committed
      since nobody was running, the ids given out so far, and the caps that stand. */
  datatype Ideal = Ideal(
    running: map<nat, Deal>, held: set<nat>, recent: seq<set<nat>>, begun: nat, wrapped: nat, caps: map<nat, Deed>)

  datatype Answer = Answer(status: Status, id: nat, next: Ideal)

  const NOTHING: Ideal := Ideal(map[], {}, [], 0, 0, map[])

  predicate Mine(a: Ideal, badge: nat, tx: nat) {
    tx in a.running && a.running[tx].owner == badge
  }

  /** Nobody running, nothing to remember. */
  function Idle(a: Ideal): (b: Ideal) {
    if a.running == map[] then a.(recent := []) else a
  }

  /** The transaction and all its caps go. */
  function Undone(a: Ideal, tx: nat): (b: Ideal) {
    Idle(a.(running := a.running - {tx}, caps := map c | c in a.caps && a.caps[c].tx != tx :: a.caps[c]))
  }

  /** Its writes count, its ActiveOk caps go, and it is held if it has CommitOnly ones. */
  function Committed(a: Ideal, tx: nat): (b: Ideal)
    requires tx in a.running
  {
    var caps := map c | c in a.caps && (a.caps[c].tx != tx || a.caps[c].mode == CommitOnly) :: a.caps[c];
    Idle(a.(running := a.running - {tx}, caps := caps, recent := a.recent + [a.running[tx].wrote],
            held := if exists c :: c in caps && caps[c].tx == tx then a.held + {tx} else a.held))
  }

  function Respond(a: Ideal, badge: nat, op: Op): (r: Answer) {
    match op
    case OpBegin =>
      if |a.running| + |a.held| >= 64 then Answer(Quota, 0, a)
      else Answer(Ok, a.begun + 1,
                  a.(running := a.running[a.begun + 1 := Deal(badge, {}, {}, 0)], begun := a.begun + 1))
    case OpRead(tx, obj) =>
      if !Mine(a, badge, tx) then Answer(InvalidTx, 0, a)
      else if obj !in a.running[tx].read && |a.running[tx].read| >= 32 then Answer(Quota, 0, a)
      else var d := a.running[tx]; Answer(Ok, 0, a.(running := a.running[tx := d.(read := d.read + {obj})]))
    case OpStage(tx, obj) =>
      if !Mine(a, badge, tx) then Answer(InvalidTx, 0, a)
      else if obj !in a.running[tx].wrote && |a.running[tx].wrote| >= 32 then Answer(Quota, 0, a)
      else var d := a.running[tx]; Answer(Ok, 0, a.(running := a.running[tx := d.(wrote := d.wrote + {obj})]))
    case OpCommit(tx) =>
      if !Mine(a, badge, tx) then Answer(InvalidTx, 0, a)
      else if exists i :: 0 <= i < |a.recent| && a.recent[i] * a.running[tx].read != {} then
        Answer(Conflict, 0, Undone(a, tx))
      else if |a.recent| >= 128 then Answer(Quota, 0, a)
      else Answer(Ok, 0, Committed(a, tx))
    case OpRollback(tx) => Answer(Ok, 0, if Mine(a, badge, tx) then Undone(a, tx) else a)
    case OpWrap(tx, obj, mode) =>
      if !Mine(a, badge, tx) then Answer(InvalidTx, 0, a)
      else if a.running[tx].wrapped >= 16 || |a.caps| >= 256 then Answer(Quota, 0, a)
      else
        var d := a.running[tx];
        Answer(Ok, a.wrapped + 1,
               a.(running := a.running[tx := d.(wrapped := d.wrapped + 1)], wrapped := a.wrapped + 1,
                  caps := a.caps[a.wrapped + 1 := Deed(tx, obj, mode)]))
    case OpInvoke(cap) =>
      if cap !in a.caps then Answer(InvalidTx, 0, a)
      else if a.caps[cap].mode == CommitOnly && a.caps[cap].tx in a.running then Answer(InvalidState, 0, a)
      else Answer(Ok, 0, a)
  }

  // ---- what a registry stands for ---------------------------------------------------

  ghost predicate Holds(s: seq<nat>, t: set<nat>) {
    |s| == |t| && forall o :: o in s <==> o in t
  }

  ghost predicate SameDeal(t: Tx, d: Deal) {
    t.owner == d.owner && Holds(t.readSet, d.read) && Holds(t.writeSet, d.wrote) && |t.caps| == d.wrapped
  }

  predicate At(txs: seq<Tx>, k: nat, tx: nat, phase: Phase) {
    k < |txs| && txs[k].id == tx && txs[k].phase == phase
  }

  ghost predicate SameTxs(txs: seq<Tx>, running: map<nat, Deal>, held: set<nat>) {
    && (forall k :: 0 <= k < |txs| && txs[k].phase == Active ==>
          txs[k].id in running && SameDeal(txs[k], running[txs[k].id]))
    && (forall k :: 0 <= k < |txs| && txs[k].phase == Phase.Committed ==> txs[k].id in held)
    && (forall tx :: tx in running ==> exists k :: At(txs, k, tx, Active))
    && (forall tx :: tx in held ==> exists k :: At(txs, k, tx, Phase.Committed))
  }

  predicate CapAt(pool: seq<Cap>, j: nat, id: nat) {
    j < |pool| && pool[j].id == id && id != 0
  }

  ghost predicate SameCaps(pool: seq<Cap>, caps: map<nat, Deed>) {
    && (forall j :: 0 <= j < |pool| && pool[j].id != 0 ==>
          pool[j].id in caps && caps[pool[j].id] == Deed(pool[j].tx, pool[j].obj, pool[j].mode))
    && (forall c :: c in caps ==> exists j :: CapAt(pool, j, c))
  }

  ghost predicate SameLog(log: seq<Entry>, recent: seq<set<nat>>) {
    |log| == |recent| && forall i, o :: 0 <= i < |log| ==> (o in log[i].writeSet <==> o in recent[i])
  }

  ghost predicate Means(r: Registry, a: Ideal) {
    && CapInv(r) && r.nextTx == a.begun + 1 && r.nextCap == a.wrapped + 1
    && SameTxs(r.txs, a.running, a.held) && SameCaps(r.pool, a.caps) && SameLog(r.log, a.recent)
  }

  // ---- counting ---------------------------------------------------------------------

  /** Distinct marks, with 0 for an empty place: as many as places exactly if none is empty. */
  lemma {:induction false} FullIff(ids: seq<nat>, keys: set<nat>)
    requires forall i, j :: 0 <= i < j < |ids| && ids[i] != 0 ==> ids[i] != ids[j]
    requires forall x :: x in keys <==> x != 0 && x in ids
    ensures |keys| <= |ids| && (|keys| == |ids| <==> 0 !in ids)
  {
    if ids == [] {
      assert keys == {};
    } else {
      var n := |ids| - 1;
      var x := ids[n];
      assert ids == ids[..n] + [x];
      FullIff(ids[..n], if x == 0 then keys else keys - {x});
    }
  }

  function Marks(txs: seq<Tx>): (ids: seq<nat>)
    ensures |ids| == |txs|
    ensures forall k :: 0 <= k < |txs| ==> ids[k] == if txs[k].phase == Free then 0 else txs[k].id
  {
    seq(|txs|, k requires 0 <= k < |txs| => if txs[k].phase == Free then 0 else txs[k].id)
  }

  lemma {:induction false} NoFreeSlot(txs: seq<Tx>, i: nat)
    requires i <= |txs|
    ensures FreeSlot(txs, i) == -1 <==> forall k :: i <= k < |txs| ==> txs[k].phase != Free
    decreases |txs| - i
  {
    if i < |txs| {
      NoFreeSlot(txs, i + 1);
    }
  }

  lemma MarkedIff(r: Registry, a: Ideal, x: nat)
    requires Shaped(r) && SlotsOk(r) && SameTxs(r.txs, a.running, a.held)
    ensures x in a.running || x in a.held <==> x != 0 && x in Marks(r.txs)
  {
    hide SameDeal;
    var ids := Marks(r.txs);
    if x in a.running {
      var k: nat :| At(r.txs, k, x, Active);
      assert ids[k] == x;
    }
    if x in a.held {
      var k: nat :| At(r.txs, k, x, Phase.Committed);
      assert ids[k] == x;
    }
  }

  lemma RunningIsNotHeld(r: Registry, a: Ideal)
    requires Shaped(r) && SlotsOk(r) && SameTxs(r.txs, a.running, a.held)
    ensures a.running.Keys !! a.held
  {
    hide SameDeal;
    SlotsDistinct(r);
    forall tx | tx in a.held
      ensures tx !in a.running
    {
      var k: nat :| At(r.txs, k, tx, Phase.Committed);
      RunsIffActive(r, a, k);
    }
  }

  lemma MarksDistinct(r: Registry)
    requires Shaped(r) && SlotsOk(r)
    ensures var ids := Marks(r.txs); forall i, j :: 0 <= i < j < |ids| && ids[i] != 0 ==> ids[i] != ids[j]
    ensures 0 in Marks(r.txs) <==> FreeSlot(r.txs) != -1
  {
    NoFreeSlot(r.txs, 0);
    var k := FreeSlot(r.txs);
    assert k != -1 ==> Marks(r.txs)[k] == 0;
  }

  /** Begin finds a slot exactly below 64 running and held transactions. */
  lemma SlotsFullIff(r: Registry, a: Ideal)
    requires Shaped(r) && SlotsOk(r) && SameTxs(r.txs, a.running, a.held)
    ensures FreeSlot(r.txs) == -1 <==> |a.running| + |a.held| >= 64
  {
    hide SameTxs, SlotsOk, FreeSlot;
    var keys := a.running.Keys + a.held;
    forall x
      ensures x in keys <==> x != 0 && x in Marks(r.txs)
    {
      MarkedIff(r, a, x);
    }
    MarksDistinct(r);
    FullIff(Marks(r.txs), keys);
    RunningIsNotHeld(r, a);
    assert |keys| == |a.running.Keys| + |a.held|;
  }

  lemma {:induction false} NoFreeCap(pool: seq<Cap>, i: nat)
    requires i <= |pool|
    ensures FreeCap(pool, i) == -1 <==> forall j :: i <= j < |pool| ==> pool[j].id != 0
    decreases |pool| - i
  {
    if i < |pool| {
      NoFreeCap(pool, i + 1);
    }
  }

  function Ids(pool: seq<Cap>): (ids: seq<nat>)
    ensures |ids| == |pool|
    ensures forall j :: 0 <= j < |pool| ==> ids[j] == pool[j].id
  {
    seq(|pool|, j requires 0 <= j < |pool| => pool[j].id)
  }

  lemma StandsIff(pool: seq<Cap>, caps: map<nat, Deed>, x: nat)
    requires SameCaps(pool, caps)
    ensures x in caps <==> x != 0 && x in Ids(pool)
  {
    if x in caps {
      var j: nat :| CapAt(pool, j, x);
      assert Ids(pool)[j] == x;
    }
  }

  /** Wrap finds a pool slot exactly while fewer caps stand than it has. */
  lemma PoolFullIff(pool: seq<Cap>, caps: map<nat, Deed>)
    requires SameCaps(pool, caps)
    requires forall i, j :: 0 <= i < j < |pool| && pool[i].id != 0 ==> pool[i].id != pool[j].id
    ensures FreeCap(pool) == -1 <==> |caps| >= |pool|
  {
    hide SameCaps, FreeCap;
    forall x
      ensures x in caps.Keys <==> x != 0 && x in Ids(pool)
    {
      StandsIff(pool, caps, x);
    }
    FullIff(Ids(pool), caps.Keys);
    NoFreeCap(pool, 0);
    var j := FreeCap(pool);
    assert j != -1 ==> Ids(pool)[j] == 0;
  }

  // ---- one message ------------------------------------------------------------------

  /** The registry finds a transaction exactly when it runs and is the caller's. */
  lemma FoundIff(r: Registry, a: Ideal, badge: nat, tx: nat)
    requires Shaped(r) && SlotsOk(r) && SameTxs(r.txs, a.running, a.held)
    ensures FindTx(r, tx, badge) != -1 <==> Mine(a, badge, tx)
    ensures var k := FindTx(r, tx, badge); k != -1 ==> SameDeal(r.txs[k], a.running[tx])
  {
    var k := FindTx(r, tx, badge);
    if Mine(a, badge, tx) {
      var j :| At(r.txs, j, tx, Active);
      FindTxIs(r, j, 0);
    }
  }

  lemma BeginTxs(txs: seq<Tx>, k: nat, t: Tx, running: map<nat, Deal>, held: set<nat>, d: Deal)
    requires SameTxs(txs, running, held) && k < |txs| && txs[k].phase == Free
    requires t.phase == Active && SameDeal(t, d) && forall j :: 0 <= j < |txs| ==> txs[j].id != t.id
    ensures SameTxs(txs[k := t], running[t.id := d], held)
  {
    hide SameDeal;
    var us, more := txs[k := t], running[t.id := d];
    forall tx | tx in more
      ensures exists j :: At(us, j, tx, Active)
    {
      if tx == t.id {
        assert At(us, k, tx, Active);
      } else {
        var j :| At(txs, j, tx, Active);
        assert At(us, j, tx, Active);
      }
    }
    HeldStill(txs, us, k, held);
  }

  lemma HeldStill(txs: seq<Tx>, us: seq<Tx>, k: nat, held: set<nat>)
    requires k < |txs| == |us| && txs[k].phase != Phase.Committed && us == txs[k := us[k]]
    requires forall tx :: tx in held ==> exists j :: At(txs, j, tx, Phase.Committed)
    ensures forall tx :: tx in held ==> exists j :: At(us, j, tx, Phase.Committed)
  {
    forall tx | tx in held
      ensures exists j :: At(us, j, tx, Phase.Committed)
    {
      var j :| At(txs, j, tx, Phase.Committed);
      assert At(us, j, tx, Phase.Committed);
    }
  }

  ghost predicate Distinct(txs: seq<Tx>) {
    forall j, k :: 0 <= j < |txs| && 0 <= k < |txs| && j != k && txs[j].phase != Free ==> txs[j].id != txs[k].id
  }

  lemma ChangeTxs(txs: seq<Tx>, k: nat, t: Tx, running: map<nat, Deal>, held: set<nat>, d: Deal)
    requires SameTxs(txs, running, held) && k < |txs| && txs[k].phase == Active && Distinct(txs)
    requires t.phase == Active && t.id == txs[k].id && SameDeal(t, d)
    ensures SameTxs(txs[k := t], running[t.id := d], held)
  {
    hide SameDeal;
    var us, more := txs[k := t], running[t.id := d];
    forall tx | tx in more
      ensures exists j :: At(us, j, tx, Active)
    {
      var j :| At(txs, j, tx, Active);
      assert At(us, j, tx, Active);
    }
    HeldStill(txs, us, k, held);
  }

  lemma EndTxs(txs: seq<Tx>, k: nat, phase: Phase, running: map<nat, Deal>, held: set<nat>)
    requires SameTxs(txs, running, held) && k < |txs| && txs[k].phase == Active && Distinct(txs) && phase != Active
    ensures SameTxs(txs[k := txs[k].(phase := phase)], running - {txs[k].id},
                    if phase == Phase.Committed then held + {txs[k].id} else held)
  {
    hide SameDeal;
    var id := txs[k].id;
    var us, more := txs[k := txs[k].(phase := phase)], if phase == Phase.Committed then held + {id} else held;
    forall tx | tx in running - {id}
      ensures exists j :: At(us, j, tx, Active)
    {
      var j :| At(txs, j, tx, Active);
      assert At(us, j, tx, Active);
    }
    HeldStill(txs, us, k, held);
    assert phase == Phase.Committed ==> At(us, k, id, phase);
  }

  lemma SlotsDistinct(r: Registry)
    requires Shaped(r) && SlotsOk(r)
    ensures Distinct(r.txs)
  {
  }

  lemma BeginMeans(r: Registry, a: Ideal, badge: nat)
    requires Means(r, a)
    ensures Answered(r, a, badge, OpBegin)
  {
    hide CapInv, SameTxs, SameCaps, SameLog, FreeSlot;
    HandleCapInv(r, badge, OpBegin);
    OpenCapInv(r);
    SlotsFullIff(r, a);
    var k := FreeSlot(r.txs);
    if k != -1 {
      BeginTxs(r.txs, k, Tx(r.nextTx, badge, Active, [], [], []), a.running, a.held, Deal(badge, {}, {}, 0));
    }
  }

  lemma OpenCapInv(r: Registry)
    requires CapInv(r)
    ensures Shaped(r) && SlotsOk(r) && PoolOk(r) && ListsOk(r)
  {
  }

  /** The step gives the same answer and leads to a registry that again stands for the ideal. */
  ghost predicate Answered(r: Registry, a: Ideal, badge: nat, op: Op) {
    && Shaped(r)
    && Handle(r, badge, op).0 == Respond(a, badge, op).status
    && Told(r, badge, op) == Respond(a, badge, op).id
    && Means(Handle(r, badge, op).1, Respond(a, badge, op).next)
  }

  lemma HoldsMore(s: seq<nat>, t: set<nat>, o: nat)
    requires Holds(s, t)
    ensures Added(s, o).0 == (if o !in t && |t| >= 32 then Quota else Ok)
    ensures Holds(Added(s, o).1, if o !in t && |t| >= 32 then t else t + {o})
  {
    assert o in t ==> t + {o} == t;
  }

  lemma ReadMeans(r: Registry, a: Ideal, badge: nat, tx: nat, obj: nat)
    requires Means(r, a)
    ensures Answered(r, a, badge, OpRead(tx, obj))
  {
    hide CapInv, SameTxs, SameCaps, SameLog, Holds;
    HandleCapInv(r, badge, OpRead(tx, obj));
    OpenCapInv(r);
    FoundIff(r, a, badge, tx);
    var k := FindTx(r, tx, badge);
    if k != -1 {
      var t, d := r.txs[k], a.running[tx];
      HoldsMore(t.readSet, d.read, obj);
      SlotsDistinct(r);
      if Added(t.readSet, obj).0 == Ok {
        ChangeTxs(r.txs, k, t.(readSet := Added(t.readSet, obj).1), a.running, a.held, d.(read := d.read + {obj}));
      } else {
        assert r.txs[k := t] == r.txs;
      }
    }
  }

  lemma StageMeans(r: Registry, a: Ideal, badge: nat, tx: nat, obj: nat)
    requires Means(r, a)
    ensures Answered(r, a, badge, OpStage(tx, obj))
  {
    hide CapInv, SameTxs, SameCaps, SameLog, Holds;
    HandleCapInv(r, badge, OpStage(tx, obj));
    OpenCapInv(r);
    FoundIff(r, a, badge, tx);
    var k := FindTx(r, tx, badge);
    if k != -1 {
      var t, d := r.txs[k], a.running[tx];
      HoldsMore(t.writeSet, d.wrote, obj);
      SlotsDistinct(r);
      if Added(t.writeSet, obj).0 == Ok {
        ChangeTxs(r.txs, k, t.(writeSet := Added(t.writeSet, obj).1), a.running, a.held, d.(wrote := d.wrote + {obj}));
      } else {
        assert r.txs[k := t] == r.txs;
      }
    }
  }

  lemma WrapCaps(pool: seq<Cap>, j: nat, c: Cap, caps: map<nat, Deed>)
    requires SameCaps(pool, caps) && j < |pool| && pool[j].id == 0 && c.id != 0 && c.id !in caps
    ensures SameCaps(pool[j := c], caps[c.id := Deed(c.tx, c.obj, c.mode)])
  {
    var more, deeds := pool[j := c], caps[c.id := Deed(c.tx, c.obj, c.mode)];
    forall x | x in deeds
      ensures exists i :: CapAt(more, i, x)
    {
      if x == c.id {
        assert CapAt(more, j, x);
      } else {
        var i :| CapAt(pool, i, x);
        assert CapAt(more, i, x);
      }
    }
  }

  lemma NewCap(r: Registry, caps: map<nat, Deed>)
    requires CapInv(r) && SameCaps(r.pool, caps)
    ensures r.nextCap !in caps && r.nextCap != 0
  {
    hide Parented;
    StandsIff(r.pool, caps, r.nextCap);
  }

  lemma WrapMeans(r: Registry, a: Ideal, badge: nat, tx: nat, obj: nat, mode: Mode)
    requires Means(r, a)
    ensures Answered(r, a, badge, OpWrap(tx, obj, mode))
  {
    hide CapInv, SameTxs, SameCaps, SameLog, Holds, FreeCap, Parented;
    HandleCapInv(r, badge, OpWrap(tx, obj, mode));
    OpenCapInv(r);
    FoundIff(r, a, badge, tx);
    PoolFullIff(r.pool, a.caps);
    NewCap(r, a.caps);
    var k, j := FindTx(r, tx, badge), FreeCap(r.pool);
    if k != -1 && j != -1 && |r.txs[k].caps| < MAX_CAPS_PER_TX {
      var t, d := r.txs[k], a.running[tx];
      SlotsDistinct(r);
      ChangeTxs(r.txs, k, t.(caps := t.caps + [r.nextCap]), a.running, a.held, d.(wrapped := d.wrapped + 1));
      WrapCaps(r.pool, j, Cap(r.nextCap, obj, tx, mode), a.caps);
    }
  }

  /** A cap that stands is the one the search finds, and its transaction has a slot. */
  lemma CapFound(r: Registry, caps: map<nat, Deed>, cap: nat) returns (j: nat, k: nat)
    requires CapInv(r) && SameCaps(r.pool, caps) && cap in caps
    ensures FindCap(r.pool, cap) == j && cap != 0 && j < MAX_CAPS
    ensures caps[cap] == Deed(r.pool[j].tx, r.pool[j].obj, r.pool[j].mode)
    ensures r.pool[j].id == cap && ParentAt(r, r.pool[j], k)
  {
    var i: nat :| CapAt(r.pool, i, cap);
    j := FindCap(r.pool, cap);
    k :| ParentAt(r, r.pool[j], k);
  }

  lemma InvokeMeans(r: Registry, a: Ideal, badge: nat, cap: nat)
    requires Means(r, a)
    ensures Answered(r, a, badge, OpInvoke(cap))
  {
    hide CapInv, SameTxs, SameCaps, SameLog, Invocable;
    OpenCapInv(r);
    StandsIff(r.pool, a.caps, cap);
    if cap in a.caps {
      var j, k := CapFound(r, a.caps, cap);
      InvocableIff(r, j, k);
      RunsIffActive(r, a, k);
    } else {
      var j := FindCap(r.pool, cap);
      assert j != -1 ==> Ids(r.pool)[j] == cap;
    }
  }

  lemma RunsIffActive(r: Registry, a: Ideal, k: nat)
    requires Shaped(r) && SlotsOk(r) && SameTxs(r.txs, a.running, a.held) && k < MAX_TX && r.txs[k].phase != Free
    ensures r.txs[k].id in a.running <==> r.txs[k].phase == Active
  {
    hide SameDeal;
    if r.txs[k].id in a.running {
      var j :| At(r.txs, j, r.txs[k].id, Active);
      SlotsDistinct(r);
    }
  }

  // ---- ends -------------------------------------------------------------------------

  /** The caps a transaction lists are those that stand for it. */
  lemma ListedIff(r: Registry, k: nat, j: nat)
    requires CapInv(r) && k < MAX_TX && r.txs[k].phase == Active && j < MAX_CAPS && r.pool[j].id != 0
    ensures r.pool[j].id in r.txs[k].caps <==> r.pool[j].tx == r.txs[k].id
  {
    if r.pool[j].tx == r.txs[k].id {
      var n :| ParentAt(r, r.pool[j], n);
      SlotsDistinct(r);
      assert n == k;
    }
  }

  lemma SweptCaps(r: Registry, k: nat, all: bool, caps: map<nat, Deed>, less: map<nat, Deed>)
    requires CapInv(r) && k < MAX_TX && r.txs[k].phase == Active && SameCaps(r.pool, caps)
    requires less == map c | c in caps && (caps[c].tx != r.txs[k].id || (!all && caps[c].mode == CommitOnly)) :: caps[c]
    ensures SameCaps(Swept(r.pool, r.txs[k].caps, all), less)
  {
    hide SlotsOk, PoolOk, ListsOk;
    var pool := Swept(r.pool, r.txs[k].caps, all);
    forall j | 0 <= j < MAX_CAPS && r.pool[j].id != 0
      ensures Doomed(r.pool[j], r.txs[k].caps, all) <==> r.pool[j].id !in less
    {
      ListedIff(r, k, j);
    }
    forall c | c in less
      ensures exists j :: CapAt(pool, j, c)
    {
      var j :| CapAt(r.pool, j, c);
      assert CapAt(pool, j, c);
    }
  }

  lemma ActiveIff(txs: seq<Tx>, running: map<nat, Deal>, held: set<nat>)
    requires SameTxs(txs, running, held)
    ensures AnyActive(txs) <==> running != map[]
  {
    hide SameDeal;
    if running != map[] {
      var tx :| tx in running;
      var k :| At(txs, k, tx, Active);
    }
  }

  lemma UndoMeans(r: Registry, a: Ideal, k: nat)
    requires Means(r, a) && k < MAX_TX && r.txs[k].phase == Active
    ensures Means(Abort(r, k), Undone(a, r.txs[k].id))
  {
    hide CapInv, SameTxs, SameCaps, Swept;
    AbortCapInv(r, k);
    OpenCapInv(r);
    SlotsDistinct(r);
    var tx := r.txs[k].id;
    EndTxs(r.txs, k, Free, a.running, a.held);
    SweptCaps(r, k, true, a.caps, map c | c in a.caps && a.caps[c].tx != tx :: a.caps[c]);
    ActiveIff(r.txs[k := r.txs[k].(phase := Free)], a.running - {tx}, a.held);
  }

  lemma KeptStands(r: Registry, k: nat, caps: map<nat, Deed>, id: nat)
    requires CapInv(r) && k < MAX_TX && r.txs[k].phase == Active && id in r.txs[k].caps
    requires SameCaps(Swept(r.pool, r.txs[k].caps, false), caps)
    requires LiveCommitOnly(Swept(r.pool, r.txs[k].caps, false), id)
    ensures id in caps && caps[id].tx == r.txs[k].id
  {
    hide SlotsOk, PoolOk, ListsOk;
    var pool := Swept(r.pool, r.txs[k].caps, false);
    var j := FindCap(pool, id);
    ListedIff(r, k, j);
  }

  lemma StandsKept(r: Registry, k: nat, caps: map<nat, Deed>, c: nat)
    requires CapInv(r) && k < MAX_TX && r.txs[k].phase == Active && c in caps && caps[c].tx == r.txs[k].id
    requires SameCaps(Swept(r.pool, r.txs[k].caps, false), caps)
    ensures c in r.txs[k].caps && LiveCommitOnly(Swept(r.pool, r.txs[k].caps, false), c)
  {
    hide SlotsOk, Parented, ListsOk, LiveCommitOnly;
    var pool := Swept(r.pool, r.txs[k].caps, false);
    var j: nat :| CapAt(pool, j, c);
    ListedIff(r, k, j);
    StillLive(r.pool, pool, j);
  }

  /** The slot is kept exactly when a CommitOnly cap of the transaction stands. */
  lemma KeepsIff(r: Registry, k: nat, caps: map<nat, Deed>)
    requires CapInv(r) && k < MAX_TX && r.txs[k].phase == Active
    requires SameCaps(Swept(r.pool, r.txs[k].caps, false), caps)
    ensures KeepsCap(Swept(r.pool, r.txs[k].caps, false), r.txs[k].caps)
       <==> exists c :: c in caps && caps[c].tx == r.txs[k].id
  {
    hide CapInv, SameCaps, Swept, LiveCommitOnly;
    OpenCapInv(r);
    var pool, t := Swept(r.pool, r.txs[k].caps, false), r.txs[k];
    if i :| 0 <= i < |t.caps| && LiveCommitOnly(pool, t.caps[i]) {
      KeptStands(r, k, caps, t.caps[i]);
    }
    if c :| c in caps && caps[c].tx == t.id {
      StandsKept(r, k, caps, c);
      var i :| 0 <= i < |t.caps| && t.caps[i] == c;
      assert LiveCommitOnly(pool, t.caps[i]);
    }
  }

  lemma CommitMeans(r: Registry, a: Ideal, k: nat)
    requires Means(r, a) && k < MAX_TX && r.txs[k].phase == Active && |r.log| < MAX_LOG
    ensures r.txs[k].id in a.running && Means(Commit(r, k).1, Committed(a, r.txs[k].id))
  {
    hide CapInv, SameTxs, SameCaps, Swept, KeepsCap;
    CommitCapInv(r, k);
    OpenCapInv(r);
    SlotsDistinct(r);
    var t := r.txs[k];
    ActiveDeal(r.txs, a.running, a.held, k);
    var caps := map c | c in a.caps && (a.caps[c].tx != t.id || a.caps[c].mode == CommitOnly) :: a.caps[c];
    SweptCaps(r, k, false, a.caps, caps);
    KeepsIff(r, k, caps);
    var phase := if KeepsCap(Swept(r.pool, t.caps, false), t.caps) then Phase.Committed else Free;
    var held := if phase == Phase.Committed then a.held + {t.id} else a.held;
    EndTxs(r.txs, k, phase, a.running, a.held);
    ActiveIff(r.txs[k := t.(phase := phase)], a.running - {t.id}, held);
    assert SameLog(r.log + [Entry(t.id, t.writeSet)], a.recent + [a.running[t.id].wrote]);
  }

  lemma ActiveDeal(txs: seq<Tx>, running: map<nat, Deal>, held: set<nat>, k: nat)
    requires SameTxs(txs, running, held) && k < |txs| && txs[k].phase == Active
    ensures txs[k].id in running && SameDeal(txs[k], running[txs[k].id])
  {
  }

  lemma ConflictIff(r: Registry, t: Tx, recent: seq<set<nat>>, d: Deal)
    requires SameLog(r.log, recent) && SameDeal(t, d)
    ensures CanCommit(r, t) <==> forall i :: 0 <= i < |recent| ==> recent[i] * d.read == {}
  {
    forall i | 0 <= i < |recent|
      ensures Meets(t.readSet, r.log[i].writeSet) <==> recent[i] * d.read != {}
    {
      if o :| o in t.readSet && o in r.log[i].writeSet {
        assert o in recent[i] * d.read;
      }
      if o :| o in recent[i] * d.read {
        assert o in t.readSet && o in r.log[i].writeSet;
      }
    }
  }

  lemma EndMeans(r: Registry, a: Ideal, badge: nat, op: Op)
    requires Means(r, a) && (op.OpCommit? || op.OpRollback?)
    ensures Answered(r, a, badge, op)
  {
    hide CapInv, SameTxs, SameCaps, SameLog, Abort, Undone, CanCommit, Committed, Swept, KeepsCap, Collected, SameDeal;
    OpenCapInv(r);
    FoundIff(r, a, badge, op.tx);
    var k := FindTx(r, op.tx, badge);
    if k != -1 {
      UndoMeans(r, a, k);
      ConflictIff(r, r.txs[k], a.recent, a.running[op.tx]);
      SameLength(r.log, a.recent);
      if |r.log| < MAX_LOG {
        CommitMeans(r, a, k);
      }
    }
  }

  lemma SameLength(log: seq<Entry>, recent: seq<set<nat>>)
    requires SameLog(log, recent)
    ensures |log| == |recent|
  {
  }

  // ---- whole runs -------------------------------------------------------------------

  lemma StepMeans(r: Registry, a: Ideal, badge: nat, op: Op)
    requires Means(r, a)
    ensures Answered(r, a, badge, op)
  {
    hide Means, Answered;
    match op {
      case OpBegin => BeginMeans(r, a, badge);
      case OpRead(tx, obj) => ReadMeans(r, a, badge, tx, obj);
      case OpStage(tx, obj) => StageMeans(r, a, badge, tx, obj);
      case OpCommit(_) => EndMeans(r, a, badge, op);
      case OpRollback(_) => EndMeans(r, a, badge, op);
      case OpWrap(tx, obj, mode) => WrapMeans(r, a, badge, tx, obj, mode);
      case OpInvoke(cap) => InvokeMeans(r, a, badge, cap);
    }
  }

  /** The ideal after the messages. */
  function After(a: Ideal, ms: seq<Message>): (b: Ideal)
    decreases |ms|
  {
    if ms == [] then a else After(Respond(a, ms[0].badge, ms[0].op).next, ms[1..])
  }

  lemma {:induction false} RunMeans(r: Registry, a: Ideal, ms: seq<Message>)
    requires Means(r, a)
    ensures Shaped(r) && Means(Serve(r, ms), After(a, ms))
    decreases |ms|
  {
    hide Means, Handle, Respond;
    MeansShaped(r, a);
    if ms != [] {
      StepMeans(r, a, ms[0].badge, ms[0].op);
      RunMeans(Handle(r, ms[0].badge, ms[0].op).1, Respond(a, ms[0].badge, ms[0].op).next, ms[1..]);
    }
  }

  lemma MeansShaped(r: Registry, a: Ideal)
    requires Means(r, a)
    ensures Shaped(r)
  {
  }

  lemma StartMeans()
    ensures Means(Initial(), NOTHING)
  {
    InitialCapInv();
  }

  /** After any messages from any clients, the registry answers the next one, whatever it is, with
      the ideal's status and id. */
  lemma SameAnswers(ms: seq<Message>, badge: nat, op: Op)
    ensures var r, a := Serve(Initial(), ms), Respond(After(NOTHING, ms), badge, op);
            Handle(r, badge, op).0 == a.status && Told(r, badge, op) == a.id
  {
    hide Means, Handle, Respond, Told, Serve, After;
    StartMeans();
    RunMeans(Initial(), NOTHING, ms);
    StepMeans(Serve(Initial(), ms), After(NOTHING, ms), badge, op);
  }

  /** Two clients begin, the first reads an object, the second stages it and commits: the first is
      told Conflict, and without the second's commit it is told Ok. */
  lemma FirstReaderLoses(o: nat)
    ensures var ms := [Message(1, OpBegin), Message(2, OpBegin), Message(1, OpRead(1, o)), Message(2, OpStage(2, o))];
            && Handle(Serve(Initial(), ms), 1, OpCommit(1)).0 == Ok
            && Handle(Serve(Initial(), ms + [Message(2, OpCommit(2))]), 1, OpCommit(1)).0 == Conflict
  {
    hide Handle, Told, Serve, Respond;
    var ms := [Message(1, OpBegin), Message(2, OpBegin), Message(1, OpRead(1, o)), Message(2, OpStage(2, o))];
    SameAnswers(ms, 1, OpCommit(1));
    SameAnswers(ms + [Message(2, OpCommit(2))], 1, OpCommit(1));
    StagedByTheSecond(o, []);
    StagedByTheSecond(o, [Message(2, OpCommit(2))]);
    assert ms + [] == ms;
    SecondCommits(o);
  }

  lemma SecondCommits(o: nat)
    ensures var a := Ideal(map[1 := Deal(1, {o}, {}, 0), 2 := Deal(2, {}, {o}, 0)], {}, [], 2, 0, map[]);
            && Respond(a, 1, OpCommit(1)).status == Ok
            && Respond(Respond(a, 2, OpCommit(2)).next, 1, OpCommit(1)).status == Conflict
  {
    hide Undone;
    var a := Ideal(map[1 := Deal(1, {o}, {}, 0), 2 := Deal(2, {}, {o}, 0)], {}, [], 2, 0, map[]);
    var b := Respond(a, 2, OpCommit(2)).next;
    assert 1 in b.running && b.recent == [{o}] && b.running[1].read == {o};
    assert o in b.recent[0] * b.running[1].read;
  }

  lemma StagedByTheSecond(o: nat, rest: seq<Message>)
    ensures var ms := [Message(1, OpBegin), Message(2, OpBegin), Message(1, OpRead(1, o)), Message(2, OpStage(2, o))];
            After(NOTHING, ms + rest)
            == After(Ideal(map[1 := Deal(1, {o}, {}, 0), 2 := Deal(2, {}, {o}, 0)], {}, [], 2, 0, map[]), rest)
  {
    hide After, Respond;
    var a, b, c, d := Message(1, OpBegin), Message(2, OpBegin), Message(1, OpRead(1, o)), Message(2, OpStage(2, o));
    AfterOne(NOTHING, a, [b, c, d] + rest);
    var x := Respond(NOTHING, 1, OpBegin).next;
    AfterOne(x, b, [c, d] + rest);
    var y := Respond(x, 2, OpBegin).next;
    AfterOne(y, c, [d] + rest);
    AfterOne(Respond(y, 1, OpRead(1, o)).next, d, rest);
    assert [a] + ([b, c, d] + rest) == [a, b, c, d] + rest;
    assert [b] + ([c, d] + rest) == [b, c, d] + rest;
    assert [c] + ([d] + rest) == [c, d] + rest;
    BothBegin();
    ReadAndStage(o);
  }

  lemma BothBegin()
    ensures Respond(Respond(NOTHING, 1, OpBegin).next, 2, OpBegin).next
         == Ideal(map[1 := Deal(1, {}, {}, 0), 2 := Deal(2, {}, {}, 0)], {}, [], 2, 0, map[])
  {
    hide Undone, Committed;
  }

  lemma ReadAndStage(o: nat)
    ensures var y := Ideal(map[1 := Deal(1, {}, {}, 0), 2 := Deal(2, {}, {}, 0)], {}, [], 2, 0, map[]);
            Respond(Respond(y, 1, OpRead(1, o)).next, 2, OpStage(2, o)).next
            == y.(running := map[1 := Deal(1, {o}, {}, 0), 2 := Deal(2, {}, {o}, 0)])
  {
    hide Undone, Committed;
    var y := Ideal(map[1 := Deal(1, {}, {}, 0), 2 := Deal(2, {}, {}, 0)], {}, [], 2, 0, map[]);
    assert Respond(Respond(y, 1, OpRead(1, o)).next, 2, OpStage(2, o)).next.running
        == map[1 := Deal(1, {o}, {}, 0), 2 := Deal(2, {}, {o}, 0)];
  }

  lemma AfterOne(a: Ideal, m: Message, rest: seq<Message>)
    ensures After(a, [m] + rest) == After(Respond(a, m.badge, m.op).next, rest)
  {
    assert ([m] + rest)[1..] == rest;
  }
}
