/**
 The transaction registry (src/sto/registry.c) and its message handlers (src/sto/ipc.c):
 optimistic transactions validated against a log of commits, and capabilities that live and
 die with them.
 */
module Sto {
  const MAX_TX: nat := 64
  const MAX_OBJ: nat := 32
  const MAX_LOG: nat := 128
  const MAX_CAPS: nat := 256
  const MAX_CAPS_PER_TX: nat := 16

  datatype Status = Ok | Conflict | InvalidTx | InvalidState | Quota

  datatype Phase = Free | Active | Committed
  datatype Mode = CommitOnly | ActiveOk

  datatype Tx = Tx(id: nat, owner: nat, phase: Phase, readSet: seq<nat>, writeSet: seq<nat>, caps: seq<nat>)
  datatype Entry = Entry(tx: nat, writeSet: seq<nat>)
  datatype Cap = Cap(id: nat, obj: nat, tx: nat, mode: Mode)

  /** `high` bounds the slots that are searched.  A pool slot with id 0 is free. */
  datatype Registry = Registry(
    txs: seq<Tx>, high: nat, log: seq<Entry>, nextTx: nat, pool: seq<Cap>, nextCap: nat)

  const NO_TX: Tx := Tx(0, 0, Free, [], [], [])
  const NO_CAP: Cap := Cap(0, 0, 0, CommitOnly)

  predicate Shaped(r: Registry) {
    |r.txs| == MAX_TX && |r.pool| == MAX_CAPS && r.high <= MAX_TX
  }

  function Initial(): (r: Registry)
    ensures Shaped(r)
  {
    Registry(seq(MAX_TX, _ => NO_TX), 0, [], 1, seq(MAX_CAPS, _ => NO_CAP), 1)
  }

  // ---- transactions -----------------------------------------------------------------

  function FreeSlot(txs: seq<Tx>, i: nat := 0): (k: int)
    requires i <= |txs|
    ensures k == -1 || (i <= k < |txs| && txs[k].phase == Free)
    decreases |txs| - i
  {
    if i == |txs| then -1 else if txs[i].phase == Free then i else FreeSlot(txs, i + 1)
  }

  predicate Mine(t: Tx, id: nat, badge: nat) {
    t.phase == Active && t.id == id && t.owner == badge
  }

  /** sto_registry_find: the caller's own active transaction, or -1. */
  function FindTx(r: Registry, id: nat, badge: nat, i: nat := 0): (k: int)
    requires Shaped(r) && i <= r.high
    ensures k == -1 || (i <= k < r.high && Mine(r.txs[k], id, badge))
    decreases r.high - i
  {
    if i == r.high then -1 else if Mine(r.txs[i], id, badge) then i else FindTx(r, id, badge, i + 1)
  }

  function Begin(r: Registry, badge: nat): (res: (nat, Registry))
    requires Shaped(r)
    ensures Shaped(res.1)
  {
    var k := FreeSlot(r.txs);
    if k == -1 then (0, r)
    else (r.nextTx, r.(txs := r.txs[k := Tx(r.nextTx, badge, Active, [], [], [])],
                       nextTx := r.nextTx + 1, high := if k >= r.high then k + 1 else r.high))
  }

  /** obj_set_add. */
  function Added(s: seq<nat>, o: nat): (res: (Status, seq<nat>)) {
    if o in s then (Ok, s) else if |s| >= MAX_OBJ then (Quota, s) else (Ok, s + [o])
  }

  predicate Meets(a: seq<nat>, b: seq<nat>) {
    exists o :: o in a && o in b
  }

  /** sto_registry_can_commit: no logged commit wrote what the transaction read. */
  predicate CanCommit(r: Registry, t: Tx) {
    forall i :: 0 <= i < |r.log| ==> !Meets(t.readSet, r.log[i].writeSet)
  }

  function HighWater(txs: seq<Tx>): (n: nat)
    ensures n <= |txs| && (n > 0 ==> txs[n - 1].phase != Free)
    ensures forall k :: n <= k < |txs| ==> txs[k].phase == Free
  {
    if txs == [] then 0 else if txs[|txs| - 1].phase != Free then |txs| else HighWater(txs[..|txs| - 1])
  }

  predicate AnyActive(txs: seq<Tx>) {
    exists k :: 0 <= k < |txs| && txs[k].phase == Active
  }

  /** sto_registry_gc: with nobody active, nobody needs the log. */
  function Collected(r: Registry): (g: Registry) {
    r.(high := HighWater(r.txs), log := if AnyActive(r.txs) then r.log else [])
  }

  /** The pool without the listed caps, or without those of one mode. */
  predicate Doomed(c: Cap, ids: seq<nat>, all: bool) {
    c.id != 0 && c.id in ids && (all || c.mode == ActiveOk)
  }

  function Swept(pool: seq<Cap>, ids: seq<nat>, all: bool): (p: seq<Cap>)
    ensures |p| == |pool|
    ensures forall j :: 0 <= j < |pool| ==> p[j] == if Doomed(pool[j], ids, all) then pool[j].(id := 0) else pool[j]
  {
    seq(|pool|, j requires 0 <= j < |pool| => if Doomed(pool[j], ids, all) then pool[j].(id := 0) else pool[j])
  }

  /** The id is that of a live CommitOnly cap. */
  predicate LiveCommitOnly(pool: seq<Cap>, id: nat) {
    id != 0 && var j := FindCap(pool, id); j != -1 && pool[j].mode == CommitOnly
  }

  predicate KeepsCap(pool: seq<Cap>, ids: seq<nat>) {
    exists i :: 0 <= i < |ids| && LiveCommitOnly(pool, ids[i])
  }

  /** sto_registry_commit of the active transaction in slot k. */
  function Commit(r: Registry, k: nat): (res: (Status, Registry))
    requires Shaped(r) && k < MAX_TX
    ensures Shaped(res.1)
  {
    var t := r.txs[k];
    if |r.log| >= MAX_LOG then (Quota, r)
    else
      var pool := Swept(r.pool, t.caps, false);
      var phase := if KeepsCap(pool, t.caps) then Committed else Free;
      (Ok, Collected(r.(log := r.log + [Entry(t.id, t.writeSet)], pool := pool, txs := r.txs[k := t.(phase := phase)])))
  }

  function Abort(r: Registry, k: nat): (g: Registry)
    requires Shaped(r) && k < MAX_TX
    ensures Shaped(g)
  {
    var t := r.txs[k];
    Collected(r.(pool := Swept(r.pool, t.caps, true), txs := r.txs[k := t.(phase := Free)]))
  }

  // ---- capabilities -----------------------------------------------------------------

  function FreeCap(pool: seq<Cap>, i: nat := 0): (j: int)
    requires i <= |pool|
    ensures j == -1 || (i <= j < |pool| && pool[j].id == 0)
    decreases |pool| - i
  {
    if i == |pool| then -1 else if pool[i].id == 0 then i else FreeCap(pool, i + 1)
  }

  /** sto_registry_wrap: the new cap's id, or 0. */
  function Wrap(r: Registry, k: nat, obj: nat, mode: Mode): (res: (nat, Registry))
    requires Shaped(r) && k < MAX_TX
    ensures Shaped(res.1)
  {
    var t := r.txs[k];
    var j := FreeCap(r.pool);
    if |t.caps| >= MAX_CAPS_PER_TX || j == -1 then (0, r)
    else (r.nextCap, r.(pool := r.pool[j := Cap(r.nextCap, obj, t.id, mode)],
                        txs := r.txs[k := t.(caps := t.caps + [r.nextCap])], nextCap := r.nextCap + 1))
  }

  function FindCap(pool: seq<Cap>, id: nat, i: nat := 0): (j: int)
    requires i <= |pool|
    ensures j == -1 || (i <= j < |pool| && pool[j].id == id)
    ensures j == -1 ==> forall n :: i <= n < |pool| ==> pool[n].id != id
    decreases |pool| - i
  {
    if i == |pool| then -1 else if pool[i].id == id then i else FindCap(pool, id, i + 1)
  }

  /** find_tx_by_id: the first searched slot with the id, whatever its phase. */
  function SlotOf(r: Registry, id: nat, i: nat := 0): (k: int)
    requires Shaped(r) && i <= r.high
    ensures k == -1 || (i <= k < r.high && r.txs[k].id == id)
    ensures k == -1 ==> forall n :: i <= n < r.high ==> r.txs[n].id != id
    decreases r.high - i
  {
    if i == r.high then -1 else if r.txs[i].id == id then i else SlotOf(r, id, i + 1)
  }

  /** sto_registry_wrapped_invocable. */
  predicate Invocable(r: Registry, c: Cap)
    requires Shaped(r)
  {
    var k := SlotOf(r, c.tx);
    && k != -1
    && if c.mode == ActiveOk then r.txs[k].phase == Active || r.txs[k].phase == Committed
       else r.txs[k].phase == Committed
  }

  // ---- messages ---------------------------------------------------------------------

  datatype Op =
    | OpBegin
    | OpRead(tx: nat, obj: nat)
    | OpStage(tx: nat, obj: nat)
    | OpCommit(tx: nat)
    | OpRollback(tx: nat)
    | OpWrap(tx: nat, obj: nat, mode: Mode)
    | OpInvoke(cap: nat)

  /** The server's answer to a message from the client with the badge. */
  function Handle(r: Registry, badge: nat, op: Op): (res: (Status, Registry))
    requires Shaped(r)
    ensures Shaped(res.1)
  {
    match op
    case OpBegin => var b := Begin(r, badge); (if b.0 == 0 then Quota else Ok, b.1)
    case OpRead(tx, obj) =>
      var k := FindTx(r, tx, badge);
      if k == -1 then (InvalidTx, r)
      else var a := Added(r.txs[k].readSet, obj); (a.0, r.(txs := r.txs[k := r.txs[k].(readSet := a.1)]))
    case OpStage(tx, obj) =>
      var k := FindTx(r, tx, badge);
      if k == -1 then (InvalidTx, r)
      else var a := Added(r.txs[k].writeSet, obj); (a.0, r.(txs := r.txs[k := r.txs[k].(writeSet := a.1)]))
    case OpCommit(tx) =>
      var k := FindTx(r, tx, badge);
      if k == -1 then (InvalidTx, r)
      else if !CanCommit(r, r.txs[k]) then (Conflict, Abort(r, k))
      else Commit(r, k)
    case OpRollback(tx) =>
      var k := FindTx(r, tx, badge);
      (Ok, if k == -1 then r else Abort(r, k))
    case OpWrap(tx, obj, mode) =>
      var k := FindTx(r, tx, badge);
      if k == -1 then (InvalidTx, r)
      else var w := Wrap(r, k, obj, mode); (if w.0 == 0 then Quota else Ok, w.1)
    case OpInvoke(cap) =>
      var j := FindCap(r.pool, cap);
      if cap == 0 || j == -1 then (InvalidTx, r)
      else if !Invocable(r, r.pool[j]) then (InvalidState, r)
      else (Ok, r)
  }

  /** The id in the answer to a begin or a wrap; 0 if there is none. */
  function Told(r: Registry, badge: nat, op: Op): (id: nat)
    requires Shaped(r)
  {
    match op
    case OpBegin => Begin(r, badge).0
    case OpWrap(tx, obj, mode) => var k := FindTx(r, tx, badge); if k == -1 then 0 else Wrap(r, k, obj, mode).0
    case _ => 0
  }
}
