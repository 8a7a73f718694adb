/** The registry's code: fixed tables changed in place by search and sweep loops. */
module StoServer {
  import opened Sto

  class Server {
    var txs: seq<Tx>
    var high: nat
    var log: seq<Entry>
    var nextTx: nat
    var pool: seq<Cap>
    var nextCap: nat

    constructor ()
      ensures Current() == Initial()
    {
      txs, high, log, nextTx := seq(MAX_TX, _ => NO_TX), 0, [], 1;
      pool, nextCap := seq(MAX_CAPS, _ => NO_CAP), 1;
    }

    function Current(): (r: Registry)
      reads this
    {
      Registry(txs, high, log, nextTx, pool, nextCap)
    }

    method BeginTx(badge: nat) returns (id: nat)
      requires Shaped(Current())
      modifies this
      ensures (id, Current()) == Begin(old(Current()), badge)
    {
      var i := 0;
      while i < MAX_TX
        invariant 0 <= i <= MAX_TX
        invariant FreeSlot(txs) == FreeSlot(txs, i)
        invariant Current() == old(Current())
      {
        if txs[i].phase == Free {
          id := nextTx;
          txs := txs[i := Tx(nextTx, badge, Active, [], [], [])];
          nextTx := nextTx + 1;
          if i >= high {
            high := i + 1;
          }
          return;
        }
        i := i + 1;
      }
      id := 0;
    }

    method Search(id: nat, badge: nat) returns (k: int)
      requires Shaped(Current())
      ensures k == FindTx(Current(), id, badge)
    {
      var i := 0;
      while i < high
        invariant 0 <= i <= high
        invariant FindTx(Current(), id, badge) == FindTx(Current(), id, badge, i)
      {
        if txs[i].phase == Active && txs[i].id == id && txs[i].owner == badge {
          return i;
        }
        i := i + 1;
      }
      k := -1;
    }

    /** obj_set_contains. */
    static method Contains(s: seq<nat>, o: nat) returns (found: bool)
      ensures found <==> o in s
    {
      var i := 0;
      while i < |s|
        invariant 0 <= i <= |s| && o !in s[..i]
      {
        if s[i] == o {
          return true;
        }
        i := i + 1;
      }
      found := false;
    }

    /** obj_set_add. */
    static method AddObject(s: seq<nat>, o: nat) returns (status: Status, t: seq<nat>)
      ensures (status, t) == Added(s, o)
    {
      var found := Contains(s, o);
      if found {
        return Ok, s;
      }
      if |s| >= MAX_OBJ {
        return Quota, s;
      }
      return Ok, s + [o];
    }

    static method Intersect(a: seq<nat>, b: seq<nat>) returns (found: bool)
      ensures found <==> Meets(a, b)
    {
      var i := 0;
      while i < |a|
        invariant 0 <= i <= |a|
        invariant forall j :: 0 <= j < i ==> a[j] !in b
      {
        var hit := Contains(b, a[i]);
        if hit {
          assert a[i] in a && a[i] in b;
          return true;
        }
        i := i + 1;
      }
      found := false;
    }

    method Validate(k: nat) returns (ok: bool)
      requires Shaped(Current()) && k < MAX_TX
      ensures ok <==> CanCommit(Current(), txs[k])
    {
      var i := 0;
      while i < |log|
        invariant 0 <= i <= |log|
        invariant forall j :: 0 <= j < i ==> !Meets(txs[k].readSet, log[j].writeSet)
      {
        var hit := Intersect(txs[k].readSet, log[i].writeSet);
        if hit {
          return false;
        }
        i := i + 1;
      }
      ok := true;
    }

    method Collect()
      requires Shaped(Current())
      modifies this
      ensures Current() == Collected(old(Current()))
    {
      var live, top, i := 0, 0, 0;
      while i < MAX_TX
        invariant 0 <= i <= MAX_TX && 0 <= live
        invariant live == 0 <==> !AnyActive(txs[..i])
        invariant top == HighWater(txs[..i])
        invariant Current() == old(Current())
      {
        assert txs[..i + 1][..i] == txs[..i] && txs[..i + 1][i] == txs[i];
        assert AnyActive(txs[..i + 1]) <==> AnyActive(txs[..i]) || txs[i].phase == Active by {
          if AnyActive(txs[..i]) {
            var n :| 0 <= n < i && txs[..i][n].phase == Active;
            assert txs[..i + 1][n].phase == Active;
          }
        }
        if txs[i].phase == Active {
          live := live + 1;
        }
        if txs[i].phase != Free {
          top := i + 1;
        }
        i := i + 1;
      }
      assert txs[..i] == txs;
      high := top;
      if live == 0 {
        log := [];
      }
    }

    /** The two nested sweep loops: every cap in the list, or only its ActiveOk ones. */
    method Sweep(ids: seq<nat>, all: bool)
      modifies this`pool
      ensures pool == Swept(old(pool), ids, all)
    {
      var i := 0;
      ghost var was := pool;
      while i < |ids|
        invariant 0 <= i <= |ids|
        invariant pool == Swept(was, ids[..i], all)
      {
        SweepOne(ids[i], all);
        assert ids[..i + 1] == ids[..i] + [ids[i]];
        SweptMore(was, ids[..i], ids[i], all);
        i := i + 1;
      }
      assert ids[..i] == ids;
    }

    method SweepOne(id: nat, all: bool)
      modifies this`pool
      ensures pool == Swept(old(pool), [id], all)
    {
      var j := 0;
      ghost var was := pool;
      while j < |pool|
        invariant 0 <= j <= |pool| == |was|
        invariant forall n :: 0 <= n < |was| ==>
                    pool[n] == if n < j && Doomed(was[n], [id], all) then was[n].(id := 0) else was[n]
      {
        if pool[j].id != 0 && pool[j].id == id && (all || pool[j].mode == ActiveOk) {
          pool := pool[j := pool[j].(id := 0)];
        }
        j := j + 1;
      }
    }

    method SearchCap(id: nat) returns (j: int)
      ensures j == FindCap(pool, id)
    {
      var i := 0;
      while i < |pool|
        invariant 0 <= i <= |pool|
        invariant FindCap(pool, id) == FindCap(pool, id, i)
      {
        if pool[i].id == id {
          return i;
        }
        i := i + 1;
      }
      j := -1;
    }

    /** Does a cap of the transaction still depend on its slot? */
    method KeepsCommitOnly(ids: seq<nat>) returns (keeps: bool)
      ensures keeps <==> KeepsCap(pool, ids)
    {
      var i := 0;
      while i < |ids|
        invariant 0 <= i <= |ids|
        invariant forall n :: 0 <= n < i ==> !LiveCommitOnly(pool, ids[n])
      {
        if ids[i] != 0 {
          var j := SearchCap(ids[i]);
          if j >= 0 && pool[j].mode == CommitOnly {
            assert LiveCommitOnly(pool, ids[i]);
            return true;
          }
        }
        i := i + 1;
      }
      keeps := false;
    }

    method CommitTx(k: nat) returns (status: Status)
      requires Shaped(Current()) && k < MAX_TX
      modifies this
      ensures (status, Current()) == Commit(old(Current()), k)
    {
      if |log| >= MAX_LOG {
        return Quota;
      }
      var t := txs[k];
      log := log + [Entry(t.id, t.writeSet)];
      Sweep(t.caps, false);
      var keeps := KeepsCommitOnly(t.caps);
      txs := txs[k := t.(phase := if keeps then Committed else Free)];
      Collect();
      status := Ok;
    }

    method AbortTx(k: nat)
      requires Shaped(Current()) && k < MAX_TX
      modifies this
      ensures Current() == Abort(old(Current()), k)
    {
      Sweep(txs[k].caps, true);
      txs := txs[k := txs[k].(phase := Free)];
      Collect();
    }

    /** handle_commit. */
    method OnCommit(badge: nat, tx: nat) returns (status: Status)
      requires Shaped(Current())
      modifies this
      ensures (status, Current()) == Handle(old(Current()), badge, OpCommit(tx))
    {
      hide Commit, Abort;
      var k := Search(tx, badge);
      if k < 0 {
        return InvalidTx;
      }
      var ok := Validate(k);
      if !ok {
        AbortTx(k);
        return Conflict;
      }
      status := CommitTx(k);
    }

    method OnBegin(badge: nat) returns (status: Status, id: nat)
      requires Shaped(Current())
      modifies this
      ensures (status, Current()) == Handle(old(Current()), badge, OpBegin)
      ensures id == Told(old(Current()), badge, OpBegin)
    {
      id := BeginTx(badge);
      status := if id == 0 then Quota else Ok;
    }

    /** handle_read. */
    method OnRead(badge: nat, tx: nat, obj: nat) returns (status: Status)
      requires Shaped(Current())
      modifies this
      ensures (status, Current()) == Handle(old(Current()), badge, OpRead(tx, obj))
    {
      var k := Search(tx, badge);
      if k < 0 {
        return InvalidTx;
      }
      var objs;
      status, objs := AddObject(txs[k].readSet, obj);
      txs := txs[k := txs[k].(readSet := objs)];
    }

    /** handle_stage. */
    method OnStage(badge: nat, tx: nat, obj: nat) returns (status: Status)
      requires Shaped(Current())
      modifies this
      ensures (status, Current()) == Handle(old(Current()), badge, OpStage(tx, obj))
    {
      var k := Search(tx, badge);
      if k < 0 {
        return InvalidTx;
      }
      var objs;
      status, objs := AddObject(txs[k].writeSet, obj);
      txs := txs[k := txs[k].(writeSet := objs)];
    }

    method OnRollback(badge: nat, tx: nat)
      requires Shaped(Current())
      modifies this
      ensures Current() == Handle(old(Current()), badge, OpRollback(tx)).1
    {
      hide Abort;
      var k := Search(tx, badge);
      if k >= 0 {
        AbortTx(k);
      }
    }

    method OnWrap(badge: nat, tx: nat, obj: nat, mode: Mode) returns (status: Status, id: nat)
      requires Shaped(Current())
      modifies this
      ensures (status, Current()) == Handle(old(Current()), badge, OpWrap(tx, obj, mode))
      ensures id == Told(old(Current()), badge, OpWrap(tx, obj, mode))
    {
      var k := Search(tx, badge);
      if k < 0 {
        return InvalidTx, 0;
      }
      id := WrapCap(k, obj, mode);
      status := if id == 0 then Quota else Ok;
    }

    /** find_tx_by_id. */
    method SearchById(id: nat) returns (k: int)
      requires Shaped(Current())
      ensures k == SlotOf(Current(), id)
    {
      var i := 0;
      while i < high
        invariant 0 <= i <= high
        invariant SlotOf(Current(), id) == SlotOf(Current(), id, i)
      {
        if txs[i].id == id {
          return i;
        }
        i := i + 1;
      }
      k := -1;
    }

    /** handle_invoke. */
    method OnInvoke(badge: nat, cap: nat) returns (status: Status)
      requires Shaped(Current())
      ensures (status, Current()) == Handle(Current(), badge, OpInvoke(cap))
    {
      if cap == 0 {
        return InvalidTx;
      }
      var j := SearchCap(cap);
      if j < 0 {
        return InvalidTx;
      }
      var k := SearchById(pool[j].tx);
      if k < 0 {
        return InvalidState;
      }
      var phase := txs[k].phase;
      if pool[j].mode == ActiveOk && phase != Active && phase != Committed {
        return InvalidState;
      }
      if pool[j].mode == CommitOnly && phase != Committed {
        return InvalidState;
      }
      status := Ok;
    }

    /** One turn of the server's receive loop. */
    method Dispatch(badge: nat, op: Op) returns (status: Status, id: nat)
      requires Shaped(Current())
      modifies this
      ensures (status, Current()) == Handle(old(Current()), badge, op) && id == Told(old(Current()), badge, op)
    {
      hide Handle, Told;
      id := 0;
      NothingTold(Current(), badge, op);
      match op {
        case OpBegin => status, id := OnBegin(badge);
        case OpRead(tx, obj) => status := OnRead(badge, tx, obj);
        case OpStage(tx, obj) => status := OnStage(badge, tx, obj);
        case OpCommit(tx) => status := OnCommit(badge, tx);
        case OpRollback(tx) =>
          OnRollback(badge, tx);
          status := Ok;
        case OpWrap(tx, obj, mode) => status, id := OnWrap(badge, tx, obj, mode);
        case OpInvoke(cap) => status := OnInvoke(badge, cap);
      }
    }

    method WrapCap(k: nat, obj: nat, mode: Mode) returns (id: nat)
      requires Shaped(Current()) && k < MAX_TX
      modifies this
      ensures (id, Current()) == Wrap(old(Current()), k, obj, mode)
    {
      if |txs[k].caps| >= MAX_CAPS_PER_TX {
        return 0;
      }
      var j := 0;
      while j < MAX_CAPS
        invariant 0 <= j <= MAX_CAPS
        invariant FreeCap(pool) == FreeCap(pool, j)
        invariant Current() == old(Current())
      {
        if pool[j].id == 0 {
          id := nextCap;
          nextCap := nextCap + 1;
          pool := pool[j := Cap(id, obj, txs[k].id, mode)];
          txs := txs[k := txs[k].(caps := txs[k].caps + [id])];
          return;
        }
        j := j + 1;
      }
      id := 0;
    }
  }

  lemma NothingTold(r: Registry, badge: nat, op: Op)
    requires Shaped(r)
    ensures !op.OpBegin? && !op.OpWrap? ==> Told(r, badge, op) == 0
    ensures op.OpRollback? ==> Handle(r, badge, op).0 == Ok
  {
  }

  lemma SweptMore(pool: seq<Cap>, ids: seq<nat>, id: nat, all: bool)
    ensures Swept(Swept(pool, ids, all), [id], all) == Swept(pool, ids + [id], all)
  {
  }
}
