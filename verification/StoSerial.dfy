/**
 Serialisability of the registry: in every run, each committed transaction saw exactly the
 objects as the transactions committed before it had left them.
 */
module StoSerial {
  import opened Sto

  /** A read that was answered Ok, with the version of the object at that moment. */
  datatype Seen = Seen(obj: nat, version: nat)
  datatype Done = Done(tx: nat, seen: set<Seen>, wrote: set<nat>)

  /** The registry, and beside it what the clients know: every commit that was answered Ok, and
      for each transaction what it has seen and what it has staged.  These are kept from the
      messages and their answers, not from the registry's sets and log. */
  datatype World = World(reg: Registry, hist: seq<Done>, seen: map<nat, set<Seen>>, staged: map<nat, set<nat>>)

  /** The number of the last commit that wrote the object, counting from 1; 0 if none did. */
  function Version(hist: seq<Done>, o: nat): (v: nat)
    ensures v <= |hist|
  {
    if hist == [] then 0
    else if o in hist[|hist| - 1].wrote then |hist|
    else Version(hist[..|hist| - 1], o)
  }

  function SeenBy(w: World, tx: nat): (s: set<Seen>) {
    if tx in w.seen then w.seen[tx] else {}
  }

  function StagedBy(w: World, tx: nat): (s: set<nat>) {
    if tx in w.staged then w.staged[tx] else {}
  }

  function WorldStep(w: World, badge: nat, op: Op): (v: World)
    requires Shaped(w.reg)
    ensures Shaped(v.reg)
  {
    var res := Handle(w.reg, badge, op);
    var v := w.(reg := res.1);
    if res.0 != Ok then v else
    match op
    case OpRead(tx, obj) => v.(seen := w.seen[tx := SeenBy(w, tx) + {Seen(obj, Version(w.hist, obj))}])
    case OpStage(tx, obj) => v.(staged := w.staged[tx := StagedBy(w, tx) + {obj}])
    case OpCommit(tx) => v.(hist := w.hist + [Done(tx, SeenBy(w, tx), StagedBy(w, tx))])
    case _ => v
  }

  /** The order of commits is a serial order with the same reads. */
  ghost predicate Serial(hist: seq<Done>) {
    forall i, s :: 0 <= i < |hist| && s in hist[i].seen ==> s.version == Version(hist[..i], s.obj)
  }

  // ---- the invariant ----------------------------------------------------------------

  predicate SlotsOk(r: Registry)
    requires Shaped(r)
  {
    && r.nextTx > 0
    && (forall k :: 0 <= k < MAX_TX ==> r.txs[k].id < r.nextTx && (r.txs[k].phase != Free ==> k < r.high && r.txs[k].id > 0))
    && (forall j, k :: 0 <= j < k < MAX_TX && r.txs[j].id > 0 ==> r.txs[j].id != r.txs[k].id)
  }

  ghost predicate Logged(log: seq<Entry>, o: nat) {
    exists i :: 0 <= i < |log| && o in log[i].writeSet
  }

  /** The log holds the last commits of the history. */
  ghost predicate Recent(hist: seq<Done>, log: seq<Entry>) {
    && |log| <= |hist|
    && forall i, o :: 0 <= i < |log| ==> (o in log[i].writeSet <==> o in hist[|hist| - |log| + i].wrote)
  }

  /** The registry's sets hold what was read and staged, and nothing else. */
  ghost predicate Recorded(w: World, t: Tx) {
    && (forall o :: o in t.writeSet <==> o in StagedBy(w, t.id))
    && (forall o :: o in t.readSet ==> exists s :: s in SeenBy(w, t.id) && s.obj == o)
  }

  /** What was seen is in the read set, and still current unless the log says otherwise. */
  ghost predicate Accounted(hist: seq<Done>, log: seq<Entry>, t: Tx, s: Seen) {
    s.obj in t.readSet && s.version <= |hist| && (s.version == Version(hist, s.obj) || Logged(log, s.obj))
  }

  ghost predicate Reads(w: World, t: Tx) {
    Recorded(w, t) && forall s :: s in SeenBy(w, t.id) ==> Accounted(w.hist, w.reg.log, t, s)
  }

  ghost predicate Inv(w: World) {
    && Shaped(w.reg) && SlotsOk(w.reg) && Serial(w.hist) && Recent(w.hist, w.reg.log)
    && (forall tx :: tx in w.seen || tx in w.staged ==> tx < w.reg.nextTx)
    && (forall k :: 0 <= k < MAX_TX && w.reg.txs[k].phase == Active ==> Reads(w, w.reg.txs[k]))
  }

  const START: World := World(Initial(), [], map[], map[])

  lemma StartInv()
    ensures Inv(START)
  {
  }

  lemma BeginInv(w: World, badge: nat)
    requires Inv(w)
    ensures Inv(WorldStep(w, badge, OpBegin))
  {
    var v := WorldStep(w, badge, OpBegin);
    forall k | 0 <= k < MAX_TX && v.reg.txs[k].phase == Active
      ensures Reads(v, v.reg.txs[k])
    {
      if v.reg.txs[k] == w.reg.txs[k] {
        assert Reads(w, w.reg.txs[k]);
      }
    }
  }

  /** Changing one active transaction's sets and the caps, keeping what it is. */
  lemma SetsInv(w: World, v: World, k: nat)
    requires Inv(w) && k < MAX_TX && w.reg.txs[k].phase == Active && |v.reg.txs| == MAX_TX
    requires v.reg == w.reg.(txs := w.reg.txs[k := v.reg.txs[k]], pool := v.reg.pool, nextCap := v.reg.nextCap)
    requires |v.reg.pool| == MAX_CAPS && v.hist == w.hist
    requires v.reg.txs[k].id == w.reg.txs[k].id && v.reg.txs[k].phase == Active
    requires forall tx :: tx in v.seen || tx in v.staged ==> tx < w.reg.nextTx
    requires forall tx :: tx != w.reg.txs[k].id ==> SeenBy(v, tx) == SeenBy(w, tx) && StagedBy(v, tx) == StagedBy(w, tx)
    requires Reads(v, v.reg.txs[k])
    ensures Inv(v)
  {
    hide Serial, Recent;
    forall j | 0 <= j < MAX_TX && v.reg.txs[j].phase == Active
      ensures Reads(v, v.reg.txs[j])
    {
      if j != k {
        assert Reads(w, w.reg.txs[j]);
        assert w.reg.txs[j].id != w.reg.txs[k].id;
      }
    }
  }

  lemma ReadReads(w: World, badge: nat, tx: nat, obj: nat, k: nat)
    requires Shaped(w.reg) && k < MAX_TX && FindTx(w.reg, tx, badge) == k && Reads(w, w.reg.txs[k])
    ensures var v := WorldStep(w, badge, OpRead(tx, obj)); Reads(v, v.reg.txs[k])
  {
    var v := WorldStep(w, badge, OpRead(tx, obj));
    var t, u := w.reg.txs[k], v.reg.txs[k];
    forall o | o in u.readSet
      ensures exists s :: s in SeenBy(v, tx) && s.obj == o
    {
      if o in t.readSet {
        var s :| s in SeenBy(w, tx) && s.obj == o;
        assert s in SeenBy(v, tx);
      } else {
        assert Seen(obj, Version(w.hist, obj)) in SeenBy(v, tx);
      }
    }
  }

  lemma StageReads(w: World, badge: nat, tx: nat, obj: nat, k: nat)
    requires Shaped(w.reg) && k < MAX_TX && FindTx(w.reg, tx, badge) == k && Reads(w, w.reg.txs[k])
    ensures var v := WorldStep(w, badge, OpStage(tx, obj)); Reads(v, v.reg.txs[k])
  {
    hide Version;
    var v := WorldStep(w, badge, OpStage(tx, obj));
    assert forall s :: s in SeenBy(v, tx) ==> Accounted(w.hist, w.reg.log, w.reg.txs[k], s);
  }

  lemma ReadInv(w: World, badge: nat, tx: nat, obj: nat)
    requires Inv(w)
    ensures Inv(WorldStep(w, badge, OpRead(tx, obj)))
  {
    hide Serial, Inv, Reads;
    OpenInv(w);
    var k := FindTx(w.reg, tx, badge);
    var v := WorldStep(w, badge, OpRead(tx, obj));
    if k != -1 {
      ReadReads(w, badge, tx, obj, k);
      SetsInv(w, v, k);
    }
  }

  lemma OpenInv(w: World)
    requires Inv(w)
    ensures Shaped(w.reg) && SlotsOk(w.reg)
    ensures forall tx :: tx in w.seen || tx in w.staged ==> tx < w.reg.nextTx
    ensures forall k :: 0 <= k < MAX_TX && w.reg.txs[k].phase == Active ==> Reads(w, w.reg.txs[k])
  {
  }

  lemma StageInv(w: World, badge: nat, tx: nat, obj: nat)
    requires Inv(w)
    ensures Inv(WorldStep(w, badge, OpStage(tx, obj)))
  {
    hide Serial, Inv, Reads;
    OpenInv(w);
    var k := FindTx(w.reg, tx, badge);
    var v := WorldStep(w, badge, OpStage(tx, obj));
    if k != -1 {
      StageReads(w, badge, tx, obj, k);
      SetsInv(w, v, k);
    }
  }

  lemma WrapInv(w: World, badge: nat, tx: nat, obj: nat, mode: Mode)
    requires Inv(w)
    ensures Inv(WorldStep(w, badge, OpWrap(tx, obj, mode)))
  {
    hide Serial, Inv, Reads;
    OpenInv(w);
    var k := FindTx(w.reg, tx, badge);
    var v := WorldStep(w, badge, OpWrap(tx, obj, mode));
    if k != -1 {
      SameReads(w, v, w.reg.txs[k], v.reg.txs[k]);
      SetsInv(w, v, k);
    }
  }

  lemma SameReads(w: World, v: World, t: Tx, u: Tx)
    requires Reads(w, t) && v.hist == w.hist && v.reg.log == w.reg.log && v.seen == w.seen && v.staged == w.staged
    requires u.id == t.id && u.readSet == t.readSet && u.writeSet == t.writeSet
    ensures Reads(v, u)
  {
    assert forall s :: s in SeenBy(v, u.id) ==> Accounted(w.hist, w.reg.log, t, s);
  }

  /** Ending a transaction: the others keep their accounts when the history and the log grow by
      the same commit, or not at all. */
  lemma EndInv(w: World, k: nat, phase: Phase, pool: seq<Cap>, done: seq<Done>, entry: seq<Entry>)
    requires Inv(w) && k < MAX_TX && w.reg.txs[k].phase == Active && phase != Active && |pool| == MAX_CAPS
    requires Serial(w.hist + done) && Alike(done, entry)
    ensures var txs := w.reg.txs[k := w.reg.txs[k].(phase := phase)];
            Inv(w.(reg := Collected(w.reg.(log := w.reg.log + entry, pool := pool, txs := txs)), hist := w.hist + done))
  {
    var r := w.reg.(log := w.reg.log + entry, pool := pool, txs := w.reg.txs[k := w.reg.txs[k].(phase := phase)]);
    var v := w.(reg := Collected(r), hist := w.hist + done);
    assert Recent(w.hist + done, w.reg.log + entry);
    forall j | 0 <= j < MAX_TX && v.reg.txs[j].phase == Active
      ensures Reads(v, v.reg.txs[j])
    {
      assert AnyActive(r.txs) && v.reg.log == w.reg.log + entry;
      assert Reads(w, w.reg.txs[j]);
      forall s | s in SeenBy(v, v.reg.txs[j].id)
        ensures Accounted(v.hist, v.reg.log, v.reg.txs[j], s)
      {
        assert Accounted(w.hist, w.reg.log, w.reg.txs[j], s);
        AccountGrows(w.hist, w.reg.log, w.reg.txs[j], s, done, entry);
      }
    }
  }

  /** The log grows by what the history does. */
  ghost predicate Alike(done: seq<Done>, entry: seq<Entry>) {
    || (done == [] && entry == [])
    || (|done| == 1 && |entry| == 1 && forall o :: o in entry[0].writeSet <==> o in done[0].wrote)
  }

  lemma AccountGrows(hist: seq<Done>, log: seq<Entry>, t: Tx, s: Seen, done: seq<Done>, entry: seq<Entry>)
    requires Accounted(hist, log, t, s) && Alike(done, entry)
    ensures Accounted(hist + done, log + entry, t, s)
  {
    if done == [] {
      assert hist + done == hist && log + entry == log;
    } else {
      assert (hist + done)[..|hist|] == hist;
      if s.obj in done[0].wrote {
        assert s.obj in (log + entry)[|log|].writeSet;
      } else if Logged(log, s.obj) {
        var i :| 0 <= i < |log| && s.obj in log[i].writeSet;
        assert s.obj in (log + entry)[i].writeSet;
      }
    }
  }

  /** Validation is enough: a transaction that may commit has seen only current versions. */
  lemma ValidatedIsCurrent(w: World, k: nat)
    requires Inv(w) && k < MAX_TX && w.reg.txs[k].phase == Active && CanCommit(w.reg, w.reg.txs[k])
    ensures forall s :: s in SeenBy(w, w.reg.txs[k].id) ==> s.version == Version(w.hist, s.obj)
  {
    var t := w.reg.txs[k];
    assert Reads(w, t);
    forall s | s in SeenBy(w, t.id)
      ensures s.version == Version(w.hist, s.obj)
    {
      assert Accounted(w.hist, w.reg.log, t, s);
      assert forall i :: 0 <= i < |w.reg.log| && s.obj in w.reg.log[i].writeSet ==> Meets(t.readSet, w.reg.log[i].writeSet);
    }
  }

  lemma SerialGrows(hist: seq<Done>, d: Done)
    requires Serial(hist) && forall s :: s in d.seen ==> s.version == Version(hist, s.obj)
    ensures Serial(hist + [d])
  {
    var h := hist + [d];
    forall i, s | 0 <= i < |h| && s in h[i].seen
      ensures s.version == Version(h[..i], s.obj)
    {
      if i < |hist| {
        assert h[..i] == hist[..i];
      } else {
        assert h[..i] == hist;
      }
    }
  }

  lemma CommitInv(w: World, badge: nat, tx: nat)
    requires Inv(w)
    ensures Inv(WorldStep(w, badge, OpCommit(tx)))
  {
    hide Serial, Collected, Swept;
    var k := FindTx(w.reg, tx, badge);
    if k != -1 {
      var t := w.reg.txs[k];
      if !CanCommit(w.reg, t) {
        assert w.hist + [] == w.hist && w.reg.log + [] == w.reg.log;
        EndInv(w, k, Free, Swept(w.reg.pool, t.caps, true), [], []);
      } else if |w.reg.log| < MAX_LOG {
        ValidatedIsCurrent(w, k);
        var d := Done(tx, SeenBy(w, tx), StagedBy(w, tx));
        SerialGrows(w.hist, d);
        var pool := Swept(w.reg.pool, t.caps, false);
        EndInv(w, k, if KeepsCap(pool, t.caps) then Committed else Free, pool, [d], [Entry(tx, t.writeSet)]);
      }
    }
  }

  lemma RollbackInv(w: World, badge: nat, tx: nat)
    requires Inv(w)
    ensures Inv(WorldStep(w, badge, OpRollback(tx)))
  {
    hide Serial, Collected, Swept;
    var k := FindTx(w.reg, tx, badge);
    if k != -1 {
      assert w.hist + [] == w.hist && w.reg.log + [] == w.reg.log;
      EndInv(w, k, Free, Swept(w.reg.pool, w.reg.txs[k].caps, true), [], []);
    }
  }

  lemma StepInv(w: World, badge: nat, op: Op)
    requires Inv(w)
    ensures Inv(WorldStep(w, badge, op))
  {
    hide Inv;
    OpenInv(w);
    match op {
      case OpBegin => BeginInv(w, badge);
      case OpRead(tx, obj) => ReadInv(w, badge, tx, obj);
      case OpStage(tx, obj) => StageInv(w, badge, tx, obj);
      case OpCommit(tx) => CommitInv(w, badge, tx);
      case OpRollback(tx) => RollbackInv(w, badge, tx);
      case OpWrap(tx, obj, mode) => WrapInv(w, badge, tx, obj, mode);
      case OpInvoke(cap) => assert WorldStep(w, badge, op) == w;
    }
  }

  datatype Message = Message(badge: nat, op: Op)

  function Run(w: World, ms: seq<Message>): (v: World)
    requires Shaped(w.reg)
    ensures Shaped(v.reg)
    decreases |ms|
  {
    if ms == [] then w else Run(WorldStep(w, ms[0].badge, ms[0].op), ms[1..])
  }

  lemma {:induction false} RunInv(w: World, ms: seq<Message>)
    requires Inv(w)
    ensures Inv(Run(w, ms))
    decreases |ms|
  {
    hide Inv;
    OpenInv(w);
    if ms != [] {
      StepInv(w, ms[0].badge, ms[0].op);
      RunInv(WorldStep(w, ms[0].badge, ms[0].op), ms[1..]);
    }
  }

  /** Any clients, any interleaving of their messages, with log collection and quotas: the
      committed transactions are serialisable in commit order. */
  lemma RunIsSerialisable(ms: seq<Message>)
    ensures Serial(Run(START, ms).hist)
  {
    StartInv();
    RunInv(START, ms);
  }

  /** In every run, what an active transaction is validated by is what it was told Ok for: its
      write set is what it staged and its read set what it read. */
  lemma SetsAreTheRecord(ms: seq<Message>, k: nat)
    requires k < MAX_TX && Run(START, ms).reg.txs[k].phase == Active
    ensures var w := Run(START, ms); var t := w.reg.txs[k];
            && (set o | o in t.writeSet) == StagedBy(w, t.id)
            && (set o | o in t.readSet) == (set s | s in SeenBy(w, t.id) :: s.obj)
  {
    hide Serial, Recent;
    StartInv();
    RunInv(START, ms);
    var w := Run(START, ms);
    var t := w.reg.txs[k];
    assert Reads(w, t) && Recorded(w, t);
    forall s | s in SeenBy(w, t.id)
      ensures s.obj in t.readSet
    {
      assert Accounted(w.hist, w.reg.log, t, s);
    }
  }

  // ---- and never lets a stale reader through ------------------------------------------

  /** A transaction that has seen a version that is no longer the latest is refused. */
  lemma StaleIsRefused(w: World, k: nat, s: Seen)
    requires Inv(w) && k < MAX_TX && w.reg.txs[k].phase == Active
    requires s in SeenBy(w, w.reg.txs[k].id) && s.version != Version(w.hist, s.obj)
    ensures Handle(w.reg, w.reg.txs[k].owner, OpCommit(w.reg.txs[k].id)).0 == Conflict
  {
    hide Abort, Commit, Serial;
    FindTxIs(w.reg, k, 0);
    if CanCommit(w.reg, w.reg.txs[k]) {
      ValidatedIsCurrent(w, k);
    }
  }

  lemma SeenBound(w: World, k: nat, s: Seen)
    requires Inv(w) && k < MAX_TX && w.reg.txs[k].phase == Active && s in SeenBy(w, w.reg.txs[k].id)
    ensures s.version <= |w.hist|
  {
    assert Reads(w, w.reg.txs[k]) && Accounted(w.hist, w.reg.log, w.reg.txs[k], s);
  }

  /** So of two transactions of which one has read what the other has staged, the reader is
      refused once the writer has committed. */
  lemma OverwrittenReaderIsRefused(w: World, reader: nat, writer: nat, s: Seen)
    requires Inv(w) && reader < MAX_TX && writer < MAX_TX && reader != writer
    requires w.reg.txs[reader].phase == Active && w.reg.txs[writer].phase == Active
    requires s in SeenBy(w, w.reg.txs[reader].id) && s.obj in StagedBy(w, w.reg.txs[writer].id)
    ensures var (a, b) := (w.reg.txs[reader], w.reg.txs[writer]);
            var res := Handle(w.reg, b.owner, OpCommit(b.id));
            res.0 == Ok ==> Handle(res.1, a.owner, OpCommit(a.id)).0 == Conflict
  {
    hide Serial, Reads, Abort, Recent, Swept, KeepsCap;
    var a, b := w.reg.txs[reader], w.reg.txs[writer];
    FindTxIs(w.reg, writer, 0);
    var v := WorldStep(w, b.owner, OpCommit(b.id));
    CommitInv(w, b.owner, b.id);
    if Handle(w.reg, b.owner, OpCommit(b.id)).0 == Ok {
      SeenBound(w, reader, s);
      assert v.hist[..|w.hist|] == w.hist;
      StaleIsRefused(v, reader, s);
    }
  }

  // ---- what validation costs --------------------------------------------------------

  /** Ids are unique, so a transaction is found by its own id and badge. */
  lemma {:induction false} FindTxIs(r: Registry, k: nat, i: nat)
    requires Shaped(r) && SlotsOk(r) && i <= k < MAX_TX && r.txs[k].phase == Active
    ensures k < r.high && FindTx(r, r.txs[k].id, r.txs[k].owner, i) == k
    decreases k - i
  {
    if i < k {
      FindTxIs(r, k, i + 1);
    }
  }

  /** A new transaction that reads one object and commits at once has seen its latest version,
      and is refused all the same exactly when some commit still in the log wrote it: the log
      is not cut at the transaction's start. */
  lemma FreshReaderRefusedIff(w: World, badge: nat, o: nat)
    requires Inv(w) && FreeSlot(w.reg.txs) != -1
    ensures var a := WorldStep(w, badge, OpBegin);
            var b := WorldStep(a, badge, OpRead(w.reg.nextTx, o));
            && SeenBy(b, w.reg.nextTx) == {Seen(o, Version(b.hist, o))}
            && (Handle(b.reg, badge, OpCommit(w.reg.nextTx)).0 == Conflict <==> Logged(w.reg.log, o))
  {
    hide Serial, Reads, Abort, Inv, Version, Swept, KeepsCap, Collected;
    OpenInv(w);
    var tx, k := w.reg.nextTx, FreeSlot(w.reg.txs);
    var a := WorldStep(w, badge, OpBegin);
    BeginInv(w, badge);
    OpenInv(a);
    FindTxIs(a.reg, k, 0);
    var b := WorldStep(a, badge, OpRead(tx, o));
    ReadInv(a, badge, tx, o);
    OpenInv(b);
    FindTxIs(b.reg, k, 0);
    assert b.reg.txs[k].readSet == [o] && b.reg.log == w.reg.log;
    assert CanCommit(b.reg, b.reg.txs[k]) <==> !Logged(w.reg.log, o) by {
      if i :| 0 <= i < |w.reg.log| && o in w.reg.log[i].writeSet {
        assert Meets([o], w.reg.log[i].writeSet);
      }
    }
  }
}
