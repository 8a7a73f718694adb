/** Any number of sessions taking turns in the one graph, and disconnecting. */
module ContainmentShared {
  import opened Machine
  import opened SotfsGraph
  import opened Containment
  import opened ContainmentRun
  import opened ContainmentReap

  /** A session's operation, or its disconnect, which reaps it. */
  datatype Turn = Turn(session: U32, op: Op) | End(session: U32)

  function After(fs: Fs, t: Turn): (g: Fs) {
    match t
    case Turn(s, op) => Step(fs, s, op)
    case End(s) => Reap(fs, s)
  }

  /** Everything in a session's directory is that session's, for every session. */
  predicate ClosedAll(fs: Fs) {
    forall k :: k in fs.edges ==>
      Owner(fs, fs.edges[k].parent) == 0 || Owner(fs, fs.edges[k].child) == Owner(fs, fs.edges[k].parent)
  }

  predicate Sound(fs: Fs) {
    InodesOk(fs) && EdgesOk(fs) && BlocksOk(fs) && ClosedAll(fs)
  }

  lemma SoundWf(fs: Fs, s: U32)
    requires Sound(fs) && s != 0
    ensures Wf(fs, s)
  {
  }

  /** A session acts as allowed, and makes nodes only in directories it can see. */
  predicate Fair(fs: Fs, t: Turn) {
    && t.session != 0
    && (t.Turn? ==> Allowed(fs, t.session, t.op) && (t.op.MakeNode? ==> Visible(fs, t.op.parent, t.session)))
  }

  /** Only making a node adds an edge or a tag. */
  lemma {:induction false} LoopShape(fs: Fs, file: int, off: nat, buf: seq<Byte>, orig: nat, done: nat)
    requires done <= |buf|
    ensures var g := WriteLoop(fs, file, off, buf, orig, done).1; g.edges == fs.edges && g.owner == fs.owner
    decreases |buf| - done
  {
    hide WriteLoop, WriteChunk;
    LoopUnfolds(fs, file, off, buf, orig, done);
    if done < |buf| {
      var n := ChunkLen(off + done, |buf| - done);
      ChunkShape(fs, file, off + done, buf[done..done + n], orig);
      LoopShape(WriteChunk(fs, file, off + done, buf[done..done + n], orig).1, file, off, buf, orig, done + n);
    }
  }

  lemma ChunkShape(fs: Fs, file: int, cur: nat, chunk: seq<Byte>, orig: nat)
    requires cur % BLOCK + |chunk| <= BLOCK
    ensures var g := WriteChunk(fs, file, cur, chunk, orig).1; g.edges == fs.edges && g.owner == fs.owner
  {
  }

  lemma StepShape(fs: Fs, s: U32, op: Op)
    requires !op.MakeNode?
    ensures var g := Step(fs, s, op);
            g.owner == fs.owner && forall k :: k in g.edges ==> k in fs.edges && g.edges[k] == fs.edges[k]
  {
    if op.WriteNode? {
      hide WriteLoop, WriteFile;
      WriteUnfolds(fs, s, op.id, op.off, op.buf);
      if op.id in fs.inodes {
        LoopShape(fs, op.id, op.off, op.buf, fs.inodes[op.id].size, 0);
      }
    }
  }

  lemma MakeClosed(fs: Fs, s: U32, p: int, name: string, kind: Kind, mode: nat)
    requires s != 0 && Sound(fs) && Visible(fs, p, s)
    ensures ClosedAll(Create(fs, s, p, name, kind, mode).1)
  {
    hide FindEdge, NextFree, BlocksOk;
    var (rc, g) := Create(fs, s, p, name, kind, mode);
    if rc > 0 {
      assert forall i :: i != rc ==> Owner(g, i) == Owner(fs, i);
      forall k | k in g.edges
        ensures Owner(g, g.edges[k].parent) == 0 || Owner(g, g.edges[k].child) == Owner(g, g.edges[k].parent)
      {
        if k in fs.edges && g.edges[k] == fs.edges[k] {
          assert g.edges[k].parent != rc && g.edges[k].child != rc;
        }
      }
    } else {
      assert forall i :: Owner(g, i) == Owner(fs, i);
    }
  }

  lemma EndClosed(fs: Fs, s: U32)
    requires s != 0 && Sound(fs)
    ensures ClosedAll(Reap(fs, s))
  {
    var g := Reap(fs, s);
    assert forall i :: Owner(g, i) == if Owner(fs, i) == s then 0 else Owner(fs, i);
  }

  lemma StepSound(fs: Fs, s: U32, op: Op)
    requires Sound(fs) && Fair(fs, Turn(s, op))
    ensures Sound(Step(fs, s, op)) && Same(fs, Step(fs, s, op), s)
  {
    hide Step, Same;
    var g := Step(fs, s, op);
    SoundWf(fs, s);
    StepKeeps(fs, s, op);
    if op.MakeNode? {
      MakeClosed(fs, s, op.parent, op.name, op.kind, op.mode);
      MakeIs(fs, s, op);
    } else {
      StepShape(fs, s, op);
      assert forall i :: Owner(g, i) == Owner(fs, i);
    }
  }

  lemma TurnSound(fs: Fs, t: Turn)
    requires Sound(fs) && Fair(fs, t)
    ensures Sound(After(fs, t)) && Same(fs, After(fs, t), t.session)
  {
    hide Step, Same, Reap, Allowed;
    match t {
      case Turn(s, op) => StepSound(fs, s, op);
      case End(s) =>
        SoundWf(fs, s);
        ReapWf(fs, s);
        ReapSame(fs, s);
        EndClosed(fs, s);
    }
  }

  lemma MakeIs(fs: Fs, s: U32, op: Op)
    requires op.MakeNode?
    ensures Step(fs, s, op) == Create(fs, s, op.parent, op.name, op.kind, op.mode).1
  {
  }

  /** A turn changes nobody's view but the acting session's own. */
  lemma TurnUnseen(fs: Fs, t: Turn, u: U32, root: int, path: seq<string>)
    requires Sound(fs) && Fair(fs, t) && u != t.session
    ensures Look(After(fs, t), u, root, path) == Look(fs, u, root, path)
  {
    hide After, Same, Look;
    var g := After(fs, t);
    TurnSound(fs, t);
    SoundWf(fs, t.session);
    SoundWf(g, t.session);
    LookSame(fs, g, t.session, u, root, path);
  }

  function Turns(fs: Fs, ts: seq<Turn>): (g: Fs)
    decreases |ts|
  {
    if ts == [] then fs else Turns(After(fs, ts[0]), ts[1..])
  }

  predicate FairTurns(fs: Fs, ts: seq<Turn>)
    decreases |ts|
  {
    ts == [] || (Fair(fs, ts[0]) && FairTurns(After(fs, ts[0]), ts[1..]))
  }

  lemma {:induction false} TurnsSound(fs: Fs, ts: seq<Turn>)
    requires Sound(fs) && FairTurns(fs, ts)
    ensures Sound(Turns(fs, ts))
    decreases |ts|
  {
    hide After, Sound, Fair;
    if ts != [] {
      TurnSound(fs, ts[0]);
      TurnsSound(After(fs, ts[0]), ts[1..]);
    }
  }

  /** In every interleaving of any sessions' operations and disconnects, whoever takes no turn,
      the operator always among them, sees at the end exactly what they saw at the start. */
  lemma {:induction false} BystandersSeeNothing(fs: Fs, ts: seq<Turn>, u: U32, root: int, path: seq<string>)
    requires Sound(fs) && FairTurns(fs, ts) && forall i :: 0 <= i < |ts| ==> ts[i].session != u
    ensures Sound(Turns(fs, ts)) && Look(Turns(fs, ts), u, root, path) == Look(fs, u, root, path)
    decreases |ts|
  {
    hide After, Sound, Fair, Look;
    if ts != [] {
      TurnSound(fs, ts[0]);
      TurnUnseen(fs, ts[0], u, root, path);
      BystandersSeeNothing(After(fs, ts[0]), ts[1..], u, root, path);
    }
  }

  // ---- when a disconnect is seen ----------------------------------------------------

  /** An entry that leads to a directory of session t, and in it a node that is not t's. */
  predicate Lodged(fs: Fs, t: U32, j: int, k: int) {
    && j in fs.edges && k in fs.edges && fs.edges[j].child == fs.edges[k].parent
    && Owner(fs, fs.edges[j].child) == t && Owner(fs, fs.edges[k].child) != t
  }

  ghost predicate NoLodger(fs: Fs, t: U32) {
    forall j, k :: !Lodged(fs, t, j, k)
  }

  /** Searching the edges that are left finds what it found, or nothing. */
  lemma ReapFinds(fs: Fs, t: U32, dir: int, name: string)
    requires t != 0 && EdgesOk(fs)
    ensures var k := FindEdge(fs.edges, dir, name);
            FindEdge(Reap(fs, t).edges, dir, name) == if k != 0 && Owner(fs, fs.edges[k].child) == t then 0 else k
  {
    var g, k := Reap(fs, t), FindEdge(fs.edges, dir, name);
    var m := FindEdge(g.edges, dir, name);
    assert k != 0 && Owner(fs, fs.edges[k].child) != t ==> k in g.edges && g.edges[k] == fs.edges[k];
    if m != 0 {
      FindEdgeUnique(fs, m);
    }
  }

  lemma NotThroughOwn(fs: Fs, t: U32, root: int, path: seq<string>, k: int)
    requires NoLodger(fs, t) && k in fs.edges && Owner(fs, fs.edges[k].child) != t
    requires Resolve(fs, root, path) == fs.edges[k].parent != 0
    ensures path == [] || Owner(fs, fs.edges[k].parent) != t
  {
    hide FindEdge;
    if path != [] {
      var j := FindEdge(fs.edges, Resolve(fs, root, path[..|path| - 1]), path[|path| - 1]);
      assert !Lodged(fs, t, j, k);
    }
  }

  lemma {:induction false} ReapResolves(fs: Fs, t: U32, root: int, path: seq<string>)
    requires t != 0 && EdgesOk(fs) && InodesOk(fs)
    ensures var id, id' := Resolve(fs, root, path), Resolve(Reap(fs, t), root, path);
            && (id' != 0 ==> id' == id)
            && (NoLodger(fs, t) && ForeignInode(fs, t, id) ==> id' == id)
    decreases |path|
  {
    hide FindEdge, Reap;
    if path != [] {
      var init, name := path[..|path| - 1], path[|path| - 1];
      var dir := Resolve(fs, root, init);
      ReapResolves(fs, t, root, init);
      ReapFinds(fs, t, dir, name);
      ReapSubset(fs, t);
      var k := FindEdge(fs.edges, dir, name);
      if NoLodger(fs, t) && ForeignInode(fs, t, Resolve(fs, root, path)) {
        NotThroughOwn(fs, t, root, init, k);
      }
    }
  }

  lemma ReapSubset(fs: Fs, t: U32)
    ensures forall k :: k in Reap(fs, t).edges ==> k in fs.edges && Reap(fs, t).edges[k] == fs.edges[k]
  {
  }

  lemma ReapChildren(fs: Fs, t: U32, u: U32, id: int)
    requires t != 0 && u != t
    ensures Children(Reap(fs, t), u, id) == Children(fs, u, id)
  {
    var g := Reap(fs, t);
    forall k
      ensures k in Children(fs, u, id) <==> k in Children(g, u, id)
      ensures k in Children(fs, u, id) ==> Children(fs, u, id)[k] == Children(g, u, id)[k]
    {
      if k in fs.edges {
        ReapOwner(fs, t, fs.edges[k].child);
      }
    }
  }

  lemma EndUnseen(fs: Fs, t: U32, u: U32, root: int, path: seq<string>)
    requires t != 0 && u != t && EdgesOk(fs) && InodesOk(fs) && NoLodger(fs, t)
    ensures Look(Reap(fs, t), u, root, path) == Look(fs, u, root, path)
  {
    hide Reap, NoLodger, FileBytes, Children, Resolve;
    var id := Resolve(fs, root, path);
    ReapResolves(fs, t, root, path);
    ReapSame(fs, t);
    ReapOwner(fs, t, id);
    ReapInodes(fs, t);
    if ForeignInode(fs, t, id) {
      BytesSame(fs, Reap(fs, t), t, id);
      ReapChildren(fs, t, u, id);
    }
  }

  lemma EndSeen(fs: Fs, t: U32, j: int, k: int)
    requires t != 0 && EdgesOk(fs) && InodesOk(fs) && Lodged(fs, t, j, k)
    ensures var path := [fs.edges[j].name, fs.edges[k].name];
            var u := Owner(fs, fs.edges[k].child);
            && u != t && Look(fs, u, fs.edges[j].parent, path).Found?
            && Look(Reap(fs, t), u, fs.edges[j].parent, path) == NotFound
  {
    hide FindEdge, Reap, FileBytes, Children;
    var root, d := fs.edges[j].parent, fs.edges[j].child;
    var path := [fs.edges[j].name, fs.edges[k].name];
    var g := Reap(fs, t);
    assert path[..1] == [fs.edges[j].name] && [fs.edges[j].name][..0] == [];
    FindEdgeUnique(fs, j);
    FindEdgeUnique(fs, k);
    assert Resolve(fs, root, [fs.edges[j].name]) == d;
    assert Resolve(fs, root, path) == fs.edges[k].child;
    ReapFinds(fs, t, root, fs.edges[j].name);
    assert Resolve(g, root, [fs.edges[j].name]) == 0;
    assert Resolve(g, root, path) == 0;
    ReapInodes(fs, t);
  }

  lemma ReapInodes(fs: Fs, t: U32)
    requires t != 0
    ensures forall i :: i in Reap(fs, t).inodes <==> ForeignInode(fs, t, i)
  {
  }

  /** With nodes made anywhere: a disconnect changes nobody else's view if and only if no node of
      anybody else is in a directory of the session that some entry leads to. */
  lemma EndUnseenIff(fs: Fs, t: U32)
    requires t != 0 && EdgesOk(fs) && InodesOk(fs)
    ensures (forall u: U32, root, path | u != t :: Look(Reap(fs, t), u, root, path) == Look(fs, u, root, path))
       <==> NoLodger(fs, t)
  {
    hide Look, EdgesOk, InodesOk;
    if NoLodger(fs, t) {
      forall u: U32, root, path | u != t
        ensures Look(Reap(fs, t), u, root, path) == Look(fs, u, root, path)
      {
        EndUnseen(fs, t, u, root, path);
      }
    } else {
      var j, k :| Lodged(fs, t, j, k);
      EndSeen(fs, t, j, k);
    }
  }

  // ---- tags outlive the inode -------------------------------------------------------

  /** Deleting a session's file frees its inode and leaves the tag on the number. */
  lemma DeletedKeepsTag(fs: Fs, s: U32, p: int, name: string)
    requires Wf(fs, s) && !GuardMisfires(fs, s, p, name)
    requires var k := FindEdge(fs.edges, p, name);
             k != 0 && Owner(fs, k) == s && RewriteUnlink(fs, p, name).0 == OK
             && fs.inodes[fs.edges[k].child].opens == 0 && fs.inodes[fs.edges[k].child].nlink <= 1
    ensures var id, g := fs.edges[FindEdge(fs.edges, p, name)].child, SessionUnlink(fs, s, p, name).1;
            id !in g.inodes && Owner(g, id) == s
  {
  }

  /** So a node the operator makes can be seen by the operator exactly when its number carries
      no such tag; otherwise it is the old session's to see and to lose. */
  lemma OperatorSeesOwnNodeIff(fs: Fs, p: int, name: string, kind: Kind, mode: nat)
    requires EdgesOk(fs) && Create(fs, 0, p, name, kind, mode).0 > 0 && p != 0
    ensures var id, g := NextFree(fs.inodes.Keys, fs.nextInode, MAX_INODES), Create(fs, 0, p, name, kind, mode).1;
            && (Look(g, 0, p, [name]).Found? <==> Owner(fs, id) == 0)
            && (Owner(fs, id) != 0 ==> id !in Reap(g, Owner(fs, id)).inodes)
  {
    hide FindEdge, NextFree, FileBytes, Children;
    var r := Create(fs, 0, p, name, kind, mode);
    CreateEffect(fs, 0, p, name, kind, mode);
    assert [name][..0] == [];
    assert Resolve(r.1, p, []) == p;
    assert Resolve(r.1, p, [name]) == r.0;
  }
}
