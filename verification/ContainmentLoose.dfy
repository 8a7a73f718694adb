/**
 Containment with every close allowed, also the one that deletes somebody else's unlinked file:
 nobody can reach such a file by a path, so nobody sees it go except by its number.
 */
module ContainmentLoose {
  import opened Machine
  import opened SotfsGraph
  import opened Containment
  import opened ContainmentRun
  import opened ContainmentReap
  import opened ContainmentShared

  /** An unlinked file that t may see. */
  predicate Loose(fs: Fs, t: U32, id: int) {
    id in fs.inodes && fs.inodes[id].orphan && Visible(fs, id, t)
  }

  predicate Unnamed(fs: Fs, i: int) {
    i in fs.inodes && fs.inodes[i].orphan
  }

  /** The graph with every unlinked file handed to session s. */
  function Retag(fs: Fs, s: U32): (g: Fs)
    ensures g == fs.(owner := g.owner)
    ensures forall i :: Owner(g, i) == if Unnamed(fs, i) then s else Owner(fs, i)
  {
    fs.(owner := map i | i in fs.owner.Keys + fs.inodes.Keys :: if Unnamed(fs, i) then s else Owner(fs, i))
  }

  lemma RetagWf(fs: Fs, s: U32)
    requires Wf(fs, s)
    ensures Wf(Retag(fs, s), s)
  {
    hide Retag, Owner;
    var g := Retag(fs, s);
    forall k | k in g.edges && Owner(g, g.edges[k].parent) == s
      ensures Owner(g, g.edges[k].child) == s
    {
      assert !Unnamed(fs, fs.edges[k].parent) && !Unnamed(fs, fs.edges[k].child);
    }
  }

  lemma {:induction false} ResolveByEdges(fs: Fs, g: Fs, root: int, path: seq<string>)
    requires g.edges == fs.edges
    ensures Resolve(g, root, path) == Resolve(fs, root, path)
    decreases |path|
  {
    hide FindEdge;
    if path != [] {
      ResolveByEdges(fs, g, root, path[..|path| - 1]);
    }
  }

  /** A path with a component leads to no unlinked file. */
  lemma PathsAreLinked(fs: Fs, root: int, path: seq<string>)
    requires EdgesOk(fs) && InodesOk(fs) && path != []
    ensures !Unnamed(fs, Resolve(fs, root, path))
  {
    hide FindEdge;
  }

  lemma RetagChildren(fs: Fs, s: U32, t: U32, id: int)
    requires EdgesOk(fs)
    ensures Children(Retag(fs, s), t, id) == Children(fs, t, id)
  {
    hide Retag, Owner;
    var g := Retag(fs, s);
    forall k
      ensures k in Children(g, t, id) <==> k in Children(fs, t, id)
      ensures k in Children(g, t, id) ==> Children(g, t, id)[k] == Children(fs, t, id)[k]
    {
      if k in fs.edges {
        assert !Unnamed(fs, fs.edges[k].child);
      }
    }
  }

  /** Handing the unlinked files over changes nothing for anybody else, but at their numbers. */
  lemma LookRetag(fs: Fs, s: U32, t: U32, root: int, path: seq<string>)
    requires EdgesOk(fs) && InodesOk(fs) && s != 0 && s != t && (path != [] || !Loose(fs, t, root))
    ensures Look(Retag(fs, s), t, root, path) == Look(fs, t, root, path)
  {
    hide Retag, FileBytes, Children, Resolve, EdgesOk, InodesOk;
    var g, id := Retag(fs, s), Resolve(fs, root, path);
    ResolveByEdges(fs, g, root, path);
    if path != [] {
      PathsAreLinked(fs, root, path);
    } else {
      RootIs(fs, root);
    }
    RetagChildren(fs, s, t, id);
    if id in fs.inodes {
      BytesByBlocks(fs, g, id);
    }
  }

  lemma RootIs(fs: Fs, root: int)
    ensures Resolve(fs, root, []) == root
  {
  }

  // ---- one step ---------------------------------------------------------------------

  /** What s did not own, apart from unlinked files, is as it was, and no such file is new. */
  ghost predicate AlmostSame(fs: Fs, g: Fs, s: U32) {
    && Same(Retag(fs, s), Retag(g, s), s)
    && forall i {:trigger ForeignInode(g, s, i)} :: ForeignInode(g, s, i) ==>
         ForeignInode(fs, s, i) && Face(g.inodes[i]) == Face(fs.inodes[i]) && Owner(g, i) == Owner(fs, i)
  }

  lemma SameIsAlmost(fs: Fs, g: Fs, s: U32)
    requires Same(fs, g, s) && Wf(fs, s) && Wf(g, s)
    ensures AlmostSame(fs, g, s)
  {
    hide Retag, Owner;
    var f', g' := Retag(fs, s), Retag(g, s);
    forall i {:trigger ForeignInode(g', s, i)} {:trigger ForeignInode(f', s, i)}
      ensures ForeignInode(f', s, i) <==> ForeignInode(g', s, i)
      ensures ForeignInode(f', s, i) ==> Face(f'.inodes[i]) == Face(g'.inodes[i]) && Owner(f', i) == Owner(g', i)
    {
      assert ForeignInode(fs, s, i) <==> ForeignInode(g, s, i);
    }
    forall k {:trigger ForeignEdge(g', s, k)} {:trigger ForeignEdge(f', s, k)}
      ensures ForeignEdge(f', s, k) <==> ForeignEdge(g', s, k)
      ensures ForeignEdge(f', s, k) ==> f'.edges[k] == g'.edges[k]
    {
      RetagEdge(fs, s, k);
      RetagEdge(g, s, k);
      assert ForeignEdge(fs, s, k) <==> ForeignEdge(g, s, k);
    }
    forall k {:trigger ForeignBlock(g', s, k)} {:trigger ForeignBlock(f', s, k)}
      ensures ForeignBlock(f', s, k) <==> ForeignBlock(g', s, k)
      ensures ForeignBlock(f', s, k) ==>
                f'.blocks[k] == g'.blocks[k] && Page(f', f'.blocks[k].disk) == Page(g', f'.blocks[k].disk)
    {
      AlmostBlock(fs, g, s, k);
    }
  }

  lemma RetagEdge(fs: Fs, s: U32, k: int)
    requires EdgesOk(fs)
    ensures ForeignEdge(Retag(fs, s), s, k) <==> ForeignEdge(fs, s, k)
  {
    hide Retag, Owner;
    if k in fs.edges {
      assert !Unnamed(fs, fs.edges[k].child);
    }
  }

  lemma RetagPage(fs: Fs, s: U32, d: int)
    ensures Page(Retag(fs, s), d) == Page(fs, d)
  {
  }

  lemma AlmostBlock(fs: Fs, g: Fs, s: U32, k: int)
    requires Same(fs, g, s) && BlocksOk(fs) && BlocksOk(g)
    ensures var f', g' := Retag(fs, s), Retag(g, s);
            && (ForeignBlock(f', s, k) <==> ForeignBlock(g', s, k))
            && (ForeignBlock(f', s, k) ==>
                  f'.blocks[k] == g'.blocks[k] && Page(f', f'.blocks[k].disk) == Page(g', f'.blocks[k].disk))
  {
    hide Retag, Owner, Page;
    assert ForeignBlock(fs, s, k) <==> ForeignBlock(g, s, k);
    if ForeignBlock(fs, s, k) {
      var f, d := fs.blocks[k].file, fs.blocks[k].disk;
      assert ForeignInode(fs, s, f) && ForeignInode(g, s, f);
      RetagPage(fs, s, d);
      RetagPage(g, s, d);
    }
  }

  lemma AlmostTransitive(a: Fs, b: Fs, c: Fs, s: U32)
    requires AlmostSame(a, b, s) && AlmostSame(b, c, s)
    ensures AlmostSame(a, c, s)
  {
    hide Retag, Owner, Same;
    SameTransitive(Retag(a, s), Retag(b, s), Retag(c, s), s);
    forall i {:trigger ForeignInode(c, s, i)} | ForeignInode(c, s, i)
      ensures ForeignInode(a, s, i) && Face(c.inodes[i]) == Face(a.inodes[i]) && Owner(c, i) == Owner(a, i)
    {
      assert ForeignInode(b, s, i);
    }
  }

  /** Deleting an unlinked file, whoever owns it. */
  lemma FreeIsAlmost(fs: Fs, s: U32, id: int)
    requires Wf(fs, s) && Unnamed(fs, id)
    ensures Wf(FreeStorage(fs, id), s) && AlmostSame(fs, FreeStorage(fs, id), s)
  {
    hide Retag, Page;
    var g := FreeStorage(fs, id);
    assert forall i :: Owner(g, i) == Owner(fs, i);
    NotAParent(fs, id);
    FreeStorageWf(fs, s, id);
    var f', g' := Retag(fs, s), Retag(g, s);
    FreeStorageSame(f', s, id);
    FreeRetag(fs, s, id);
    SameTransitive(f', FreeStorage(f', id), g', s);
  }

  lemma FreeParts(fs: Fs, id: int, i: int)
    requires id in fs.inodes
    ensures var g := FreeStorage(fs, id);
            && Owner(g, i) == Owner(fs, i) && (Unnamed(g, i) <==> i != id && Unnamed(fs, i))
            && (i in g.inodes <==> i != id && i in fs.inodes) && (i in g.inodes ==> g.inodes[i] == fs.inodes[i])
            && g.edges == fs.edges && Page(g, i) == Page(fs, i)
            && (i in g.blocks <==> i in fs.blocks && fs.blocks[i].file != id)
            && (i in g.blocks ==> g.blocks[i] == fs.blocks[i])
  {
  }

  /** Handing over and deleting commute, up to the tag of a number no longer in use. */
  lemma FreeRetag(fs: Fs, s: U32, id: int)
    requires Wf(fs, s) && Unnamed(fs, id)
    ensures Same(FreeStorage(Retag(fs, s), id), Retag(FreeStorage(fs, id), s), s)
  {
    hide Retag, Owner, Page, FreeStorage;
    var a, b := FreeStorage(Retag(fs, s), id), Retag(FreeStorage(fs, id), s);
    forall i
      ensures i in a.inodes <==> i in b.inodes
      ensures i in a.inodes ==> a.inodes[i] == b.inodes[i]
      ensures i != id ==> Owner(a, i) == Owner(b, i)
      ensures Page(a, i) == Page(b, i)
      ensures i in a.blocks <==> i in b.blocks
      ensures i in a.blocks ==> a.blocks[i] == b.blocks[i] && a.blocks[i].file != id
    {
      FreeParts(fs, id, i);
      FreeParts(Retag(fs, s), id, i);
      RetagPage(fs, s, i);
      RetagPage(FreeStorage(fs, id), s, i);
    }
    FreeParts(fs, id, 0);
    FreeParts(Retag(fs, s), id, 0);
    assert a.edges == b.edges && forall k :: k in a.edges ==> a.edges[k].child != id;
    FreeParts(Retag(fs, s), id, id);
  }

  /** Only the unlink guard is asked to hold. */
  predicate GuardHolds(fs: Fs, s: U32, op: Op) {
    op.UnlinkNode? ==> !GuardMisfires(fs, s, op.parent, op.name)
  }

  /** Every operation the guard lets through correctly, closes of any kind included. */
  lemma StepIsAlmost(fs: Fs, s: U32, op: Op)
    requires Wf(fs, s) && s != 0 && GuardHolds(fs, s, op)
    ensures Wf(Step(fs, s, op), s) && AlmostSame(fs, Step(fs, s, op), s)
  {
    hide Wf, Same, AlmostSame, Create, WriteFile, GuardMisfires;
    var g := Step(fs, s, op);
    if Allowed(fs, s, op) {
      StepKeeps(fs, s, op);
      SameIsAlmost(fs, g, s);
    } else {
      LastClose(fs, s, op.id);
    }
  }

  lemma LastClose(fs: Fs, s: U32, id: int)
    requires Wf(fs, s) && s != 0 && !Allowed(fs, s, CloseNode(id))
    ensures Wf(CloseInode(fs, id), s) && AlmostSame(fs, CloseInode(fs, id), s)
  {
    hide AlmostSame, Same, Wf;
    WfInodes(fs, s);
    var h := fs.(inodes := fs.inodes[id := fs.inodes[id].(opens := 0)]);
    OpensKeep(fs, s, id, 0);
    SameIsAlmost(fs, h, s);
    FreeIsAlmost(h, s, id);
    AlmostTransitive(fs, h, FreeStorage(h, id), s);
  }

  lemma WfInodes(fs: Fs, s: U32)
    requires Wf(fs, s)
    ensures InodesOk(fs) && EdgesOk(fs)
  {
  }

  /** So nobody else sees it, except at the number of a file that was unlinked before. */
  lemma AlmostUnseen(fs: Fs, g: Fs, s: U32, t: U32, root: int, path: seq<string>)
    requires s != 0 && s != t && Wf(fs, s) && Wf(g, s) && AlmostSame(fs, g, s)
    requires path != [] || !Loose(fs, t, root)
    ensures Look(g, t, root, path) == Look(fs, t, root, path)
    ensures Loose(g, t, root) ==> Loose(fs, t, root)
  {
    hide Wf, Same, Look, Retag;
    WfInodes(fs, s);
    WfInodes(g, s);
    RetagWf(fs, s);
    RetagWf(g, s);
    assert Loose(g, t, root) ==> ForeignInode(g, s, root);
    LookSame(Retag(fs, s), Retag(g, s), s, t, root, path);
    LookRetag(fs, s, t, root, path);
    LookRetag(g, s, t, root, path);
  }

  // ---- runs -------------------------------------------------------------------------

  predicate GuardHoldsThrough(fs: Fs, s: U32, ops: seq<Op>)
    decreases |ops|
  {
    ops == [] || (GuardHolds(fs, s, ops[0]) && GuardHoldsThrough(Step(fs, s, ops[0]), s, ops[1..]))
  }

  /** Whatever a session does, as long as the guard does not misfire, the operator and every
      other session see at every path what they saw before; the one exception is the number
      itself of a file that was unlinked already. */
  lemma {:induction false} AnyRunIsInvisible(fs: Fs, s: U32, ops: seq<Op>, t: U32, root: int, path: seq<string>)
    requires s != 0 && s != t && Wf(fs, s) && GuardHoldsThrough(fs, s, ops) && (path != [] || !Loose(fs, t, root))
    ensures Look(Run(fs, s, ops), t, root, path) == Look(fs, t, root, path)
    decreases |ops|
  {
    hide Wf, AlmostSame, Look, Step, GuardHolds, Loose;
    if ops != [] {
      var g := Step(fs, s, ops[0]);
      StepIsAlmost(fs, s, ops[0]);
      AlmostUnseen(fs, g, s, t, root, path);
      AnyRunIsInvisible(g, s, ops[1..], t, root, path);
    }
  }

  /** The exception is real: the close is seen there, and only there. */
  lemma LastCloseSeen(fs: Fs, s: U32, id: int)
    requires Wf(fs, s) && s != 0 && !Allowed(fs, s, CloseNode(id))
    ensures var t := Owner(fs, id);
            t != s && Look(fs, t, id, []).Found? && Look(CloseInode(fs, id), t, id, []) == NotFound
  {
    RootIs(fs, id);
    RootIs(CloseInode(fs, id), id);
  }

  // ---- many sessions ----------------------------------------------------------------

  /** A session makes nodes only in directories it can see, and its guard holds. */
  predicate FairEnough(fs: Fs, t: Turn) {
    && t.session != 0
    && (t.Turn? ==> GuardHolds(fs, t.session, t.op) && (t.op.MakeNode? ==> Visible(fs, t.op.parent, t.session)))
  }

  predicate FairEnoughTurns(fs: Fs, ts: seq<Turn>)
    decreases |ts|
  {
    ts == [] || (FairEnough(fs, ts[0]) && FairEnoughTurns(After(fs, ts[0]), ts[1..]))
  }

  lemma AnyTurnSound(fs: Fs, t: Turn)
    requires Sound(fs) && FairEnough(fs, t)
    ensures Sound(After(fs, t)) && AlmostSame(fs, After(fs, t), t.session)
  {
    hide Same, Step, Reap, AlmostSame, GuardMisfires;
    SoundWf(fs, t.session);
    if t.End? || Allowed(fs, t.session, t.op) {
      TurnSound(fs, t);
      SoundWf(After(fs, t), t.session);
      SameIsAlmost(fs, After(fs, t), t.session);
    } else {
      StepIsAlmost(fs, t.session, t.op);
      StepShape(fs, t.session, t.op);
      assert forall i :: Owner(After(fs, t), i) == Owner(fs, i);
    }
  }

  /** In every interleaving of any sessions' operations, closes of any kind included, and
      disconnects, whoever takes no turn sees at the end what they saw at the start. */
  lemma {:induction false} AllBystandersSeeNothing(fs: Fs, ts: seq<Turn>, u: U32, root: int, path: seq<string>)
    requires Sound(fs) && FairEnoughTurns(fs, ts) && forall i :: 0 <= i < |ts| ==> ts[i].session != u
    requires path != [] || !Loose(fs, u, root)
    ensures Sound(Turns(fs, ts)) && Look(Turns(fs, ts), u, root, path) == Look(fs, u, root, path)
    decreases |ts|
  {
    hide After, Sound, Look, AlmostSame, Loose, GuardHolds, Visible;
    if ts != [] {
      var g := After(fs, ts[0]);
      AnyTurnSound(fs, ts[0]);
      SoundWf(fs, ts[0].session);
      SoundWf(g, ts[0].session);
      AlmostUnseen(fs, g, ts[0].session, u, root, path);
      AllBystandersSeeNothing(g, ts[1..], u, root, path);
    }
  }
}
