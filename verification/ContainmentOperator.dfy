/** The operator at work in the base tree while sessions come and go. */
module ContainmentOperator {
  import opened Machine
  import opened SotfsGraph
  import opened Containment
  import opened ContainmentRun
  import opened ContainmentReap
  import opened ContainmentShared

  /** A session's turn, or the operator making a node or writing a file. */
  datatype Act =
    | Guest(turn: Turn)
    | Make(parent: int, name: string, kind: Kind, mode: nat)
    | Write(id: int, off: nat, buf: seq<Byte>)

  function Author(a: Act): (s: U32) {
    if a.Guest? then a.turn.session else 0
  }

  function Done(fs: Fs, a: Act): (g: Fs) {
    match a
    case Guest(t) => After(fs, t)
    case Make(p, name, kind, mode) => Create(fs, 0, p, name, kind, mode).1
    case Write(id, off, buf) => WriteFile(fs, id, off, buf).1
  }

  /** Sessions play fair; the operator works in directories and on files the operator can see. */
  predicate FairAct(fs: Fs, a: Act) {
    match a
    case Guest(t) => Fair(fs, t)
    case Make(p, _, _, _) => Visible(fs, p, 0)
    case Write(id, _, _) => Visible(fs, id, 0)
  }

  function Acts(fs: Fs, acts: seq<Act>): (g: Fs)
    decreases |acts|
  {
    if acts == [] then fs else Acts(Done(fs, acts[0]), acts[1..])
  }

  predicate FairActs(fs: Fs, acts: seq<Act>)
    decreases |acts|
  {
    acts == [] || (FairAct(fs, acts[0]) && FairActs(Done(fs, acts[0]), acts[1..]))
  }

  // ---- the operator writes a file ---------------------------------------------------

  predicate Elsewhere(fs: Fs, file: int, k: int) {
    k in fs.blocks && fs.blocks[k].file != file
  }

  /** Nothing but the file's own mappings and pages, and the bitmap, has changed. */
  ghost predicate OnlyData(fs: Fs, g: Fs, file: int) {
    && g.inodes == fs.inodes && g.edges == fs.edges && g.owner == fs.owner && BlocksOk(g)
    && (forall k {:trigger Elsewhere(g, file, k)} {:trigger Elsewhere(fs, file, k)} ::
          && (Elsewhere(fs, file, k) <==> Elsewhere(g, file, k))
          && (Elsewhere(fs, file, k) ==>
                fs.blocks[k] == g.blocks[k] && Page(fs, fs.blocks[k].disk) == Page(g, fs.blocks[k].disk)))
  }

  lemma OnlyDataTwice(a: Fs, b: Fs, c: Fs, file: int)
    requires OnlyData(a, b, file) && OnlyData(b, c, file)
    ensures OnlyData(a, c, file)
  {
  }

  lemma BlockOnly(fs: Fs, file: int, off: nat, orig: nat)
    requires BlocksOk(fs) && file in fs.inodes
    ensures OnlyData(fs, BlockFor(fs, file, off, orig).1, file)
  {
    hide FindBlock, NextFree, DiskAlloc;
    var g := BlockFor(fs, file, off, orig).1;
    assert forall d :: Page(g, d) == Page(fs, d);
  }

  lemma PatchOnly(fs: Fs, k: int, at: nat, chunk: seq<Byte>)
    requires BlocksOk(fs) && k in fs.blocks && at + |chunk| <= BLOCK
    ensures OnlyData(fs, Patch(fs, fs.blocks[k].disk, at, chunk), fs.blocks[k].file)
  {
    hide Splice;
  }

  lemma ChunkOnly(fs: Fs, file: int, cur: nat, chunk: seq<Byte>, orig: nat)
    requires BlocksOk(fs) && file in fs.inodes && cur % BLOCK + |chunk| <= BLOCK
    ensures OnlyData(fs, WriteChunk(fs, file, cur, chunk, orig).1, file)
  {
    hide BlockFor, WriteChunk, Patch, OnlyData;
    ChunkUnfolds(fs, file, cur, chunk, orig);
    BlockOnly(fs, file, cur - cur % BLOCK, orig);
    var r := BlockFor(fs, file, cur - cur % BLOCK, orig);
    OnlyDataOk(fs, r.1, file);
    if r.0 != 0 {
      PatchOnly(r.1, r.0, cur % BLOCK, chunk);
      OnlyDataTwice(fs, r.1, Patch(r.1, r.1.blocks[r.0].disk, cur % BLOCK, chunk), file);
    }
  }

  lemma OnlyDataOk(fs: Fs, g: Fs, file: int)
    requires OnlyData(fs, g, file)
    ensures BlocksOk(g) && g.inodes == fs.inodes && g.edges == fs.edges && g.owner == fs.owner
  {
  }

  lemma NoData(fs: Fs, file: int)
    requires BlocksOk(fs)
    ensures OnlyData(fs, fs, file)
  {
  }

  lemma {:induction false} LoopOnly(fs: Fs, file: int, off: nat, buf: seq<Byte>, orig: nat, done: nat)
    requires BlocksOk(fs) && file in fs.inodes && done <= |buf|
    ensures OnlyData(fs, WriteLoop(fs, file, off, buf, orig, done).1, file)
    decreases |buf| - done
  {
    hide WriteLoop, WriteChunk, OnlyData, BlocksOk;
    LoopUnfolds(fs, file, off, buf, orig, done);
    NoData(fs, file);
    if done < |buf| {
      var n := ChunkLen(off + done, |buf| - done);
      var r := WriteChunk(fs, file, off + done, buf[done..done + n], orig);
      ChunkOnly(fs, file, off + done, buf[done..done + n], orig);
      OnlyDataOk(fs, r.1, file);
      if r.0 {
        LoopOnly(r.1, file, off, buf, orig, done + n);
        OnlyDataTwice(fs, r.1, WriteLoop(r.1, file, off, buf, orig, done + n).1, file);
      }
    }
  }

  /** The write, up to the file's size. */
  lemma WriteOnly(fs: Fs, file: int, off: nat, buf: seq<Byte>) returns (g: Fs)
    requires BlocksOk(fs)
    ensures OnlyData(fs, g, file)
    ensures var h := WriteFile(fs, file, off, buf).1; h == g || exists end: nat :: h == Grow(g, file, end)
  {
    hide WriteLoop, OnlyData, Grow;
    NoData(fs, file);
    if buf == [] || file !in fs.inodes || fs.inodes[file].kind != File {
      g := fs;
    } else {
      g := WriteLoop(fs, file, off, buf, fs.inodes[file].size, 0).1;
      LoopOnly(fs, file, off, buf, fs.inodes[file].size, 0);
    }
  }

  lemma GrowOnly(fs: Fs, file: int, end: nat)
    requires Sound(fs)
    ensures var g := Grow(fs, file, end);
            && Sound(g) && g.edges == fs.edges && g.owner == fs.owner && g.blocks == fs.blocks && g.pages == fs.pages
            && g.inodes.Keys == fs.inodes.Keys
            && forall i :: i in fs.inodes && i != file ==> g.inodes[i] == fs.inodes[i]
  {
  }

  /** Every other file has its attributes and its bytes. */
  lemma WriteLeavesFile(fs: Fs, file: int, off: nat, buf: seq<Byte>, f: int)
    requires Sound(fs) && f in fs.inodes && f != file
    ensures var g := WriteFile(fs, file, off, buf).1;
            && Sound(g) && g.edges == fs.edges && g.owner == fs.owner
            && f in g.inodes && g.inodes[f] == fs.inodes[f] && FileBytes(g, f) == FileBytes(fs, f)
  {
    hide WriteFile, Grow, FileBytes;
    var g := WriteFile(fs, file, off, buf).1;
    var h := WriteOnly(fs, file, off, buf);
    OnlyDataSound(fs, h, file);
    OnlyDataBytes(fs, h, file, f);
    if h != g {
      var end: nat :| g == Grow(h, file, end);
      GrowOnly(h, file, end);
      BytesByBlocks(h, g, f);
    }
  }

  lemma OnlyDataSound(fs: Fs, g: Fs, file: int)
    requires Sound(fs) && OnlyData(fs, g, file)
    ensures Sound(g)
  {
    assert forall i :: Owner(g, i) == Owner(fs, i);
  }

  lemma OnlyDataBytes(fs: Fs, g: Fs, file: int, f: int)
    requires OnlyData(fs, g, file) && f in fs.inodes && f != file
    ensures FileBytes(g, f) == FileBytes(fs, f)
  {
    hide FindBlock, Page;
    forall k
      ensures (k in fs.blocks && fs.blocks[k].file == f) <==> (k in g.blocks && g.blocks[k].file == f)
      ensures k in fs.blocks && fs.blocks[k].file == f ==>
                fs.blocks[k] == g.blocks[k] && Page(fs, fs.blocks[k].disk) == Page(g, fs.blocks[k].disk)
    {
      assert Elsewhere(fs, file, k) <==> Elsewhere(g, file, k);
    }
    forall i: nat
      ensures ByteAt(fs, f, i) == ByteAt(g, f, i)
    {
      FindBlockSame(fs.blocks, g.blocks, f, i - i % BLOCK, 1);
    }
  }

  // ---- the operator makes a node ----------------------------------------------------

  /** What a successful create by the operator adds. */
  lemma MakeAdds(fs: Fs, p: int, name: string, kind: Kind, mode: nat)
    requires Sound(fs) && Create(fs, 0, p, name, kind, mode).0 > 0
    ensures var r, k := Create(fs, 0, p, name, kind, mode), NextFree(fs.edges.Keys, fs.nextEdge, MAX_EDGES);
            && Linkable(fs, p, name, r.0, k)
            && r.1.edges == fs.edges[k := Edge(p, r.0, name)]
            && r.1.inodes == fs.inodes[r.0 := Inode(kind, mode, 0, if kind == Dir then 2 else 1, false, 0)]
            && r.1.owner == fs.owner && r.1.blocks == fs.blocks && r.1.pages == fs.pages && r.1.used == fs.used
  {
    hide NextFree;
    var k := NextFree(fs.edges.Keys, fs.nextEdge, MAX_EDGES);
  }

  lemma MakeSound(fs: Fs, p: int, name: string, kind: Kind, mode: nat)
    requires Sound(fs) && Visible(fs, p, 0)
    ensures Sound(Create(fs, 0, p, name, kind, mode).1)
  {
    hide NextFree, FindEdge;
    var r := Create(fs, 0, p, name, kind, mode);
    if r.0 > 0 {
      var k := NextFree(fs.edges.Keys, fs.nextEdge, MAX_EDGES);
      MakeAdds(fs, p, name, kind, mode);
      LinkEdges(fs, 0, p, name, kind, mode, r.0, k);
      SameEdgesOk(Link(fs, 0, p, name, kind, mode, r.0, k), r.1);
      assert forall i :: Owner(r.1, i) == Owner(fs, i);
    } else {
      assert forall i :: Owner(r.1, i) == Owner(fs, i);
    }
  }

  lemma SameEdgesOk(fs: Fs, g: Fs)
    requires EdgesOk(fs) && g.edges == fs.edges && g.inodes == fs.inodes
    ensures EdgesOk(g)
  {
  }

  /** A path that leads somewhere leads there still when edges are only added. */
  lemma {:induction false} ResolveKept(fs: Fs, g: Fs, root: int, path: seq<string>)
    requires EdgesOk(g) && forall k :: k in fs.edges ==> k in g.edges && g.edges[k] == fs.edges[k]
    ensures Resolve(fs, root, path) != 0 ==> Resolve(g, root, path) == Resolve(fs, root, path)
    decreases |path|
  {
    hide FindEdge;
    if path != [] && Resolve(fs, root, path) != 0 {
      var dir, name := Resolve(fs, root, path[..|path| - 1]), path[|path| - 1];
      ResolveKept(fs, g, root, path[..|path| - 1]);
      FindEdgeUnique(g, FindEdge(fs.edges, dir, name));
    }
  }

  // ---- whole histories --------------------------------------------------------------

  lemma ActSound(fs: Fs, a: Act)
    requires Sound(fs) && FairAct(fs, a)
    ensures Sound(Done(fs, a))
  {
    hide After, Create, WriteFile, Sound, Fair;
    match a {
      case Guest(t) => TurnSound(fs, t);
      case Make(p, name, kind, mode) => MakeSound(fs, p, name, kind, mode);
      case Write(id, off, buf) => WriteSound(fs, id, off, buf);
    }
  }

  lemma WriteSound(fs: Fs, file: int, off: nat, buf: seq<Byte>)
    requires Sound(fs)
    ensures Sound(WriteFile(fs, file, off, buf).1)
  {
    hide WriteFile, Grow;
    var h := WriteOnly(fs, file, off, buf);
    OnlyDataSound(fs, h, file);
    if h != WriteFile(fs, file, off, buf).1 {
      var end: nat :| WriteFile(fs, file, off, buf).1 == Grow(h, file, end);
      GrowOnly(h, file, end);
    }
  }

  /** An act by the operator or by u changes what u sees, at some point of the history. */
  predicate Authored(fs: Fs, acts: seq<Act>, u: U32, root: int, path: seq<string>)
    decreases |acts|
  {
    acts != [] &&
    (((Author(acts[0]) == 0 || Author(acts[0]) == u)
      && Look(Done(fs, acts[0]), u, root, path) != Look(fs, u, root, path))
     || Authored(Done(fs, acts[0]), acts[1..], u, root, path))
  }

  /** In every interleaving of sessions' and the operator's acts, whatever changes at a path in
      anybody's eyes was changed by an act of their own or of the operator. */
  lemma {:induction false} ChangesHaveAuthors(fs: Fs, acts: seq<Act>, u: U32, root: int, path: seq<string>)
    requires Sound(fs) && FairActs(fs, acts)
    ensures Sound(Acts(fs, acts))
    ensures Look(Acts(fs, acts), u, root, path) != Look(fs, u, root, path) ==> Authored(fs, acts, u, root, path)
    decreases |acts|
  {
    hide Done, Sound, Look, Fair, Visible;
    if acts != [] {
      var a := acts[0];
      ActSound(fs, a);
      if Author(a) != 0 && Author(a) != u {
        GuestUnseen(fs, a, u, root, path);
      }
      ChangesHaveAuthors(Done(fs, a), acts[1..], u, root, path);
    }
  }

  lemma GuestUnseen(fs: Fs, a: Act, u: U32, root: int, path: seq<string>)
    requires Sound(fs) && FairAct(fs, a) && a.Guest? && Author(a) != u
    ensures Look(Done(fs, a), u, root, path) == Look(fs, u, root, path)
  {
    hide After, Look, Sound, Fair;
    TurnUnseen(fs, a.turn, u, root, path);
  }

  /** The path leads to a node of session u. */
  predicate OwnAt(fs: Fs, u: U32, root: int, path: seq<string>) {
    u != 0 && Resolve(fs, root, path) in fs.inodes && Owner(fs, Resolve(fs, root, path)) == u
  }

  lemma GuestLeavesOwn(fs: Fs, t: Turn, u: U32, root: int, path: seq<string>)
    requires Sound(fs) && Fair(fs, t) && t.session != u && OwnAt(fs, u, root, path)
    ensures OwnAt(After(fs, t), u, root, path)
  {
    hide After, Resolve;
    TurnSound(fs, t);
    ResolveSame(fs, After(fs, t), t.session, root, path);
    assert ForeignInode(fs, t.session, Resolve(fs, root, path));
    assert ForeignInode(After(fs, t), t.session, Resolve(fs, root, path));
  }

  lemma SameEntries(fs: Fs, g: Fs, u: U32, id: int)
    requires g.owner == fs.owner
    requires forall k :: (k in g.edges && g.edges[k].parent == id) <==> (k in fs.edges && fs.edges[k].parent == id)
    requires forall k :: k in fs.edges && fs.edges[k].parent == id ==> g.edges[k] == fs.edges[k]
    ensures Children(g, u, id) == Children(fs, u, id)
  {
    forall k
      ensures k in Children(g, u, id) <==> k in Children(fs, u, id)
      ensures k in Children(g, u, id) ==> Children(g, u, id)[k] == Children(fs, u, id)[k]
    {
    }
  }

  lemma MakeLeavesEntries(fs: Fs, p: int, name: string, kind: Kind, mode: nat, u: U32, id: int)
    requires Sound(fs) && p != id
    ensures Children(Create(fs, 0, p, name, kind, mode).1, u, id) == Children(fs, u, id)
  {
    hide NextFree, FindEdge, Children, Sound;
    var r := Create(fs, 0, p, name, kind, mode);
    if r.0 > 0 {
      MakeAdds(fs, p, name, kind, mode);
    }
    SameEntries(fs, r.1, u, id);
  }

  lemma MakeLeavesOwn(fs: Fs, p: int, name: string, kind: Kind, mode: nat, u: U32, root: int, path: seq<string>)
    requires Sound(fs) && Visible(fs, p, 0) && OwnAt(fs, u, root, path)
    ensures var g := Create(fs, 0, p, name, kind, mode).1;
            OwnAt(g, u, root, path) && Look(g, u, root, path) == Look(fs, u, root, path)
  {
    hide NextFree, FindEdge, FileBytes, Resolve, Children;
    var r, id := Create(fs, 0, p, name, kind, mode), Resolve(fs, root, path);
    MakeSound(fs, p, name, kind, mode);
    if r.0 > 0 {
      MakeAdds(fs, p, name, kind, mode);
    }
    ResolveKept(fs, r.1, root, path);
    BytesByBlocks(fs, r.1, id);
    assert Owner(r.1, id) == Owner(fs, id);
    MakeLeavesEntries(fs, p, name, kind, mode, u, id);
  }

  lemma WriteLeavesOwn(fs: Fs, file: int, off: nat, buf: seq<Byte>, u: U32, root: int, path: seq<string>)
    requires Sound(fs) && Visible(fs, file, 0) && OwnAt(fs, u, root, path)
    ensures var g := WriteFile(fs, file, off, buf).1;
            OwnAt(g, u, root, path) && Look(g, u, root, path) == Look(fs, u, root, path)
  {
    hide WriteFile, FileBytes, Resolve, FindEdge, Children;
    var g, id := WriteFile(fs, file, off, buf).1, Resolve(fs, root, path);
    WriteLeavesFile(fs, file, off, buf, id);
    ResolveKept(fs, g, root, path);
    assert Owner(g, id) == Owner(fs, id);
    SameEntries(fs, g, u, id);
  }

  /** And a session's own nodes, with their attributes, bytes and entries, are changed by its own
      acts only: neither another session's nor the operator's do. */
  lemma {:induction false} OwnNodesStay(fs: Fs, acts: seq<Act>, u: U32, root: int, path: seq<string>)
    requires Sound(fs) && FairActs(fs, acts) && OwnAt(fs, u, root, path)
    requires forall i :: 0 <= i < |acts| ==> Author(acts[i]) != u
    ensures OwnAt(Acts(fs, acts), u, root, path) && Look(Acts(fs, acts), u, root, path) == Look(fs, u, root, path)
    decreases |acts|
  {
    hide Sound, Look, Fair, OwnAt, After, Create, WriteFile;
    if acts != [] {
      var a := acts[0];
      ActSound(fs, a);
      match a {
        case Guest(t) =>
          GuestLeavesOwn(fs, t, u, root, path);
          TurnUnseen(fs, t, u, root, path);
        case Make(p, name, kind, mode) => MakeLeavesOwn(fs, p, name, kind, mode, u, root, path);
        case Write(id, off, buf) => WriteLeavesOwn(fs, id, off, buf, u, root, path);
      }
      OwnNodesStay(Done(fs, a), acts[1..], u, root, path);
    }
  }

  function GuestActs(ts: seq<Turn>): (acts: seq<Act>)
    ensures |acts| == |ts| && forall i :: 0 <= i < |ts| ==> acts[i] == Guest(ts[i])
  {
    seq(|ts|, i requires 0 <= i < |ts| => Guest(ts[i]))
  }

  lemma {:induction false} GuestActsAre(fs: Fs, ts: seq<Turn>)
    ensures Acts(fs, GuestActs(ts)) == Turns(fs, ts)
    decreases |ts|
  {
    hide After;
    if ts != [] {
      assert GuestActs(ts)[1..] == GuestActs(ts[1..]);
      GuestActsAre(After(fs, ts[0]), ts[1..]);
    }
  }

  /** A node the operator makes in the middle of a history is there for the operator after any
      further turns of sessions if and only if its number carried no tag. */
  lemma MadeIsSeenIff(fs: Fs, before: seq<Act>, p: int, name: string, kind: Kind, mode: nat, after: seq<Turn>)
    requires Sound(fs) && FairActs(fs, before) && p != 0
    requires var r := Acts(fs, before);
             && Visible(r, p, 0) && Create(r, 0, p, name, kind, mode).0 > 0
             && FairTurns(Create(r, 0, p, name, kind, mode).1, after)
    ensures var r := Acts(fs, before);
            var g := Create(r, 0, p, name, kind, mode).1;
            Look(Acts(g, GuestActs(after)), 0, p, [name]).Found?
            <==> Owner(r, NextFree(r.inodes.Keys, r.nextInode, MAX_INODES)) == 0
  {
    hide Look, Create, Acts, FairActs, Turns, FairTurns, NextFree, Sound, Owner;
    var r := Acts(fs, before);
    ChangesHaveAuthors(fs, before, 0, p, [name]);
    SoundEdges(r);
    OperatorSeesOwnNodeIff(r, p, name, kind, mode);
    var g := Create(r, 0, p, name, kind, mode).1;
    MakeSound(r, p, name, kind, mode);
    GuestActsAre(g, after);
    FairTurnsAuthors(g, after);
    BystandersSeeNothing(g, after, 0, p, [name]);
  }

  lemma SoundEdges(fs: Fs)
    requires Sound(fs)
    ensures EdgesOk(fs)
  {
  }

  lemma {:induction false} FairTurnsAuthors(fs: Fs, ts: seq<Turn>)
    requires FairTurns(fs, ts)
    ensures forall i :: 0 <= i < |ts| ==> ts[i].session != 0
    decreases |ts|
  {
    hide After, Allowed;
    if ts != [] {
      FairTurnsAuthors(After(fs, ts[0]), ts[1..]);
    }
  }
}
