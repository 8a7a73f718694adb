/** Histories from a freshly formatted disk, and the smallest one in which the unlink guard
 fires on the wrong file. */
module ContainmentExample {
  import opened Machine
  import opened SotfsGraph
  import opened Containment
  import opened ContainmentRun
  import ContainmentReap
  import ContainmentShared

  /** sotfs_graph_init: the root directory alone. */
  function Formatted(diskBlocks: nat): (fs: Fs) {
    Fs(map[1 := Inode(Dir, 0x1ed, 0, 2, false, 0)], map[], map[], 1, 0, 0, {}, map[], diskBlocks, map[])
  }

  lemma FormattedSound(diskBlocks: nat)
    ensures ContainmentShared.Sound(Formatted(diskBlocks))
  {
  }

  /** From a formatted disk, after any sessions' turns: those who sit out what comes next see
      no change, and a session that owns nothing leaves nothing behind. */
  lemma FromFormat(diskBlocks: nat, before: seq<ContainmentShared.Turn>, after: seq<ContainmentShared.Turn>,
                   u: U32, root: int, path: seq<string>, s: U32, ops: seq<Op>)
    requires ContainmentShared.FairTurns(Formatted(diskBlocks), before)
    requires var r := ContainmentShared.Turns(Formatted(diskBlocks), before);
             && ContainmentShared.FairTurns(r, after) && (forall i :: 0 <= i < |after| ==> after[i].session != u)
             && s != 0 && ContainmentReap.Gone(r, s) && AllowedRun(r, s, ops)
    ensures var r := ContainmentShared.Turns(Formatted(diskBlocks), before);
            && Look(ContainmentShared.Turns(r, after), u, root, path) == Look(r, u, root, path)
            && ContainmentReap.Restored(r, Reap(Run(r, s, ops), s))
  {
    hide ContainmentShared.Sound, ContainmentShared.Turns, ContainmentShared.FairTurns, Look, Formatted, AllowedRun, Run,
         ContainmentReap.Restored, ContainmentReap.Gone, Wf;
    FormattedSound(diskBlocks);
    ContainmentShared.TurnsSound(Formatted(diskBlocks), before);
    var r := ContainmentShared.Turns(Formatted(diskBlocks), before);
    ContainmentShared.BystandersSeeNothing(r, after, u, root, path);
    ContainmentShared.SoundWf(r, s);
    ContainmentReap.SessionLeavesNothing(r, s, ops);
  }

  lemma HintIsFree(taken: set<int>, hint: nat, max: nat)
    requires hint < max && hint + 1 !in taken
    ensures NextFree(taken, hint, max) == hint + 1
  {
    assert (hint + 0) % max == hint;
  }

  /** While nothing has been freed, the n-th node made is inode n + 1 behind edge n. */
  lemma NextNode(fs: Fs, t: U32, name: string, n: nat)
    requires 1 <= n < MAX_INODES && fs.nextInode == n && fs.nextEdge == n - 1
    requires n + 1 !in fs.inodes && n !in fs.edges
    requires 1 in fs.inodes && fs.inodes[1].kind == Dir
    requires 0 < |name| < MAX_NAME && FindEdge(fs.edges, 1, name) == 0
    ensures Create(fs, t, 1, name, File, 0x1a4)
         == (n + 1, Link(fs.(nextInode := (n + 1) % MAX_INODES, nextEdge := n % MAX_EDGES),
                         t, 1, name, File, 0x1a4, n + 1, n))
  {
    hide NextFree, FindEdge, Link;
    HintIsFree(fs.inodes.Keys, n, MAX_INODES);
    HintIsFree(fs.edges.Keys, n - 1, MAX_EDGES);
  }

  lemma NoSuchName(edges: map<int, Edge>, parent: int, name: string)
    requires forall k :: k in edges ==> edges[k].name != name
    ensures FindEdge(edges, parent, name) == 0
  {
  }

  /** The operator makes "a", the session makes "x", the operator makes "z": edge 3 leads to
      the operator's inode 4, and inode 3 is the session's.  The session's unlink of "z" then
      reports success and deletes the operator's file, while its unlink of its own "x" reports
      success and does nothing. */
  lemma GuardFiresOnBaseFile(diskBlocks: nat, s: U32)
    requires s != 0
    ensures var a := Create(Formatted(diskBlocks), 0, 1, "a", File, 0x1a4).1;
            var x := Create(a, s, 1, "x", File, 0x1a4).1;
            var z := Create(x, 0, 1, "z", File, 0x1a4).1;
            && GuardMisfires(z, s, 1, "z")
            && SessionUnlink(z, s, 1, "z").0 == 0
            && 4 in z.inodes && 4 !in SessionUnlink(z, s, 1, "z").1.inodes
            && SessionUnlink(z, s, 1, "x") == (0, z)
            && 3 in z.inodes && Owner(z, 3) == s
  {
    var f := Formatted(diskBlocks);
    NoSuchName(f.edges, 1, "a");
    NextNode(f, 0, "a", 1);
    var a := Create(f, 0, 1, "a", File, 0x1a4).1;
    assert a.edges == map[1 := Edge(1, 2, "a")];
    NoSuchName(a.edges, 1, "x");
    NextNode(a, s, "x", 2);
    var x := Create(a, s, 1, "x", File, 0x1a4).1;
    assert x.edges == map[1 := Edge(1, 2, "a"), 2 := Edge(1, 3, "x")];
    NoSuchName(x.edges, 1, "z");
    NextNode(x, 0, "z", 3);
    var z := Create(x, 0, 1, "z", File, 0x1a4).1;
    assert z.edges == map[1 := Edge(1, 2, "a"), 2 := Edge(1, 3, "x"), 3 := Edge(1, 4, "z")];
    assert FindEdge(z.edges, 1, "z") == 3;
    assert FindEdge(z.edges, 1, "x") == 2;
    assert z.inodes[4] == Inode(File, 0x1a4, 0, 1, false, 0);
  }
}
