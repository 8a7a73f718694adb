/** Lookup, symlink chains, directory listing and handles over the entry table of /usr. */
module SysrootTree {
  import opened SysrootPath

  const FOLLOW: nat := 8
  const TARGET: nat := 191

  datatype Kind = Dir | File | Link

  /** `target` is a link's blob; `readable` says whether the device can read it. */
  datatype Entry = Entry(path: string, kind: Kind, target: string, readable: bool)

  // ---- lookup -----------------------------------------------------------------------

  function LowerChar(c: char): (d: char)
    ensures 'A' <= c <= 'Z' ==> 'a' <= d <= 'z' && d as int - 'a' as int == c as int - 'A' as int
    ensures !('A' <= c <= 'Z') ==> d == c
  {
    if 'A' <= c <= 'Z' then (c as int + 32) as char else c
  }

  function Lower(s: string): (t: string)
    ensures |t| == |s| && forall i :: 0 <= i < |s| ==> t[i] == LowerChar(s[i])
  {
    if s == [] then [] else [LowerChar(s[0])] + Lower(s[1..])
  }

  predicate Exact(e: Entry, path: string) {
    e.path == path
  }

  predicate Folded(e: Entry, path: string) {
    Lower(e.path) == Lower(path)
  }

  function FirstExact(table: seq<Entry>, path: string, i: nat := 0): (k: int)
    requires i <= |table|
    ensures k == -1 || (i <= k < |table| && Exact(table[k], path))
    ensures forall j :: i <= j < |table| && (k == -1 || j < k) ==> !Exact(table[j], path)
    decreases |table| - i
  {
    if i == |table| then -1 else if Exact(table[i], path) then i else FirstExact(table, path, i + 1)
  }

  function FirstFolded(table: seq<Entry>, path: string, i: nat := 0): (k: int)
    requires i <= |table|
    ensures k == -1 || (i <= k < |table| && Folded(table[k], path))
    ensures forall j :: i <= j < |table| && (k == -1 || j < k) ==> !Folded(table[j], path)
    decreases |table| - i
  {
    if i == |table| then -1 else if Folded(table[i], path) then i else FirstFolded(table, path, i + 1)
  }

  /** find: an exact match wins wherever it is in the table; only when there is none does the
      first match up to letter case. */
  function Find(table: seq<Entry>, path: string): (k: int)
    ensures k == -1 || 0 <= k < |table|
    ensures (exists j :: 0 <= j < |table| && table[j].path == path) ==> k != -1 && table[k].path == path
    ensures k == -1 <==> forall j :: 0 <= j < |table| ==> Lower(table[j].path) != Lower(path)
    ensures k != -1 ==> Lower(table[k].path) == Lower(path)
    ensures k != -1 && table[k].path == path ==> forall j :: 0 <= j < k ==> table[j].path != path
    ensures k != -1 && table[k].path != path ==> forall j :: 0 <= j < k ==> Lower(table[j].path) != Lower(path)
  {
    var k := FirstExact(table, path);
    assert forall j :: 0 <= j < |table| && Exact(table[j], path) ==> Folded(table[j], path);
    if k != -1 then k else FirstFolded(table, path)
  }

  /** Its two loops. */
  method Search(table: seq<Entry>, path: string) returns (k: int)
    ensures k == Find(table, path)
  {
    var i := 0;
    while i < |table|
      invariant 0 <= i <= |table|
      invariant FirstExact(table, path) == FirstExact(table, path, i)
    {
      if table[i].path == path {
        return i;
      }
      i := i + 1;
    }
    i := 0;
    while i < |table|
      invariant 0 <= i <= |table|
      invariant FirstFolded(table, path) == FirstFolded(table, path, i)
    {
      if Lower(table[i].path) == Lower(path) {
        return i;
      }
      i := i + 1;
    }
    k := -1;
  }

  // ---- symlink chains ---------------------------------------------------------------

  /** The path leads to a link that can be followed. */
  predicate IsLink(table: seq<Entry>, path: string) {
    var k := Find(table, path);
    k != -1 && table[k].kind == Link && table[k].target != "" && table[k].readable
  }

  /** The path one link further. */
  function Next(table: seq<Entry>, path: string): (p: string) {
    var k := Find(table, path);
    if k == -1 then path else JoinTarget(path, Take(table[k].target, TARGET))
  }

  /** The path n links further. */
  function At(table: seq<Entry>, path: string, n: nat): (p: string) {
    if n == 0 then path else Next(table, At(table, path, n - 1))
  }

  /** find_follow with `left` iterations to go. */
  function Follow(table: seq<Entry>, path: string, left: nat): (r: int)
    decreases left
  {
    if left == 0 then -40
    else
      var k := Find(table, path);
      if k == -1 then -2
      else if table[k].kind != Link then k
      else if table[k].target == "" then -2
      else if !table[k].readable then -5
      else Follow(table, JoinTarget(path, Take(table[k].target, TARGET)), left - 1)
  }

  predicate LinksUpTo(table: seq<Entry>, path: string, n: nat) {
    forall i :: 0 <= i < n ==> IsLink(table, At(table, path, i))
  }

  lemma {:induction false} AtNext(table: seq<Entry>, path: string, n: nat)
    ensures At(table, path, n + 1) == At(table, Next(table, path), n)
  {
    hide Next;
    if n > 0 {
      AtNext(table, path, n - 1);
    }
  }

  lemma FollowUnfolds(table: seq<Entry>, path: string, left: nat)
    requires left > 0
    ensures if IsLink(table, path) then Follow(table, path, left) == Follow(table, Next(table, path), left - 1)
            else Outcome(table, path, Follow(table, path, left))
  {
    hide JoinTarget, Find;
  }

  lemma {:induction false} FollowChain(table: seq<Entry>, path: string, left: nat, n: nat)
    requires n <= left && LinksUpTo(table, path, n)
    ensures Follow(table, path, left) == Follow(table, At(table, path, n), left - n)
    decreases n
  {
    hide IsLink, Next, Follow, Outcome;
    if n > 0 {
      var p := Next(table, path);
      assert IsLink(table, At(table, path, 0));
      FollowUnfolds(table, path, left);
      forall i | 0 <= i < n - 1
        ensures IsLink(table, At(table, p, i))
      {
        AtNext(table, path, i);
        assert IsLink(table, At(table, path, i + 1));
      }
      FollowChain(table, p, left - 1, n - 1);
      AtNext(table, path, n - 1);
    }
  }

  lemma ChainEnds(table: seq<Entry>, path: string, n: nat)
    requires n < FOLLOW && LinksUpTo(table, path, n) && !IsLink(table, At(table, path, n))
    ensures Outcome(table, At(table, path, n), Follow(table, path, FOLLOW))
  {
    hide Follow;
    FollowChain(table, path, FOLLOW, n);
    FollowUnfolds(table, At(table, path, n), FOLLOW - n);
  }

  /** The link at p points to q: at most 191 characters of the target, joined to p. */
  predicate Hop(table: seq<Entry>, p: string, q: string) {
    && IsLink(table, p)
    && var target := table[Find(table, p)].target;
       q == JoinTarget(p, if |target| <= 191 then target else target[..191])
  }

  predicate Chain(table: seq<Entry>, paths: seq<string>) {
    |paths| > 0 && forall i :: 0 <= i < |paths| - 1 ==> Hop(table, paths[i], paths[i + 1])
  }

  /** What is at the end of a chain: an entry that is no link, by its index; ENOENT for no entry
      or an empty target; EIO for a target that cannot be read. */
  predicate Outcome(table: seq<Entry>, p: string, r: int) {
    var k := Find(table, p);
    && (r >= 0 <==> k != -1 && table[k].kind != Link)
    && (r >= 0 ==> r == k)
    && (r == -2 <==> k == -1 || (table[k].kind == Link && table[k].target == ""))
    && (r == -5 <==> k != -1 && table[k].kind == Link && table[k].target != "" && !table[k].readable)
  }

  lemma {:induction false} ChainIsAt(table: seq<Entry>, paths: seq<string>, n: nat)
    requires Chain(table, paths) && n < |paths|
    ensures At(table, paths[0], n) == paths[n] && LinksUpTo(table, paths[0], n)
    decreases n
  {
    hide IsLink, Next;
    if n > 0 {
      ChainIsAt(table, paths, n - 1);
      HopIsNext(table, paths[n - 1], paths[n]);
    }
  }

  lemma HopIsNext(table: seq<Entry>, p: string, q: string)
    requires Hop(table, p, q)
    ensures IsLink(table, p) && q == Next(table, p)
  {
    hide JoinTarget, Find;
  }

  /** A chain of at most 7 links gives what is at its end, and one of 8 gives ELOOP. */
  lemma ShortChainResolves(table: seq<Entry>, paths: seq<string>)
    requires Chain(table, paths)
    ensures |paths| <= 8 && !IsLink(table, paths[|paths| - 1]) ==>
              Outcome(table, paths[|paths| - 1], Follow(table, paths[0], 8))
    ensures |paths| == 9 ==> Follow(table, paths[0], 8) == -40
  {
    hide JoinTarget, Find, At;
    var n := |paths| - 1;
    var p := paths[n];
    ChainIsAt(table, paths, n);
    if n < FOLLOW && !IsLink(table, p) {
      ChainEnds(table, paths[0], n);
    } else if n == FOLLOW {
      LoopIffLong(table, paths[0]);
    }
  }

  /** ELOOP is exactly for chains of 8 links or more. */
  lemma LoopIffLong(table: seq<Entry>, path: string)
    ensures Follow(table, path, FOLLOW) == -40 <==> LinksUpTo(table, path, FOLLOW)
  {
    if LinksUpTo(table, path, FOLLOW) {
      FollowChain(table, path, FOLLOW, FOLLOW);
    } else {
      var n := FirstEnd(table, path, FOLLOW);
      ChainEnds(table, path, n);
    }
  }

  lemma {:induction false} FirstEnd(table: seq<Entry>, path: string, m: nat) returns (n: nat)
    requires !LinksUpTo(table, path, m)
    ensures n < m && LinksUpTo(table, path, n) && !IsLink(table, At(table, path, n))
    decreases m
  {
    hide IsLink, At;
    if LinksUpTo(table, path, m - 1) {
      n := m - 1;
    } else {
      n := FirstEnd(table, path, m - 1);
    }
  }

  /** Once round the cycle, every later path is one of those on it. */
  lemma {:induction false} CycleGoesOn(table: seq<Entry>, path: string, i: nat, j: nat, n: nat) returns (m: nat)
    requires i < j && At(table, path, i) == At(table, path, j) && i <= n
    ensures i <= m < j && At(table, path, n) == At(table, path, m)
    decreases n
  {
    hide Next;
    if n == i {
      m := i;
    } else {
      m := CycleGoesOn(table, path, i, j, n - 1);
      m := m + 1;
      assert At(table, path, n) == At(table, path, m);
      if m == j {
        m := i;
      }
    }
  }

  /** Every cycle of links is answered with ELOOP. */
  lemma CycleLoops(table: seq<Entry>, path: string, i: nat, j: nat)
    requires i < j && LinksUpTo(table, path, j) && At(table, path, i) == At(table, path, j)
    ensures Follow(table, path, FOLLOW) == -40
  {
    hide IsLink, Next;
    forall n | 0 <= n < FOLLOW
      ensures IsLink(table, At(table, path, n))
    {
      if n >= j {
        var m := CycleGoesOn(table, path, i, j, n);
        assert IsLink(table, At(table, path, m));
      }
    }
    LoopIffLong(table, path);
  }

  // ---- joins that do not fit --------------------------------------------------------

  /** What join_target writes before the output buffer cuts it. */
  function Joined(link: string, target: string): (s: string) {
    Join(Stack([], Split(Take(Raw(link, target), WORK - 1))))
  }

  /** A join cut at 191 characters finds an entry if and only if some entry of exactly 191
      characters is, up to letter case, its beginning. */
  lemma CutJoinFoundIff(table: seq<Entry>, link: string, target: string)
    requires |Joined(link, target)| >= 192
    ensures Find(table, JoinTarget(link, target)) != -1
       <==> exists j :: 0 <= j < |table| && |table[j].path| == 191
                        && Lower(table[j].path) == Lower(Joined(link, target)[..191])
  {
    var cut := Joined(link, target)[..OUT - 1];
    assert JoinTarget(link, target) == cut;
    forall j | 0 <= j < |table| && Folded(table[j], cut)
      ensures |table[j].path| == OUT - 1
    {
      assert |Lower(table[j].path)| == |Lower(cut)|;
    }
    if Find(table, cut) != -1 {
      var j :| 0 <= j < |table| && Folded(table[j], cut);
      assert |table[j].path| == OUT - 1;
    }
  }

  lemma {:induction false} StackKeepsFirst(at: seq<string>, c: seq<string>)
    requires |at| <= SEGMENTS && Normal(c)
    ensures Stack(at, c) == if |at| + |c| <= SEGMENTS then at + c else at + c[..SEGMENTS - |at|]
    decreases |c|
  {
    if c == [] {
      assert at + c == at;
    } else if |at| < SEGMENTS {
      StackKeepsFirst(at + [c[0]], c[1..]);
      assert at + c == at + [c[0]] + c[1..];
      if |at| + |c| > SEGMENTS {
        assert c[..SEGMENTS - |at|] == [c[0]] + c[1..][..SEGMENTS - |at| - 1];
      }
    } else {
      StackKeepsFirst(at, c[1..]);
    }
  }

  /** A join that is not cut finds an entry if and only if some entry is, up to letter case,
      what the 64-name stack holds of it; that is the place the target means if and only if the
      stack has caught up with the walk. */
  lemma DeepJoinFoundIff(table: seq<Entry>, link: string, target: string)
    requires |Raw(link, target)| < 384 && |Joined(link, target)| < 192
    ensures Find(table, JoinTarget(link, target)) != -1
       <==> exists j :: 0 <= j < |table| && Lower(table[j].path) == Lower(Join(Stack([], Meant(link, target))))
    ensures Join(Stack([], Meant(link, target))) == Join(Walk([], Meant(link, target)))
       <==> Excess(0, 0, Meant(link, target)) == 0
  {
    hide Stack, Walk, Excess, Join, Split, JoinTarget;
    var c := Meant(link, target);
    JoinNormalisesIff(link, target);
    RawMeans(link, target);
    StackIsWalkIff(c);
    if Join(Stack([], c)) == Join(Walk([], c)) {
      PiecesSame(Stack([], c), Walk([], c));
    }
    if Find(table, JoinTarget(link, target)) != -1 {
      var j :| 0 <= j < |table| && Folded(table[j], JoinTarget(link, target));
    }
  }

  /** More than 64 names keep the first 64; and a ".." after them takes the 64th away, where the
      path means the last one. */
  lemma DeepJoinStrays(c: seq<string>)
    requires Normal(c) && |c| > 64
    ensures Stack([], c) == c[..64] && Walk([], c) == c
    ensures Stack([], c + [".."]) == c[..63] && Walk([], c + [".."]) == c[..|c| - 1]
  {
    StackKeepsFirst([], c);
    assert Stack([], c) == c[..SEGMENTS];
    WalkPushes([], c);
    assert [] + c == c;
    StackConcat([], c, [".."]);
    WalkConcat([], c, [".."]);
    OneUp(c[..SEGMENTS]);
    OneUp(c);
    assert c[..SEGMENTS][..SEGMENTS - 1] == c[..SEGMENTS - 1];
  }

  lemma OneUp(at: seq<string>)
    requires at != []
    ensures Stack(at, [".."]) == Walk(at, [".."]) == at[..|at| - 1]
  {
  }

  lemma {:induction false} StackConcat(at: seq<string>, a: seq<string>, b: seq<string>)
    ensures Stack(at, a + b) == Stack(Stack(at, a), b)
    decreases |a|
  {
    var c := a + b;
    if a == [] {
      assert c == b;
    } else {
      assert c[0] == a[0] && c[1..] == a[1..] + b;
      if a[0] == "." {
        StackConcat(at, a[1..], b);
      } else if a[0] == ".." {
        StackConcat(if at == [] then [] else at[..|at| - 1], a[1..], b);
      } else {
        StackConcat(if |at| < SEGMENTS then at + [a[0]] else at, a[1..], b);
      }
    }
  }

  /** find_follow: the entry's index, or the error. */
  method FindFollow(table: seq<Entry>, path: string) returns (r: int)
    ensures r == Follow(table, path, FOLLOW)
    ensures forall paths :: Chain(table, paths) && paths[0] == path ==>
              && (|paths| <= 8 && !IsLink(table, paths[|paths| - 1]) ==> Outcome(table, paths[|paths| - 1], r))
              && (|paths| == 9 ==> r == -40)
  {
    forall paths | Chain(table, paths) && paths[0] == path
      ensures |paths| <= 8 && !IsLink(table, paths[|paths| - 1]) ==>
                Outcome(table, paths[|paths| - 1], Follow(table, path, FOLLOW))
      ensures |paths| == 9 ==> Follow(table, path, FOLLOW) == -40
    {
      ShortChainResolves(table, paths);
    }
    hide JoinTarget, Chain, Outcome, IsLink;
    var cur, hop := path, 0;
    while hop < FOLLOW
      invariant 0 <= hop <= FOLLOW
      invariant Follow(table, path, FOLLOW) == Follow(table, cur, FOLLOW - hop)
    {
      var k := Search(table, cur);
      if k < 0 {
        return -2;
      }
      if table[k].kind != Link {
        return k;
      }
      if table[k].target == "" {
        return -2;
      }
      if !table[k].readable {
        return -5;
      }
      cur := JoinInto(cur, Take(table[k].target, TARGET));
      hop := hop + 1;
    }
    r := -40;
  }
}
