/**
 Symlink targets of the read-only /usr tree (join_target in src/lucas/backends_sysroot.c):
 string surgery with fixed buffers, against component-wise path normalisation.
 */
module SysrootPath {
  const WORK: nat := 384
  const OUT: nat := 192
  const SEGMENTS: nat := 64

  function Take(s: string, n: nat): (t: string)
    ensures |s| <= n ==> t == s
  {
    if |s| <= n then s else s[..n]
  }

  // ---- components -------------------------------------------------------------------

  function Flush(cur: string): (c: seq<string>) {
    if cur == [] then [] else [cur]
  }

  /** The nonempty pieces between slashes, as strtok hands them out; `cur` is the piece begun. */
  function Split(s: string, cur: string := ""): (c: seq<string>)
    decreases |s|
  {
    if s == [] then Flush(cur)
    else if s[0] == '/' then Flush(cur) + Split(s[1..])
    else Split(s[1..], cur + [s[0]])
  }

  /** The pieces joined by single slashes. */
  function Join(c: seq<string>): (s: string) {
    if c == [] then "" else if |c| == 1 then c[0] else Join(c[..|c| - 1]) + "/" + c[|c| - 1]
  }

  predicate Piece(p: string) {
    p != [] && forall i :: 0 <= i < |p| ==> p[i] != '/'
  }

  predicate Pieces(c: seq<string>) {
    forall i :: 0 <= i < |c| ==> Piece(c[i])
  }

  lemma {:induction false} SplitPieces(s: string, cur: string)
    requires cur == [] || Piece(cur)
    ensures Pieces(Split(s, cur))
    decreases |s|
  {
    if s != [] {
      if s[0] == '/' {
        SplitPieces(s[1..], "");
      } else {
        SplitPieces(s[1..], cur + [s[0]]);
      }
    }
  }

  /** A slash separates: what is left of it and what is right of it split apart. */
  lemma {:induction false} SplitSlash(a: string, b: string, cur: string)
    ensures Split(a + "/" + b, cur) == Split(a, cur) + Split(b)
    decreases |a|
  {
    var s := a + "/" + b;
    if a == [] {
      assert s[1..] == b;
    } else {
      assert s[1..] == a[1..] + "/" + b && s[0] == a[0];
      if a[0] == '/' {
        SplitSlash(a[1..], b, "");
      } else {
        SplitSlash(a[1..], b, cur + [a[0]]);
      }
    }
  }

  lemma {:induction false} SplitPiece(p: string, cur: string)
    requires forall i :: 0 <= i < |p| ==> p[i] != '/'
    ensures Split(p, cur) == Flush(cur + p)
    decreases |p|
  {
    if p == [] {
      assert cur + p == cur;
    } else {
      SplitPiece(p[1..], cur + [p[0]]);
      assert cur + [p[0]] + p[1..] == cur + p;
    }
  }

  /** Joining pieces and splitting again gives the pieces. */
  lemma {:induction false} SplitJoin(c: seq<string>)
    requires Pieces(c)
    ensures Split(Join(c)) == c
    decreases |c|
  {
    if |c| == 1 {
      SplitPiece(c[0], "");
      assert "" + c[0] == c[0];
    } else if |c| > 1 {
      var init, last := c[..|c| - 1], c[|c| - 1];
      SplitJoin(init);
      SplitSlash(Join(init), last, "");
      SplitPiece(last, "");
      assert "" + last == last;
    }
  }

  // ---- normalisation ----------------------------------------------------------------

  /** Where a walk along the components ends, starting `at` some place below the root: "." stays,
      ".." goes up and at the root stays. */
  function Walk(at: seq<string>, c: seq<string>): (n: seq<string>)
    decreases |c|
  {
    if c == [] then at
    else if c[0] == "." then Walk(at, c[1..])
    else if c[0] == ".." then Walk(if at == [] then [] else at[..|at| - 1], c[1..])
    else Walk(at + [c[0]], c[1..])
  }

  predicate Normal(c: seq<string>) {
    forall i :: 0 <= i < |c| ==> Piece(c[i]) && c[i] != "." && c[i] != ".."
  }

  lemma {:induction false} WalkNormal(at: seq<string>, c: seq<string>)
    requires Normal(at) && Pieces(c)
    ensures Normal(Walk(at, c))
    decreases |c|
  {
    if c != [] {
      if c[0] == "." {
        WalkNormal(at, c[1..]);
      } else if c[0] == ".." {
        WalkNormal(if at == [] then [] else at[..|at| - 1], c[1..]);
      } else {
        WalkNormal(at + [c[0]], c[1..]);
      }
    }
  }

  lemma {:induction false} WalkConcat(at: seq<string>, a: seq<string>, b: seq<string>)
    ensures Walk(at, a + b) == Walk(Walk(at, a), b)
    decreases |a|
  {
    var c := a + b;
    if a == [] {
      assert c == b;
    } else {
      assert c[0] == a[0] && c[1..] == a[1..] + b;
      if a[0] == "." {
        WalkConcat(at, a[1..], b);
      } else if a[0] == ".." {
        WalkConcat(if at == [] then [] else at[..|at| - 1], a[1..], b);
      } else {
        WalkConcat(at + [a[0]], a[1..], b);
      }
    }
  }

  lemma {:induction false} WalkPushes(at: seq<string>, c: seq<string>)
    requires Normal(c)
    ensures Walk(at, c) == at + c
    decreases |c|
  {
    if c == [] {
      assert at + c == at;
    } else {
      WalkPushes(at + [c[0]], c[1..]);
      assert at + [c[0]] + c[1..] == at + c;
    }
  }

  /** The four laws that define normalisation: a "." goes, a name and the ".." after it go, a
      ".." at the root goes, and a path without either is left alone. */
  lemma NormalisationLaws(a: seq<string>, x: string, b: seq<string>)
    requires x != "." && x != ".."
    ensures Walk([], a + ["."] + b) == Walk([], a + b)
    ensures Walk([], a + [x, ".."] + b) == Walk([], a + b)
    ensures Walk([], [".."] + b) == Walk([], b)
    ensures Normal(b) ==> Walk([], b) == b
  {
    var at := Walk([], a);
    WalkConcat([], a, b);
    assert a + ["."] + b == a + (["."] + b);
    WalkConcat([], a, ["."] + b);
    WalkConcat(at, ["."], b);
    assert Walk(at, ["."]) == at;
    assert a + [x, ".."] + b == a + ([x, ".."] + b);
    WalkConcat([], a, [x, ".."] + b);
    WalkConcat(at, [x, ".."], b);
    assert [x, ".."][1..] == [".."];
    assert (at + [x])[..|at|] == at;
    assert Walk(at, [x, ".."]) == Walk(at + [x], [".."]) == at;
    WalkConcat([], [".."], b);
    assert Walk([], [".."]) == [];
    if Normal(b) {
      WalkPushes([], b);
    }
  }

  // ---- join_target ------------------------------------------------------------------

  /** Everything before the last slash. */
  function Parent(s: string): (p: string) {
    if s == [] then "" else if s[|s| - 1] == '/' then s[..|s| - 1] else Parent(s[..|s| - 1])
  }

  function Unslashed(s: string): (t: string) {
    if s != [] && s[0] == '/' then Unslashed(s[1..]) else s
  }

  predicate StartsWith(s: string, p: string) {
    |p| <= |s| && s[..|p|] == p
  }

  /** The path to normalise, before the work buffer cuts it. */
  function Raw(link: string, target: string): (s: string) {
    if StartsWith(target, "/") then
      if StartsWith(target, "/usr/") then target[5..]
      else if StartsWith(target, "/lib/") then target[1..]
      else Unslashed(target)
    else if Parent(link) != "" then Parent(link) + "/" + target
    else target
  }

  /** The segment stack of join_target: names beyond the 64th are dropped. */
  function Stack(at: seq<string>, c: seq<string>): (n: seq<string>)
    decreases |c|
  {
    if c == [] then at
    else if c[0] == "." then Stack(at, c[1..])
    else if c[0] == ".." then Stack(if at == [] then [] else at[..|at| - 1], c[1..])
    else Stack(if |at| < SEGMENTS then at + [c[0]] else at, c[1..])
  }

  function JoinTarget(link: string, target: string): (out: string) {
    Take(Join(Stack([], Split(Take(Raw(link, target), WORK - 1)))), OUT - 1)
  }

  /** How many names a walk is ahead of the 64-name stack: a name that finds the stack full puts
      it one ahead, and a ".." on the empty stack takes one back. */
  function Excess(depth: nat, ahead: nat, c: seq<string>): (n: nat)
    decreases |c|
  {
    if c == [] then ahead
    else if c[0] == "." then Excess(depth, ahead, c[1..])
    else if c[0] == ".." then
      if depth > 0 then Excess(depth - 1, ahead, c[1..]) else Excess(0, if ahead > 0 then ahead - 1 else 0, c[1..])
    else if depth < SEGMENTS then Excess(depth + 1, ahead, c[1..])
    else Excess(depth, ahead + 1, c[1..])
  }

  /** Characters of the joined path, with a slash after every name. */
  function Chars(c: seq<string>): (n: nat) {
    if c == [] then 0 else Chars(c[..|c| - 1]) + |c[|c| - 1]| + 1
  }

  lemma {:induction false} JoinChars(c: seq<string>)
    ensures |Join(c)| == if c == [] then 0 else Chars(c) - 1
    decreases |c|
  {
    if |c| == 1 {
      assert Chars(c) == Chars(c[..0]) + |c[0]| + 1;
    } else if |c| > 1 {
      JoinChars(c[..|c| - 1]);
    }
  }

  /** The stack and the walk: equal when the walk is not ahead; no part of the stack is longer
      than the part of the walk it lags behind. */
  ghost predicate Lags(s: seq<string>, w: seq<string>, ahead: nat) {
    && |w| == |s| + ahead && (ahead == 0 ==> s == w)
    && forall i :: 0 <= i <= |s| ==> Chars(s[..i]) <= Chars(w[..i + ahead])
  }

  lemma CharsPush(c: seq<string>, x: string, i: nat)
    requires i <= |c| + 1
    ensures Chars((c + [x])[..i]) == if i <= |c| then Chars(c[..i]) else Chars(c) + |x| + 1
  {
    if i <= |c| {
      assert (c + [x])[..i] == c[..i];
    } else {
      assert (c + [x])[..i] == c + [x] && (c + [x])[..|c|] == c;
    }
  }

  lemma BothPush(s: seq<string>, w: seq<string>, ahead: nat, x: string)
    requires Lags(s, w, ahead)
    ensures Lags(s + [x], w + [x], ahead)
  {
    hide Chars;
    assert s[..|s|] == s && w[..|w|] == w;
    forall i | 0 <= i <= |s| + 1
      ensures Chars((s + [x])[..i]) <= Chars((w + [x])[..i + ahead])
    {
      CharsPush(s, x, i);
      CharsPush(w, x, i + ahead);
    }
  }

  lemma WalkPushesOn(s: seq<string>, w: seq<string>, ahead: nat, x: string)
    requires Lags(s, w, ahead)
    ensures Lags(s, w + [x], ahead + 1)
  {
    forall i | 0 <= i <= |s|
      ensures Chars(s[..i]) <= Chars((w + [x])[..i + ahead + 1])
    {
      var v := (w + [x])[..i + ahead + 1];
      assert v[..|v| - 1] == w[..i + ahead];
    }
  }

  lemma BothPop(s: seq<string>, w: seq<string>, ahead: nat)
    requires Lags(s, w, ahead) && s != []
    ensures w != [] && Lags(s[..|s| - 1], w[..|w| - 1], ahead)
  {
    hide Chars;
    var s', w' := s[..|s| - 1], w[..|w| - 1];
    forall i | 0 <= i <= |s'|
      ensures Chars(s'[..i]) <= Chars(w'[..i + ahead])
    {
      assert s'[..i] == s[..i] && w'[..i + ahead] == w[..i + ahead];
    }
  }

  /** The stack follows the walk, lagging by the excess. */
  lemma {:induction false} StackLags(s: seq<string>, w: seq<string>, ahead: nat, c: seq<string>)
    requires Lags(s, w, ahead) && |s| <= SEGMENTS
    ensures Lags(Stack(s, c), Walk(w, c), Excess(|s|, ahead, c))
    decreases |c|
  {
    hide Chars, Lags;
    if c != [] {
      var rest := c[1..];
      if c[0] == "." {
        StackLags(s, w, ahead, rest);
      } else if c[0] == ".." {
        if s != [] {
          BothPop(s, w, ahead);
          StackLags(s[..|s| - 1], w[..|w| - 1], ahead, rest);
        } else {
          WalkPops(w, ahead);
          StackLags([], if w == [] then [] else w[..|w| - 1], if ahead > 0 then ahead - 1 else 0, rest);
        }
      } else if |s| < SEGMENTS {
        BothPush(s, w, ahead, c[0]);
        StackLags(s + [c[0]], w + [c[0]], ahead, rest);
      } else {
        WalkPushesOn(s, w, ahead, c[0]);
        StackLags(s, w + [c[0]], ahead + 1, rest);
      }
    }
  }

  lemma WalkPops(w: seq<string>, ahead: nat)
    requires Lags([], w, ahead)
    ensures Lags([], if w == [] then [] else w[..|w| - 1], if ahead > 0 then ahead - 1 else 0)
  {
  }

  lemma StackIsWalkIff(c: seq<string>)
    ensures Stack([], c) == Walk([], c) <==> Excess(0, 0, c) == 0
    ensures |Join(Stack([], c))| <= |Join(Walk([], c))|
  {
    var s, w := Stack([], c), Walk([], c);
    StackLags([], [], 0, c);
    JoinChars(s);
    JoinChars(w);
    assert s[..|s|] == s && w[..|w|] == w;
  }

  lemma {:induction false} StackNormal(at: seq<string>, c: seq<string>)
    requires Normal(at) && Pieces(c)
    ensures Normal(Stack(at, c))
    decreases |c|
  {
    if c != [] {
      if c[0] == "." {
        StackNormal(at, c[1..]);
      } else if c[0] == ".." {
        StackNormal(if at == [] then [] else at[..|at| - 1], c[1..]);
      } else {
        StackNormal(if |at| < SEGMENTS then at + [c[0]] else at, c[1..]);
      }
    }
  }

  lemma {:induction false} UnslashedSplit(s: string)
    ensures Split(Unslashed(s)) == Split(s)
    decreases |s|
  {
    if s != [] && s[0] == '/' {
      UnslashedSplit(s[1..]);
      assert Flush("") + Split(s[1..]) == Split(s[1..]);
    }
  }

  /** What the target means: from the tree root for an absolute target, where a leading /usr is
      the root itself, else from the directory the link is in. */
  function Meant(link: string, target: string): (c: seq<string>) {
    if StartsWith(target, "/usr/") then Split(target[5..])
    else if StartsWith(target, "/") then Split(target)
    else Split(Parent(link)) + Split(target)
  }

  lemma {:induction false} ParentIs(dir: string, name: string)
    requires Piece(name)
    ensures Parent(dir + "/" + name) == dir && Parent(name) == ""
    decreases |name|
  {
    var s, init := dir + "/" + name, name[..|name| - 1];
    assert s[..|s| - 1] == dir + "/" + init;
    if init == [] {
      assert Parent(dir + "/") == dir by {
        assert (dir + "/")[..|dir|] == dir;
      }
      assert dir + "/" + init == dir + "/";
    } else {
      ParentIs(dir, init);
    }
  }

  /** For a link in a directory, a relative target is walked from that directory. */
  lemma MeantInDirectory(dir: seq<string>, name: string, target: string)
    requires Pieces(dir) && Piece(name) && !StartsWith(target, "/")
    ensures Meant(Join(dir + [name]), target) == dir + Split(target)
  {
    hide Split;
    assert (dir + [name])[..|dir|] == dir;
    ParentIs(Join(dir), name);
    SplitJoin(dir);
    SplitJoin([]);
    UsrIsAbsolute(target);
  }

  lemma UsrIsAbsolute(target: string)
    ensures StartsWith(target, "/usr/") ==> StartsWith(target, "/")
  {
    if StartsWith(target, "/usr/") {
      assert target[0] == target[..5][0];
    }
  }

  lemma RawMeans(link: string, target: string)
    ensures Split(Raw(link, target)) == Meant(link, target)
  {
    if StartsWith(target, "/") {
      UnslashedSplit(target);
      assert Flush("") + Split(target[1..]) == Split(target[1..]);
      assert Split(target) == Split(target[1..]);
    } else if Parent(link) != "" {
      SplitSlash(Parent(link), target, "");
    } else {
      assert Split(Parent(link)) == [];
    }
  }

  lemma PiecesSame(a: seq<string>, b: seq<string>)
    requires Pieces(a) && Pieces(b) && Join(a) == Join(b)
    ensures a == b
  {
    SplitJoin(a);
    SplitJoin(b);
  }

  /** For a path that fits the work buffer join_target is component-wise normalisation if and
      only if the stack has caught up with the walk and the result is shorter than 192
      characters; and what the stack holds names a place inside the tree in any case: no ".", no
      "..", no empty component. */
  lemma JoinNormalisesIff(link: string, target: string)
    requires |Raw(link, target)| < 384
    ensures var c := Meant(link, target);
            && (JoinTarget(link, target) == Join(Walk([], c)) <==> Excess(0, 0, c) == 0 && |Join(Walk([], c))| < 192)
            && Normal(Walk([], c)) && Normal(Stack([], c))
            && JoinTarget(link, target) == Take(Join(Stack([], c)), 191)
  {
    hide Stack, Walk, Excess, Join, Split;
    var c := Meant(link, target);
    RawMeans(link, target);
    SplitPieces(Raw(link, target), "");
    StackIsWalkIff(c);
    WalkNormal([], c);
    StackNormal([], c);
    if |Join(Walk([], c))| < OUT && Join(Stack([], c)) == Join(Walk([], c)) {
      PiecesSame(Stack([], c), Walk([], c));
    }
  }

  // ---- the code ---------------------------------------------------------------------

  /** snprintf of a string into the `room` bytes left in the buffer: what it stores. */
  function Printed(s: string, room: nat): (t: string)
    requires room > 0
  {
    Take(s, room - 1)
  }

  lemma {:induction false} JoinGrows(c: seq<string>, i: nat)
    requires i < |c|
    ensures Join(c[..i + 1]) == Join(c[..i]) + (if i == 0 then "" else "/") + c[i]
  {
    assert c[..i + 1][..i] == c[..i];
  }

  lemma {:induction false} JoinPrefix(c: seq<string>, i: nat)
    requires i <= |c|
    ensures |Join(c[..i])| <= |Join(c)| && Join(c)[..|Join(c[..i])|] == Join(c[..i])
    decreases |c| - i
  {
    if i == |c| {
      assert c[..i] == c;
    } else {
      JoinGrows(c, i);
      JoinPrefix(c, i + 1);
    }
  }

  /** join_target: the token loop with its segment array, then the output loop. */
  method JoinInto(link: string, target: string) returns (out: string)
    ensures out == JoinTarget(link, target)
  {
    hide Split, Raw, Join, Stack;
    var tokens := Split(Take(Raw(link, target), WORK - 1));
    var seg := [];
    var i := 0;
    StackUnfolds([], tokens);
    assert tokens[0..] == tokens;
    while i < |tokens|
      invariant 0 <= i <= |tokens|
      invariant Stack([], tokens) == Stack(seg, tokens[i..])
      invariant |seg| <= SEGMENTS
    {
      var p := tokens[i];
      StackUnfolds(seg, tokens[i..]);
      assert tokens[i..][1..] == tokens[i + 1..];
      if p == "." {
      } else if p == ".." {
        if |seg| > 0 {
          seg := seg[..|seg| - 1];
        }
      } else if |seg| < SEGMENTS {
        seg := seg + [p];
      }
      i := i + 1;
    }
    StackUnfolds(seg, []);
    assert tokens[i..] == [];
    out := Output(seg);
  }

  lemma StackUnfolds(at: seq<string>, c: seq<string>)
    ensures Stack(at, c) ==
            if c == [] then at
            else if c[0] == "." then Stack(at, c[1..])
            else if c[0] == ".." then Stack(if at == [] then [] else at[..|at| - 1], c[1..])
            else Stack(if |at| < SEGMENTS then at + [c[0]] else at, c[1..])
  {
  }

  method Output(seg: seq<string>) returns (out: string)
    ensures out == Take(Join(seg), OUT - 1)
  {
    hide Join;
    out := "";
    var w, i := 0, 0;
    JoinEmpty(seg);
    while i < |seg| && w + 1 < OUT
      invariant 0 <= i <= |seg| && w == |Join(seg[..i])|
      invariant out == Take(Join(seg[..i]), OUT - 1)
      invariant w < OUT || i > 0
    {
      var s := (if i == 0 then "" else "/") + seg[i];
      JoinGrows(seg, i);
      assert Join(seg[..i + 1]) == Join(seg[..i]) + s;
      out := out + Printed(s, OUT - w);
      w := w + |s|;
      i := i + 1;
    }
    JoinPrefix(seg, i);
    assert i == |seg| ==> seg[..i] == seg;
  }

  lemma JoinEmpty(c: seq<string>)
    ensures Join(c[..0]) == ""
  {
  }
}
