/** Directory records and what a buffer holds of a listing. */
module Dirents {
  /** `next` is the position stored with the record. */
  datatype Rec = Rec(name: string, next: nat)

  /** struct lx_dirent64: 19 bytes, the name, its NUL, rounded up to 8. */
  function Reclen(r: Rec): (n: nat)
    ensures n % 8 == 0 && n >= 19 + |r.name| + 1 && n < 19 + |r.name| + 9
  {
    (19 + |r.name| + 1 + 7) / 8 * 8
  }

  function Total(rs: seq<Rec>): (n: nat)
    ensures n % 8 == 0
  {
    if rs == [] then 0 else Reclen(rs[0]) + Total(rs[1..])
  }

  /** The longest run of records from the front that fits into `room` bytes. */
  function Fits(rs: seq<Rec>, room: nat): (p: seq<Rec>)
    ensures |p| <= |rs| && p == rs[..|p|] && Total(p) <= room
    ensures |p| < |rs| ==> Total(p) + Reclen(rs[|p|]) > room
  {
    if rs == [] || Reclen(rs[0]) > room then []
    else
      var p := [rs[0]] + Fits(rs[1..], room - Reclen(rs[0]));
      assert p[1..] == Fits(rs[1..], room - Reclen(rs[0]));
      p
  }

  lemma {:induction false} TotalConcat(a: seq<Rec>, b: seq<Rec>)
    ensures Total(a + b) == Total(a) + Total(b)
    decreases |a|
  {
    if a == [] {
      assert a + b == b;
    } else {
      assert (a + b)[1..] == a[1..] + b;
      TotalConcat(a[1..], b);
    }
  }

  /** A prefix that fits while the next record does not is the whole of what fits. */
  lemma {:induction false} FitsIs(rs: seq<Rec>, room: nat, p: seq<Rec>)
    requires |p| <= |rs| && p == rs[..|p|] && Total(p) <= room
    requires |p| < |rs| ==> Total(p) + Reclen(rs[|p|]) > room
    ensures Fits(rs, room) == p
    decreases |rs|
  {
    if p == [] {
    } else {
      assert rs[0] == p[0] && rs[1..][..|p| - 1] == p[1..];
      FitsIs(rs[1..], room - Reclen(rs[0]), p[1..]);
    }
  }

  lemma NoRecords()
    ensures Total([]) == 0
  {
  }

  lemma NothingWritten(rs: seq<Rec>)
    ensures Total(rs) == 0 <==> rs == []
  {
  }

  /** Taking one more record off a listing. */
  lemma TakeOne(all: seq<Rec>, recs: seq<Rec>, r: Rec, rest: seq<Rec>)
    requires all == recs + ([r] + rest)
    ensures all == recs + [r] + rest && Total(recs + [r]) == Total(recs) + Reclen(r)
  {
    TotalConcat(recs, [r]);
    assert Total([r]) == Reclen(r);
  }

  /** Stopping in front of a record that does not fit. */
  lemma StopBefore(all: seq<Rec>, recs: seq<Rec>, r: Rec, rest: seq<Rec>, room: nat)
    requires all == recs + ([r] + rest) && Total(recs) <= room < Total(recs) + Reclen(r)
    ensures Fits(all, room) == recs && |recs| < |all| && all[..|recs|] == recs && all[|recs| + 1..] == rest
  {
    hide Fits, Total, Reclen;
    assert all[|recs|] == r;
    FitsIs(all, room, recs);
  }

  lemma StopAtEnd(all: seq<Rec>, recs: seq<Rec>, room: nat)
    requires all == recs + [] && Total(recs) <= room
    ensures Fits(all, room) == recs && all[..|recs|] == recs
  {
    FitsIs(all, room, recs);
  }

  // ---- a reader that keeps calling --------------------------------------------------

  /** What the caller has collected and what the directory still has to give. */
  datatype Progress = Progress(seen: seq<Rec>, rest: seq<Rec>)

  /** A call that leaves the first record that does not fit for the next call. */
  function Resume(p: Progress, room: nat): (q: Progress) {
    var n := |Fits(p.rest, room)|;
    Progress(p.seen + p.rest[..n], p.rest[n..])
  }

  /** A call that has already stepped over that record. */
  function Skip(p: Progress, room: nat): (q: Progress) {
    var n := |Fits(p.rest, room)|;
    Progress(p.seen + p.rest[..n], if n < |p.rest| then p.rest[n + 1..] else [])
  }

  lemma SkipsOver(all: seq<Rec>, recs: seq<Rec>, r: Rec, rest: seq<Rec>, room: nat)
    requires all == recs + ([r] + rest) && Total(recs) <= room < Total(recs) + Reclen(r)
    ensures Skip(Progress([], all), room) == Progress(recs, rest)
  {
    hide Fits, Total, Reclen;
    StopBefore(all, recs, r, rest, room);
    assert [] + recs == recs;
  }

  lemma SkipsNothing(all: seq<Rec>, recs: seq<Rec>, room: nat)
    requires all == recs + [] && Total(recs) <= room
    ensures Skip(Progress([], all), room) == Progress(recs, [])
  {
    hide Fits, Total;
    StopAtEnd(all, recs, room);
    assert [] + recs == recs;
  }

  function ResumeAll(p: Progress, rooms: seq<nat>): (q: Progress)
    decreases |rooms|
  {
    if rooms == [] then p else ResumeAll(Resume(p, rooms[0]), rooms[1..])
  }

  function SkipAll(p: Progress, rooms: seq<nat>): (q: Progress)
    decreases |rooms|
  {
    if rooms == [] then p else SkipAll(Skip(p, rooms[0]), rooms[1..])
  }

  lemma ResumeKeeps(p: Progress, room: nat)
    ensures Resume(p, room).seen + Resume(p, room).rest == p.seen + p.rest
  {
    hide Fits;
    var n := |Fits(p.rest, room)|;
    assert p.rest == p.rest[..n] + p.rest[n..];
  }

  /** Whatever the buffer sizes, nothing is lost and nothing comes twice: what was seen and
      what is left make up the listing. */
  lemma {:induction false} ResumeLosesNothing(p: Progress, rooms: seq<nat>)
    ensures var q := ResumeAll(p, rooms); q.seen + q.rest == p.seen + p.rest
    decreases |rooms|
  {
    hide Resume;
    if rooms != [] {
      ResumeKeeps(p, rooms[0]);
      ResumeLosesNothing(Resume(p, rooms[0]), rooms[1..]);
    }
  }

  /** A call with room for a record makes progress, so a reader whose buffer holds the longest
      record sees everything after at most as many calls as there are records. */
  lemma {:induction false} ResumeEnds(p: Progress, rooms: seq<nat>)
    requires |rooms| >= |p.rest|
    requires forall i, j :: 0 <= i < |rooms| && 0 <= j < |p.rest| ==> Reclen(p.rest[j]) <= rooms[i]
    ensures ResumeAll(p, rooms) == Progress(p.seen + p.rest, [])
    decreases |rooms|
  {
    if rooms == [] {
      assert p.seen + p.rest == p.seen;
    } else {
      var r := Resume(p, rooms[0]);
      var n := |Fits(p.rest, rooms[0])|;
      ResumeLosesNothing(p, [rooms[0]]);
      assert p.rest == p.rest[..n] + p.rest[n..];
      assert p.seen + p.rest == r.seen + r.rest;
      ResumeEnds(r, rooms[1..]);
    }
  }

  /** How many calls stopped at a record that did not fit. */
  function Broken(p: Progress, rooms: seq<nat>): (n: nat)
    decreases |rooms|
  {
    if rooms == [] then 0
    else (if |Fits(p.rest, rooms[0])| < |p.rest| then 1 else 0) + Broken(Skip(p, rooms[0]), rooms[1..])
  }

  lemma {:induction false} SkipCounts(p: Progress, rooms: seq<nat>)
    ensures var q := SkipAll(p, rooms); |q.seen| + |q.rest| + Broken(p, rooms) == |p.seen| + |p.rest|
    decreases |rooms|
  {
    if rooms != [] {
      SkipCounts(Skip(p, rooms[0]), rooms[1..]);
    }
  }

  lemma {:induction false} SkipWholeOrShort(p: Progress, rooms: seq<nat>)
    requires Broken(p, rooms) == 0
    ensures var q := SkipAll(p, rooms); q.seen + q.rest == p.seen + p.rest
    decreases |rooms|
  {
    if rooms != [] {
      var n := |Fits(p.rest, rooms[0])|;
      assert n == |p.rest|;
      assert p.rest[..n] == p.rest;
      var r := Skip(p, rooms[0]);
      assert r.seen + r.rest == p.seen + p.rest;
      SkipWholeOrShort(r, rooms[1..]);
    }
  }

  lemma FitsAllIff(rs: seq<Rec>, room: nat)
    ensures |Fits(rs, room)| == |rs| <==> Total(rs) <= room
  {
    assert rs[..|rs|] == rs;
    if Total(rs) <= room {
      FitsIs(rs, room, rs);
    }
  }

  lemma {:induction false} NothingLeftToBreak(p: Progress, rooms: seq<nat>)
    requires p.rest == []
    ensures Broken(p, rooms) == 0
    decreases |rooms|
  {
    if rooms != [] {
      NothingLeftToBreak(Skip(p, rooms[0]), rooms[1..]);
    }
  }

  /** No call stops at a record exactly when the first buffer holds the whole directory. */
  lemma UnbrokenIff(list: seq<Rec>, rooms: seq<nat>)
    ensures Broken(Progress([], list), rooms) == 0 <==> rooms == [] || Total(list) <= rooms[0]
  {
    if rooms != [] {
      FitsAllIff(list, rooms[0]);
      if Total(list) <= rooms[0] {
        NothingLeftToBreak(Skip(Progress([], list), rooms[0]), rooms[1..]);
      }
    }
  }

  /** The skipping reader gets the whole listing, over however many calls, if and only if its
      first buffer holds the whole directory; otherwise one record is missing for each call
      that stopped at one. */
  lemma SkipCompleteIff(list: seq<Rec>, rooms: seq<nat>)
    ensures var q := SkipAll(Progress([], list), rooms);
            && (q.seen + q.rest == list <==> rooms == [] || Total(list) <= rooms[0])
            && |q.seen| + |q.rest| == |list| - Broken(Progress([], list), rooms)
  {
    var p := Progress([], list);
    SkipCounts(p, rooms);
    UnbrokenIff(list, rooms);
    assert p.seen + p.rest == list;
    if Broken(p, rooms) == 0 {
      SkipWholeOrShort(p, rooms);
    }
  }
}

/** op_getdents of the /usr tree. */
module SysrootListing {
  import opened SysrootPath
  import opened SysrootTree
  import opened Dirents

  predicate NoSlash(s: string) {
    forall i :: 0 <= i < |s| ==> s[i] != '/'
  }

  /** The name of a direct child of dir, or empty; dir "" is the root. */
  function ChildName(dir: string, path: string): (n: string) {
    var p := if dir == "" then path
             else if StartsWith(path, dir) && |path| > |dir| && path[|dir|] == '/' then path[|dir| + 1..] else "";
    if NoSlash(p) then p else ""
  }

  /** The records of dir's children from table position `from` on, in table order. */
  function Children(table: seq<Entry>, dir: string, from: nat): (rs: seq<Rec>)
    requires from <= |table|
    decreases |table| - from
  {
    if from == |table| then []
    else
      var n := ChildName(dir, table[from].path);
      (if n == "" then [] else [Rec(n, from + 1)]) + Children(table, dir, from + 1)
  }

  lemma ChildNameIs(dir: string, path: string, n: string)
    requires n != ""
    ensures ChildName(dir, path) == n <==> NoSlash(n) && path == if dir == "" then n else dir + "/" + n
  {
    if dir != "" && StartsWith(path, dir) && |path| > |dir| && path[|dir|] == '/' {
      assert path == dir + "/" + path[|dir| + 1..];
    }
    if dir != "" && path == dir + "/" + n {
      assert path[..|dir|] == dir && path[|dir| + 1..] == n;
    }
  }

  /** The listing has a record for an entry exactly when the entry is one component below the
      directory, each once and in table order. */
  lemma {:induction false} ChildrenAre(table: seq<Entry>, dir: string, from: nat, r: Rec)
    requires from <= |table|
    ensures r in Children(table, dir, from) <==>
            && from < r.next <= |table| && r.name != "" && NoSlash(r.name)
            && table[r.next - 1].path == if dir == "" then r.name else dir + "/" + r.name
    ensures forall i, j :: 0 <= i < j < |Children(table, dir, from)| ==>
              Children(table, dir, from)[i].next < Children(table, dir, from)[j].next
    ensures forall i :: 0 <= i < |Children(table, dir, from)| ==> Children(table, dir, from)[i].next > from
    decreases |table| - from
  {
    hide ChildName, NoSlash, Children;
    if from == |table| {
      ChildrenEnd(table, dir);
    } else {
      ChildrenStep(table, dir, from);
      ChildrenAre(table, dir, from + 1, r);
      var n := ChildName(dir, table[from].path);
      if r.name != "" {
        ChildNameIs(dir, table[from].path, r.name);
      }
      var c, d := Children(table, dir, from), Children(table, dir, from + 1);
      if n != "" {
        assert c == [Rec(n, from + 1)] + d;
        assert r in c <==> r == Rec(n, from + 1) || r in d;
      }
    }
  }

  /** One call: the records that fit and the new position, or -22 with the position on the
      first child that did not fit. */
  method Getdents(table: seq<Entry>, dir: string, room: nat, cursor: nat) returns (rc: int, recs: seq<Rec>, next: nat)
    requires cursor <= |table|
    ensures cursor <= next <= |table|
    ensures recs == Fits(Children(table, dir, cursor), room)
    ensures Children(table, dir, cursor) == recs + Children(table, dir, next)
    ensures Resume(Progress([], Children(table, dir, cursor)), room) == Progress(recs, Children(table, dir, next))
    ensures rc == if recs == [] && Children(table, dir, cursor) != [] then -22 else Total(recs)
  {
    hide Children, ChildName, Reclen, Total, Fits;
    next, recs := cursor, [];
    var written := 0;
    ghost var all := Children(table, dir, cursor);
    NoRecords();
    while next < |table|
      invariant cursor <= next <= |table|
      invariant all == recs + Children(table, dir, next)
      invariant written == Total(recs) <= room
      decreases |table| - next
    {
      ChildrenStep(table, dir, next);
      var name := ChildName(dir, table[next].path);
      if name == "" {
        next := next + 1;
      } else {
        var r := Rec(name, next + 1);
        if written + Reclen(r) > room {
          StopBefore(all, recs, r, Children(table, dir, next + 1), room);
          NothingWritten(recs);
          assert [] + recs == recs;
          return if written == 0 then -22 else written, recs, next;
        }
        TakeOne(all, recs, r, Children(table, dir, next + 1));
        recs := recs + [r];
        written := written + Reclen(r);
        next := next + 1;
      }
    }
    ChildrenEnd(table, dir);
    StopAtEnd(all, recs, room);
    assert [] + recs == recs;
    rc := written;
  }

  lemma ChildrenStep(table: seq<Entry>, dir: string, i: nat)
    requires i < |table|
    ensures var n := ChildName(dir, table[i].path);
            Children(table, dir, i)
            == if n == "" then Children(table, dir, i + 1) else [Rec(n, i + 1)] + Children(table, dir, i + 1)
  {
    assert [] + Children(table, dir, i + 1) == Children(table, dir, i + 1);
  }

  lemma ChildrenEnd(table: seq<Entry>, dir: string)
    ensures Children(table, dir, |table|) == []
  {
  }

  // ---- handles ----------------------------------------------------------------------

  datatype Handle = Handle(inUse: bool, entry: int)

  predicate Closed(h: Handle, entry: int) {
    !h.inUse && h.entry == entry
  }

  /** alloc_handle_slot: the lowest closed slot that already stands for the entry; failing
      that, the lowest that stands for nothing; only then the lowest closed slot of another
      file.  It fails only when every slot is open. */
  method PickSlot(hs: seq<Handle>, entry: int) returns (k: int)
    ensures k == -1 <==> forall i :: 0 <= i < |hs| ==> hs[i].inUse
    ensures k != -1 ==> 0 <= k < |hs| && !hs[k].inUse
    ensures k != -1 && hs[k].entry != entry ==> forall i :: 0 <= i < |hs| ==> !Closed(hs[i], entry)
    ensures k != -1 && hs[k].entry != entry && hs[k].entry != -1 ==> forall i :: 0 <= i < |hs| ==> !Closed(hs[i], -1)
    ensures forall i :: 0 <= i < k && !hs[i].inUse ==> hs[i].entry != hs[k].entry
  {
    var unused, recycle := -1, -1;
    var i := 0;
    while i < |hs|
      invariant 0 <= i <= |hs|
      invariant forall j :: 0 <= j < i ==> !Closed(hs[j], entry)
      invariant -1 <= unused < i && (unused >= 0 ==> Closed(hs[unused], -1))
      invariant unused == -1 ==> forall j :: 0 <= j < i ==> !Closed(hs[j], -1)
      invariant forall j :: 0 <= j < unused ==> !Closed(hs[j], -1)
      invariant -1 <= recycle < i && (recycle >= 0 ==> !hs[recycle].inUse)
      invariant recycle == -1 ==> forall j :: 0 <= j < i ==> hs[j].inUse
      invariant forall j :: 0 <= j < recycle ==> hs[j].inUse
      invariant unused >= 0 ==> recycle >= 0
    {
      if !hs[i].inUse {
        if hs[i].entry == entry {
          return i;
        }
        if hs[i].entry == -1 && unused < 0 {
          unused := i;
        }
        if recycle < 0 {
          recycle := i;
        }
      }
      i := i + 1;
    }
    k := if unused >= 0 then unused else recycle;
  }
}

/** op_getdents of the shared graph. */
module SotfsListing {
  import opened Machine
  import opened SotfsGraph
  import opened Dirents

  /** The edge is a child of dir that session t may see and that is not hidden by name. */
  predicate Listed(fs: Fs, t: U32, dir: int, hidden: set<string>, k: int) {
    k in fs.edges && fs.edges[k].parent == dir && fs.edges[k].name !in hidden && Visible(fs, fs.edges[k].child, t)
  }

  function Entries(fs: Fs, t: U32, dir: int, hidden: set<string>, from: nat): (rs: seq<Rec>)
    requires from <= MAX_EDGES
    decreases MAX_EDGES - from
  {
    if from == MAX_EDGES then []
    else
      (if Listed(fs, t, dir, hidden, from + 1) then [Rec(fs.edges[from + 1].name, from + 1)] else [])
      + Entries(fs, t, dir, hidden, from + 1)
  }

  /** The listing has a record for an edge exactly when the caller may see it. */
  lemma {:induction false} EntriesAre(fs: Fs, t: U32, dir: int, hidden: set<string>, from: nat, r: Rec)
    requires from <= MAX_EDGES
    ensures r in Entries(fs, t, dir, hidden, from) <==>
            from < r.next <= MAX_EDGES && Listed(fs, t, dir, hidden, r.next) && r.name == fs.edges[r.next].name
    decreases MAX_EDGES - from
  {
    hide Entries, Listed;
    if from == MAX_EDGES {
      EntriesEnd(fs, t, dir, hidden);
    } else {
      EntriesStep(fs, t, dir, hidden, from);
      EntriesAre(fs, t, dir, hidden, from + 1, r);
    }
  }

  /** One call: the cursor is past a record that did not fit. */
  method Getdents(fs: Fs, t: U32, dir: int, hidden: set<string>, room: nat, cursor: nat)
    returns (rc: nat, recs: seq<Rec>, next: nat)
    requires cursor <= MAX_EDGES
    ensures cursor <= next <= MAX_EDGES && rc == Total(recs)
    ensures var p := Progress([], Entries(fs, t, dir, hidden, cursor));
            Skip(p, room) == Progress(recs, Entries(fs, t, dir, hidden, next))
  {
    hide Entries, Listed, Reclen, Total, Fits, Skip;
    next, recs := cursor, [];
    var written := 0;
    ghost var all := Entries(fs, t, dir, hidden, cursor);
    NoRecords();
    while next < MAX_EDGES
      invariant cursor <= next <= MAX_EDGES
      invariant all == recs + Entries(fs, t, dir, hidden, next)
      invariant written == Total(recs) <= room
    {
      EntriesStep(fs, t, dir, hidden, next);
      next := next + 1;
      if Listed(fs, t, dir, hidden, next) {
        var r := Rec(fs.edges[next].name, next);
        if written + Reclen(r) > room {
          SkipsOver(all, recs, r, Entries(fs, t, dir, hidden, next), room);
          return written, recs, next;
        }
        TakeOne(all, recs, r, Entries(fs, t, dir, hidden, next));
        recs := recs + [r];
        written := written + Reclen(r);
      }
    }
    EntriesEnd(fs, t, dir, hidden);
    SkipsNothing(all, recs, room);
    rc := written;
  }

  lemma EntriesStep(fs: Fs, t: U32, dir: int, hidden: set<string>, i: nat)
    requires i < MAX_EDGES
    ensures Listed(fs, t, dir, hidden, i + 1) ==> i + 1 in fs.edges
    ensures Entries(fs, t, dir, hidden, i)
         == if Listed(fs, t, dir, hidden, i + 1)
            then [Rec(fs.edges[i + 1].name, i + 1)] + Entries(fs, t, dir, hidden, i + 1)
            else Entries(fs, t, dir, hidden, i + 1)
  {
    assert [] + Entries(fs, t, dir, hidden, i + 1) == Entries(fs, t, dir, hidden, i + 1);
  }

  lemma EntriesEnd(fs: Fs, t: U32, dir: int, hidden: set<string>)
    ensures Entries(fs, t, dir, hidden, MAX_EDGES) == []
  {
  }
}
