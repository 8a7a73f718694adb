/**
 Named shared-memory objects of one page each (src/lucas/backends_shm.c): two static pools,
 reference counts, and unlinking that waits for the last close.
 */
module Shm {
  import opened Machine

  const OBJECTS: nat := 8
  const HANDLES: nat := 16
  const PAGE: nat := 4096
  const NAME_MAX: nat := 63

  datatype Object = Object(inUse: bool, unlinked: bool, opens: nat, name: string, page: seq<Byte>)
  datatype Handle = Handle(inUse: bool, slot: int)

  /** `frames` counts the page frames taken from the allocator and not given back. */
  datatype State = State(objects: seq<Object>, handles: seq<Handle>, frames: int)

  const FREE: Object := Object(false, false, 0, "", [])
  const CLOSED: Handle := Handle(false, -1)

  function Mounted(): (s: State) {
    State(seq(OBJECTS, _ => FREE), seq(HANDLES, _ => CLOSED), 0)
  }

  predicate Shaped(s: State) {
    |s.objects| == OBJECTS && |s.handles| == HANDLES
  }

  /** normalise_name: the name without leading slashes; empty means none. */
  function Normalise(path: string): (n: string)
    ensures n == [] || n[0] != '/'
  {
    if path != [] && path[0] == '/' then Normalise(path[1..]) else path
  }

  predicate Linked(o: Object) {
    o.inUse && !o.unlinked
  }

  /** The lowest linked object with the name, or -1. */
  function FindName(os: seq<Object>, name: string, i: nat := 0): (k: int)
    requires i <= |os|
    ensures k == -1 || (i <= k < |os| && Linked(os[k]) && os[k].name == name)
    ensures k == -1 ==> forall j :: i <= j < |os| && Linked(os[j]) ==> os[j].name != name
    decreases |os| - i
  {
    if i == |os| then -1 else if Linked(os[i]) && os[i].name == name then i else FindName(os, name, i + 1)
  }

  function FreeObject(os: seq<Object>, i: nat := 0): (k: int)
    requires i <= |os|
    ensures k == -1 || (i <= k < |os| && !os[k].inUse)
    ensures k == -1 ==> forall j :: i <= j < |os| ==> os[j].inUse
    decreases |os| - i
  {
    if i == |os| then -1 else if !os[i].inUse then i else FreeObject(os, i + 1)
  }

  function FreeHandle(hs: seq<Handle>, i: nat := 0): (k: int)
    requires i <= |hs|
    ensures k == -1 || (i <= k < |hs| && !hs[k].inUse)
    ensures k == -1 ==> forall j :: i <= j < |hs| ==> hs[j].inUse
    decreases |hs| - i
  {
    if i == |hs| then -1 else if !hs[i].inUse then i else FreeHandle(hs, i + 1)
  }

  function Released(s: State, k: nat): (t: State)
    requires k < |s.objects|
  {
    if !s.objects[k].inUse then s else s.(objects := s.objects[k := FREE], frames := s.frames - 1)
  }

  /** The handle pool's part of op_open: a handle on slot k, or EMFILE and, if nobody has the
      object open, the object itself gone. */
  function Attach(s: State, k: nat): (r: (int, State))
    requires Shaped(s) && k < OBJECTS
  {
    var h := FreeHandle(s.handles);
    if h == -1 then
      (-24, if && s.objects[k].opens == 0 && !s.objects[k].unlinked
               && forall i :: 0 <= i < HANDLES ==> !Refers(s.handles[i], k)
            then Released(s, k) else s)
    else
      (h, s.(handles := s.handles[h := Handle(true, k)],
             objects := s.objects[k := s.objects[k].(opens := s.objects[k].opens + 1)]))
  }

  predicate Refers(h: Handle, k: int) {
    h.inUse && h.slot == k
  }

  function Created(s: State, k: nat, name: string): (t: State)
    requires k < |s.objects|
  {
    s.(objects := s.objects[k := Object(true, false, 0, name, Zeros(PAGE))], frames := s.frames + 1)
  }

  /** op_open; the status is the handle number or a negative error.  `memory` says whether a
      frame can be had. */
  function Open(s: State, path: string, creat: bool, excl: bool, memory: bool): (r: (int, State))
    requires Shaped(s)
  {
    var name := Normalise(path);
    if name == "" then (-22, s)
    else if |name| > NAME_MAX then (-36, s)
    else
      var k := FindName(s.objects, name);
      if k >= 0 && creat && excl then (-17, s)
      else if k >= 0 then Attach(s, k)
      else if !creat then (-2, s)
      else
        var n := FreeObject(s.objects);
        if n < 0 then (-28, s)
        else if !memory then (-12, s.(objects := s.objects[n := FREE]))
        else Attach(Created(s, n, name), n)
  }

  function Close(s: State, h: nat): (t: State)
    requires Shaped(s)
  {
    if h >= HANDLES || !s.handles[h].inUse then s
    else
      var k := s.handles[h].slot;
      var t := s.(handles := s.handles[h := CLOSED]);
      if k < 0 || k >= OBJECTS || !s.objects[k].inUse then t
      else
        var o := s.objects[k].(opens := if s.objects[k].opens > 0 then s.objects[k].opens - 1 else 0);
        var u := t.(objects := t.objects[k := o]);
        if o.opens == 0 && o.unlinked then Released(u, k) else u
  }

  /** The object a handle is on, or -1. */
  function On(s: State, h: nat): (k: int)
    requires Shaped(s)
    ensures k == -1 || (0 <= k < OBJECTS && s.objects[k].inUse && h < HANDLES && Refers(s.handles[h], k))
  {
    if h >= HANDLES || !s.handles[h].inUse || s.handles[h].slot < 0 || s.handles[h].slot >= OBJECTS
       || !s.objects[s.handles[h].slot].inUse then -1 else s.handles[h].slot
  }

  function Read(s: State, h: nat, count: nat, cursor: int): (r: (int, seq<Byte>))
    requires Shaped(s)
  {
    var k := On(s, h);
    if k == -1 then (-9, [])
    else if cursor < 0 then (-22, [])
    else if cursor >= |s.objects[k].page| then (0, [])
    else
      var n := Min(count, |s.objects[k].page| - cursor);
      (n, s.objects[k].page[cursor..cursor + n])
  }

  function Write(s: State, h: nat, data: seq<Byte>, cursor: int): (r: (int, State))
    requires Shaped(s)
  {
    var k := On(s, h);
    if k == -1 then (-9, s)
    else if cursor < 0 then (-22, s)
    else if cursor >= |s.objects[k].page| then (-27, s)
    else
      var n := Min(|data|, |s.objects[k].page| - cursor);
      (n, s.(objects := s.objects[k := s.objects[k].(page := Splice(s.objects[k].page, cursor, data[..n]))]))
  }

  function Unlink(s: State, path: string): (r: (int, State))
    requires Shaped(s)
  {
    var name := Normalise(path);
    if name == "" then (-22, s)
    else
      var k := FindName(s.objects, name);
      if k < 0 then (-2, s)
      else
        var t := s.(objects := s.objects[k := s.objects[k].(unlinked := true)]);
        (0, if t.objects[k].opens == 0 then Released(t, k) else t)
  }

  datatype Op =
    | OpOpen(path: string, creat: bool, excl: bool, memory: bool)
    | OpClose(h: nat)
    | OpRead(rh: nat, count: nat, rcursor: int)
    | OpWrite(wh: nat, data: seq<Byte>, wcursor: int)
    | OpUnlink(name: string)

  function Step(s: State, op: Op): (t: State)
    requires Shaped(s)
    ensures Shaped(t)
  {
    match op
    case OpOpen(path, creat, excl, memory) => Open(s, path, creat, excl, memory).1
    case OpClose(h) => Close(s, h)
    case OpRead(_, _, _) => s
    case OpWrite(h, data, cursor) => Write(s, h, data, cursor).1
    case OpUnlink(name) => Unlink(s, name).1
  }

  function Run(s: State, ops: seq<Op>): (t: State)
    requires Shaped(s)
    ensures Shaped(t)
    decreases |ops|
  {
    if ops == [] then s else Run(Step(s, ops[0]), ops[1..])
  }

  // ---- counting ---------------------------------------------------------------------

  function One(b: bool): (n: nat) {
    if b then 1 else 0
  }

  /** Live handles on slot k. */
  function Holders(hs: seq<Handle>, k: int): (n: nat) {
    if hs == [] then 0 else Holders(hs[..|hs| - 1], k) + One(Refers(hs[|hs| - 1], k))
  }

  function InUse(os: seq<Object>): (n: nat) {
    if os == [] then 0 else InUse(os[..|os| - 1]) + One(os[|os| - 1].inUse)
  }

  lemma {:induction false} HoldersUpdate(hs: seq<Handle>, i: nat, h: Handle, k: int)
    requires i < |hs|
    ensures Holders(hs[i := h], k) == Holders(hs, k) - One(Refers(hs[i], k)) + One(Refers(h, k))
    decreases |hs|
  {
    var n := |hs| - 1;
    if i == n {
      assert hs[i := h][..n] == hs[..n];
    } else {
      assert hs[i := h][..n] == hs[..n][i := h];
      HoldersUpdate(hs[..n], i, h, k);
    }
  }

  lemma {:induction false} InUseUpdate(os: seq<Object>, i: nat, o: Object)
    requires i < |os|
    ensures InUse(os[i := o]) == InUse(os) - One(os[i].inUse) + One(o.inUse)
    decreases |os|
  {
    var n := |os| - 1;
    if i == n {
      assert os[i := o][..n] == os[..n];
    } else {
      assert os[i := o][..n] == os[..n][i := o];
      InUseUpdate(os[..n], i, o);
    }
  }

  lemma {:induction false} NoHolders(hs: seq<Handle>, k: int)
    ensures Holders(hs, k) == 0 <==> forall i :: 0 <= i < |hs| ==> !Refers(hs[i], k)
    decreases |hs|
  {
    if hs != [] {
      NoHolders(hs[..|hs| - 1], k);
      assert forall i :: 0 <= i < |hs| - 1 ==> hs[..|hs| - 1][i] == hs[i];
    }
  }

  // ---- the invariant ----------------------------------------------------------------

  predicate ObjectOk(o: Object, holders: nat) {
    if !o.inUse then o == FREE && holders == 0
    else o.opens == holders && (o.unlinked ==> o.opens > 0) && |o.page| == PAGE
  }

  /** Counts are exact, an unlinked object exists only while open, linked names are unique, and
      the frames held are those of the objects in use. */
  predicate Inv(s: State) {
    && Shaped(s)
    && (forall k :: 0 <= k < OBJECTS ==> ObjectOk(s.objects[k], Holders(s.handles, k)))
    && (forall h :: 0 <= h < HANDLES && s.handles[h].inUse ==> 0 <= s.handles[h].slot < OBJECTS)
    && (forall j, k :: 0 <= j < k < OBJECTS && Linked(s.objects[j]) && Linked(s.objects[k]) ==>
          s.objects[j].name != s.objects[k].name)
    && s.frames == InUse(s.objects)
  }

  /** A live handle is on an object in use. */
  lemma HeldInUse(s: State, h: nat)
    requires Inv(s) && h < HANDLES && s.handles[h].inUse
    ensures On(s, h) == s.handles[h].slot && s.objects[On(s, h)].opens > 0
  {
    NoHolders(s.handles, s.handles[h].slot);
    assert Refers(s.handles[h], s.handles[h].slot);
  }

  lemma {:induction false} EmptyCounts(n: nat, k: int)
    ensures Holders(seq(n, _ => CLOSED), k) == 0 && InUse(seq(n, _ => FREE)) == 0
    decreases n
  {
    if n > 0 {
      assert seq(n, _ => CLOSED)[..n - 1] == seq(n - 1, _ => CLOSED);
      assert seq(n, _ => FREE)[..n - 1] == seq(n - 1, _ => FREE);
      EmptyCounts(n - 1, k);
    }
  }

  lemma MountedInv()
    ensures Inv(Mounted())
  {
    forall k | 0 <= k < OBJECTS
      ensures Holders(Mounted().handles, k) == 0
    {
      EmptyCounts(HANDLES, k);
    }
    EmptyCounts(OBJECTS, 0);
  }

  /** Replacing an object nobody holds, by a free one or by one with a new name. */
  lemma ReplaceUnheld(s: State, k: nat, o: Object)
    requires Inv(s) && k < OBJECTS && Holders(s.handles, k) == 0
    requires o == FREE || (o.inUse && !o.unlinked && o.opens == 0 && |o.page| == PAGE && FindName(s.objects, o.name) == -1)
    ensures Inv(s.(objects := s.objects[k := o], frames := s.frames - One(s.objects[k].inUse) + One(o.inUse)))
  {
    InUseUpdate(s.objects, k, o);
  }

  lemma AttachInv(s: State, k: nat)
    requires Inv(s) && k < OBJECTS && Linked(s.objects[k])
    ensures Inv(Attach(s, k).1)
  {
    hide Holders, InUse, FreeHandle;
    var h := FreeHandle(s.handles);
    if h == -1 {
      NoHolders(s.handles, k);
      if s.objects[k].opens == 0 {
        ReplaceUnheld(s, k, FREE);
      }
    } else {
      forall j | 0 <= j < OBJECTS
        ensures Holders(s.handles[h := Handle(true, k)], j) == Holders(s.handles, j) + One(j == k)
      {
        HoldersUpdate(s.handles, h, Handle(true, k), j);
      }
      InUseUpdate(s.objects, k, s.objects[k].(opens := s.objects[k].opens + 1));
    }
  }

  lemma OpenInv(s: State, path: string, creat: bool, excl: bool, memory: bool)
    requires Inv(s)
    ensures Inv(Open(s, path, creat, excl, memory).1)
  {
    hide Attach;
    var name := Normalise(path);
    var k := FindName(s.objects, name);
    if k >= 0 {
      AttachInv(s, k);
    } else {
      var n := FreeObject(s.objects);
      if n >= 0 {
        assert s.objects[n := FREE] == s.objects;
        ReplaceUnheld(s, n, Object(true, false, 0, name, Zeros(PAGE)));
        AttachInv(Created(s, n, name), n);
      }
    }
  }

  /** Dropping a handle and one count, whether or not the object goes with them. */
  lemma DropInv(s: State, h: nat, k: nat, o: Object)
    requires Inv(s) && h < HANDLES && k < OBJECTS && Refers(s.handles[h], k) && s.objects[k].inUse && s.objects[k].opens > 0
    requires var n := s.objects[k].opens - 1;
             if o == FREE then n == 0 && s.objects[k].unlinked else o == s.objects[k].(opens := n) && (o.unlinked ==> n > 0)
    ensures Inv(State(s.objects[k := o], s.handles[h := CLOSED], s.frames - One(s.objects[k].inUse) + One(o.inUse)))
  {
    hide Holders, InUse;
    forall j | 0 <= j < OBJECTS
      ensures Holders(s.handles[h := CLOSED], j) == Holders(s.handles, j) - One(j == k)
    {
      HoldersUpdate(s.handles, h, CLOSED, j);
    }
    InUseUpdate(s.objects, k, o);
  }

  lemma CloseInv(s: State, h: nat)
    requires Inv(s)
    ensures Inv(Close(s, h))
  {
    hide Holders, InUse;
    if h < HANDLES && s.handles[h].inUse {
      HeldInUse(s, h);
      var k := s.handles[h].slot;
      var n := s.objects[k].opens - 1;
      var o := if n == 0 && s.objects[k].unlinked then FREE else s.objects[k].(opens := n);
      DropInv(s, h, k, o);
      assert s.objects[k := s.objects[k].(opens := n)][k := FREE] == s.objects[k := FREE];
    }
  }

  lemma WriteInv(s: State, h: nat, data: seq<Byte>, cursor: int)
    requires Inv(s)
    ensures Inv(Write(s, h, data, cursor).1)
  {
    var k := On(s, h);
    if k != -1 && 0 <= cursor < PAGE {
      var t := Write(s, h, data, cursor).1;
      InUseUpdate(s.objects, k, t.objects[k]);
    }
  }

  lemma UnlinkInv(s: State, path: string)
    requires Inv(s)
    ensures Inv(Unlink(s, path).1)
  {
    hide Holders, InUse, Normalise;
    var k := FindName(s.objects, Normalise(path));
    if k >= 0 {
      var o := s.objects[k].(unlinked := true);
      InUseUpdate(s.objects, k, o);
      InUseUpdate(s.objects[k := o], k, FREE);
      assert s.objects[k := o][k := FREE] == s.objects[k := FREE];
    }
  }

  lemma StepInv(s: State, op: Op)
    requires Inv(s)
    ensures Inv(Step(s, op))
  {
    hide Inv, Open, Close, Write, Unlink;
    match op {
      case OpOpen(path, creat, excl, memory) => OpenInv(s, path, creat, excl, memory);
      case OpClose(h) => CloseInv(s, h);
      case OpRead(_, _, _) =>
      case OpWrite(h, data, cursor) => WriteInv(s, h, data, cursor);
      case OpUnlink(name) => UnlinkInv(s, name);
    }
  }

  lemma {:induction false} RunInv(s: State, ops: seq<Op>)
    requires Inv(s)
    ensures Inv(Run(s, ops))
    decreases |ops|
  {
    if ops != [] {
      StepInv(s, ops[0]);
      RunInv(Step(s, ops[0]), ops[1..]);
    }
  }

  // ---- data held through a handle ---------------------------------------------------

  predicate Live(s: State, h: nat)
    requires Shaped(s)
  {
    h < HANDLES && s.handles[h].inUse
  }

  /** What the operation does to the page of object k: only writes through a handle on k count. */
  function Through(s: State, op: Op, k: int, page: seq<Byte>): (p: seq<Byte>)
    requires Shaped(s) && |page| == PAGE
    ensures |p| == PAGE
  {
    if op.OpWrite? && On(s, op.wh) == k && 0 <= op.wcursor < PAGE
    then Splice(page, op.wcursor, op.data[..Min(|op.data|, PAGE - op.wcursor)]) else page
  }

  /** Object k is in use after the operation, with this page. */
  predicate Keeps(s: State, t: State, op: Op, k: nat)
    requires Shaped(s) && Shaped(t) && k < OBJECTS && |s.objects[k].page| == PAGE
  {
    t.objects[k].inUse && t.objects[k].page == Through(s, op, k, s.objects[k].page)
  }

  lemma OpenKeeps(s: State, op: Op, k: nat)
    requires Inv(s) && op.OpOpen? && k < OBJECTS && s.objects[k].inUse && s.objects[k].opens > 0
    ensures Keeps(s, Step(s, op), op, k)
  {
  }

  lemma CloseKeeps(s: State, op: Op, h: nat)
    requires Inv(s) && op.OpClose? && Live(s, h) && op.h != h
    ensures On(s, h) != -1 && Keeps(s, Step(s, op), op, On(s, h))
  {
    HeldInUse(s, h);
    var k := On(s, h);
    if Live(s, op.h) {
      HeldInUse(s, op.h);
      HoldersUpdate(s.handles, op.h, CLOSED, k);
      NoHolders(s.handles[op.h := CLOSED], k);
      assert Refers(s.handles[op.h := CLOSED][h], k);
    }
  }

  /** A handle that is not closed stays on its object, whose page changes only by writes
      through handles on that object: unlinking, re-creating the name, and every failure
      leave it alone. */
  lemma HeldStays(s: State, op: Op, h: nat)
    requires Inv(s) && Live(s, h) && op != OpClose(h)
    ensures var t := Step(s, op); Live(t, h) && On(t, h) == On(s, h) && On(s, h) != -1 && Keeps(s, t, op, On(s, h))
  {
    HeldInUse(s, h);
    if op.OpOpen? {
      OpenKeeps(s, op, On(s, h));
    } else if op.OpClose? {
      CloseKeeps(s, op, h);
    }
  }

  function Folded(s: State, ops: seq<Op>, k: int, page: seq<Byte>): (p: seq<Byte>)
    requires Shaped(s) && |page| == PAGE
    ensures |p| == PAGE
    decreases |ops|
  {
    if ops == [] then page else Folded(Step(s, ops[0]), ops[1..], k, Through(s, ops[0], k, page))
  }

  /** The count and the bytes of a range of a page, as far as the page goes. */
  function Cut(page: seq<Byte>, cursor: nat, count: nat): (r: (int, seq<Byte>))
    requires |page| == PAGE
  {
    if cursor >= 4096 then (0, [])
    else if cursor + count <= 4096 then (count, page[cursor..cursor + count])
    else (4096 - cursor, page[cursor..])
  }

  lemma HeldPage(s: State, h: nat)
    requires Inv(s) && Live(s, h)
    ensures Shaped(s) && On(s, h) != -1 && |s.objects[On(s, h)].page| == PAGE
  {
    HeldInUse(s, h);
  }

  lemma ReadIsCut(s: State, h: nat)
    requires Shaped(s) && On(s, h) != -1 && |s.objects[On(s, h)].page| == PAGE
    ensures forall count: nat, cursor: nat :: Read(s, h, count, cursor) == Cut(s.objects[On(s, h)].page, cursor, count)
  {
    var page := s.objects[On(s, h)].page;
    assert forall cursor: nat :: cursor <= PAGE ==> page[cursor..] == page[cursor..PAGE];
  }

  /** Over a whole run without a close of h, the page read through h is the one it started
      with under exactly the writes made through handles on its object. */
  lemma {:induction false} HeldThroughRun(s: State, ops: seq<Op>, h: nat)
    requires Inv(s) && Live(s, h) && forall i :: 0 <= i < |ops| ==> ops[i] != OpClose(h)
    ensures On(s, h) != -1 && |s.objects[On(s, h)].page| == PAGE
    ensures var t := Run(s, ops);
            && Live(t, h) && On(t, h) == On(s, h)
            && t.objects[On(t, h)].page == Folded(s, ops, On(s, h), s.objects[On(s, h)].page)
            && forall count: nat, cursor: nat ::
                 Read(t, h, count, cursor) == Cut(Folded(s, ops, On(s, h), s.objects[On(s, h)].page), cursor, count)
    decreases |ops|
  {
    hide Step, Inv, Cut;
    HeldPage(s, h);
    if ops == [] {
      ReadIsCut(s, h);
    } else {
      var t := Step(s, ops[0]);
      HeldStays(s, ops[0], h);
      StepInv(s, ops[0]);
      HeldThroughRun(t, ops[1..], h);
    }
  }

  /** From the mount on: in every run the counts are right, and a handle that a run opened reads
      through any further run without its close exactly the writes made on its object. */
  lemma HeldSinceMount(before: seq<Op>, ops: seq<Op>, h: nat)
    requires Live(Run(Mounted(), before), h) && forall i :: 0 <= i < |ops| ==> ops[i] != OpClose(h)
    ensures var s := Run(Mounted(), before);
            var t := Run(s, ops);
            && Inv(t) && Live(t, h) && On(t, h) == On(s, h) != -1 && |s.objects[On(s, h)].page| == PAGE
            && forall count: nat, cursor: nat ::
                 Read(t, h, count, cursor) == Cut(Folded(s, ops, On(s, h), s.objects[On(s, h)].page), cursor, count)
  {
    hide Inv, Run, Folded;
    MountedInv();
    RunInv(Mounted(), before);
    RunInv(Run(Mounted(), before), ops);
    HeldThroughRun(Run(Mounted(), before), ops, h);
  }

  /** Opening a name gives a new handle on the object of that name: the one there was, untouched,
      or a new one. */
  lemma OpensByName(s: State, path: string, creat: bool, excl: bool, memory: bool)
    requires Inv(s)
    ensures var (g, t) := Open(s, path, creat, excl, memory);
            g >= 0 ==>
              && g < HANDLES && !s.handles[g].inUse
              && On(t, g) != -1 && Linked(t.objects[On(t, g)]) && t.objects[On(t, g)].name == Normalise(path)
              && forall k :: 0 <= k < OBJECTS && Linked(s.objects[k]) && s.objects[k].name == Normalise(path) ==>
                   On(t, g) == k && t.objects[k].page == s.objects[k].page
  {
    hide Holders, InUse, Normalise;
    forall k | 0 <= k < OBJECTS && Linked(s.objects[k])
      ensures FindName(s.objects, s.objects[k].name) == k
    {
      FindLinked(s, k);
    }
  }

  predicate NameTaken(s: State, name: string) {
    exists k :: 0 <= k < |s.objects| && Linked(s.objects[k]) && s.objects[k].name == name
  }

  /** Every way an open ends; a refusal leaves everything as it was, but for the object that
      NameLostIff is about. */
  lemma OpenOutcome(s: State, path: string, creat: bool, excl: bool, memory: bool)
    requires Inv(s)
    ensures var (rc, t) := Open(s, path, creat, excl, memory);
            var n := Normalise(path);
            var there := NameTaken(s, n);
            if n == "" then rc == -22 && t == s
            else if |n| > 63 then rc == -36 && t == s
            else if there && creat && excl then rc == -17 && t == s
            else if !there && !creat then rc == -2 && t == s
            else if !there && |s.objects| == 8 && forall k :: 0 <= k < 8 ==> s.objects[k].inUse then rc == -28 && t == s
            else if !there && !memory then rc == -12 && t == s
            else if |s.handles| == 16 && forall h :: 0 <= h < 16 ==> s.handles[h].inUse then
              rc == -24 && (there || t == s)
            else rc >= 0 && t.frames == s.frames + if there then 0 else 1
  {
    hide Holders, InUse, Normalise;
    var k := FreeObject(s.objects);
    if k != -1 {
      NoHolders(s.handles, k);
      assert s.objects[k := FREE] == s.objects;
      assert s.objects[k := Object(true, false, 0, Normalise(path), Zeros(PAGE))][k := FREE] == s.objects;
    }
  }

  /** A close ends the handle, counts its object down and, if that was the last handle on an
      unlinked object, gives it back; nothing else changes, and closing again changes nothing. */
  lemma CloseOutcome(s: State, h: nat)
    requires Inv(s) && h < HANDLES
    ensures var t, k := Close(s, h), On(s, h);
            if !Live(s, h) then t == s
            else
              && !Live(t, h) && (forall i :: 0 <= i < HANDLES && i != h ==> t.handles[i] == s.handles[i])
              && (forall i :: 0 <= i < OBJECTS && i != k ==> t.objects[i] == s.objects[i])
              && k != -1 && s.objects[k].opens > 0
              && (if s.objects[k].opens == 1 && s.objects[k].unlinked then
                    t.objects[k] == FREE && t.frames == s.frames - 1
                  else t.objects[k] == s.objects[k].(opens := s.objects[k].opens - 1) && t.frames == s.frames)
  {
    hide Holders, InUse;
    if Live(s, h) {
      HeldInUse(s, h);
    }
  }

  /** An unlink takes the name away at once, and the object too if nobody has it open. */
  lemma UnlinkOutcome(s: State, path: string)
    requires Inv(s)
    ensures var (rc, t) := Unlink(s, path);
            var n := Normalise(path);
            if n == "" then rc == -22 && t == s
            else if !NameTaken(s, n) then rc == -2 && t == s
            else rc == 0 && !NameTaken(t, n) && t.handles == s.handles
                 && forall k :: 0 <= k < OBJECTS && !(Linked(s.objects[k]) && s.objects[k].name == n) ==>
                      t.objects[k] == s.objects[k]
  {
    hide Holders, InUse, Normalise;
    if Normalise(path) != "" {
      UniqueGone(s, path);
    }
  }

  /** Reads and writes that do nothing. */
  lemma TransferErrors(s: State, h: nat, data: seq<Byte>, count: nat, cursor: int)
    requires Inv(s)
    ensures h >= HANDLES || !s.handles[h].inUse ==>
              Read(s, h, count, cursor) == (-9, []) && Write(s, h, data, cursor) == (-9, s)
    ensures h < HANDLES && s.handles[h].inUse && cursor < 0 ==>
              Read(s, h, count, cursor) == (-22, []) && Write(s, h, data, cursor) == (-22, s)
    ensures h < HANDLES && s.handles[h].inUse && cursor >= 4096 ==>
              Read(s, h, count, cursor) == (0, []) && Write(s, h, data, cursor) == (-27, s)
  {
    hide Holders, InUse;
    if h < HANDLES && s.handles[h].inUse {
      HeldInUse(s, h);
    }
  }

  /** The memory is shared: what is written through one handle on an object is read back through
      every handle on it, and through no other. */
  lemma WriteIsShared(s: State, h: nat, data: seq<Byte>, cursor: nat)
    requires Inv(s) && Live(s, h) && cursor < PAGE
    ensures var (n, t) := Write(s, h, data, cursor);
            && n == (if cursor + |data| <= 4096 then |data| else 4096 - cursor)
            && (forall g :: Live(s, g) && On(s, g) == On(s, h) ==> Read(t, g, n, cursor) == (n, data[..n]))
            && (forall g, count: nat, at: int :: On(s, g) != On(s, h) ==>
                  Read(t, g, count, at) == Read(s, g, count, at))
  {
    hide Holders, InUse;
    HeldInUse(s, h);
    var (n, t) := Write(s, h, data, cursor);
    var page := t.objects[On(s, h)].page;
    assert page[cursor..cursor + n] == data[..n];
  }

  /** A name that is not linked is created zeroed, in a slot no live handle is on. */
  lemma CreatedIsZero(s: State, path: string, excl: bool)
    requires Inv(s) && FindName(s.objects, Normalise(path)) == -1
    ensures var (g, t) := Open(s, path, true, excl, true);
            g >= 0 ==>
              && On(t, g) != -1 && t.objects[On(t, g)].page == Zeros(PAGE)
              && forall h :: Live(s, h) ==> On(s, h) != On(t, g)
  {
    forall h | Live(s, h)
      ensures On(s, h) != -1
    {
      HeldInUse(s, h);
    }
  }

  /** Data stays readable through old handles after the name is unlinked and made again, and
      the new object starts empty beside it. */
  lemma UnlinkAndRecreate(s: State, path: string, h: nat)
    requires Inv(s) && Live(s, h)
    requires On(s, h) == FindName(s.objects, Normalise(path)) && Normalise(path) != "" && |Normalise(path)| <= NAME_MAX
    ensures var t := Unlink(s, path).1;
            var (g, u) := Open(t, path, true, false, true);
            g >= 0 ==>
              && On(u, h) == On(s, h) != -1 && u.objects[On(u, h)].page == s.objects[On(s, h)].page
              && On(u, g) != -1 && On(u, g) != On(u, h) && u.objects[On(u, g)].page == Zeros(PAGE)
  {
    var t := Unlink(s, path).1;
    StepInv(s, OpUnlink(path));
    HeldStays(s, OpUnlink(path), h);
    UniqueGone(s, path);
    CreatedIsZero(t, path, false);
    HeldStays(t, OpOpen(path, true, false, true), h);
  }

  lemma UniqueGone(s: State, path: string)
    requires Inv(s) && Normalise(path) != ""
    ensures FindName(Unlink(s, path).1.objects, Normalise(path)) == -1
  {
    var k := FindName(s.objects, Normalise(path));
    if k >= 0 {
      var t := Unlink(s, path).1;
      assert forall j :: 0 <= j < OBJECTS && j != k ==> t.objects[j] == s.objects[j];
      forall j | 0 <= j < OBJECTS && j != k && Linked(s.objects[j])
        ensures s.objects[j].name != s.objects[k].name
      {
        assert if j < k then s.objects[j].name != s.objects[k].name else s.objects[k].name != s.objects[j].name;
      }
    }
  }

  // ---- when a name is lost ----------------------------------------------------------

  predicate PoolFull(s: State)
    requires Shaped(s)
  {
    FreeHandle(s.handles) == -1
  }

  /** The open reaches the handle pool for an existing object. */
  predicate Reopens(s: State, op: Op, k: nat)
    requires Shaped(s) && k < OBJECTS
  {
    && op.OpOpen? && Normalise(op.path) == s.objects[k].name != "" && |s.objects[k].name| <= NAME_MAX
    && !(op.creat && op.excl)
  }

  lemma FindLinked(s: State, k: nat)
    requires Inv(s) && k < OBJECTS && Linked(s.objects[k])
    ensures FindName(s.objects, s.objects[k].name) == k
  {
    var j := FindName(s.objects, s.objects[k].name);
    forall i | 0 <= i < OBJECTS && i != k && Linked(s.objects[i])
      ensures s.objects[i].name != s.objects[k].name
    {
      assert if i < k then s.objects[i].name != s.objects[k].name else s.objects[k].name != s.objects[i].name;
    }
  }

  /** A linked object stops being linked exactly when its name is unlinked, or when it is
      opened by name while the handle pool is full and nobody has it open. */
  lemma NameLostIff(s: State, op: Op, k: nat)
    requires Inv(s) && k < OBJECTS && Linked(s.objects[k])
    ensures !Linked(Step(s, op).objects[k]) <==>
            || (op.OpUnlink? && Normalise(op.name) == s.objects[k].name != "")
            || (Reopens(s, op, k) && PoolFull(s) && s.objects[k].opens == 0)
  {
    hide Holders, InUse, Normalise, Splice;
    FindLinked(s, k);
    NoHolders(s.handles, k);
    match op {
      case OpOpen(path, creat, excl, memory) =>
        var j := FindName(s.objects, Normalise(path));
        if j >= 0 && j != k {
          NoHolders(s.handles, j);
        }
      case OpClose(h) =>
      case OpRead(_, _, _) =>
      case OpWrite(_, _, _) =>
      case OpUnlink(name) =>
    }
  }
}

/** The backend's operations on its two static pools. */
module ShmBackend {
  import opened Machine
  import opened Shm

  class Backend {
    var objects: seq<Object>
    var handles: seq<Handle>
    var frames: int

    constructor ()
      ensures Current() == Mounted()
    {
      objects := seq(OBJECTS, _ => FREE);
      handles := seq(HANDLES, _ => CLOSED);
      frames := 0;
    }

    function Current(): (s: State)
      reads this
    {
      State(objects, handles, frames)
    }

    method SearchName(name: string) returns (k: int)
      ensures k == FindName(objects, name)
    {
      var i := 0;
      while i < |objects|
        invariant 0 <= i <= |objects|
        invariant FindName(objects, name) == FindName(objects, name, i)
      {
        if objects[i].inUse && !objects[i].unlinked && objects[i].name == name {
          return i;
        }
        i := i + 1;
      }
      k := -1;
    }

    method SearchFreeObject() returns (k: int)
      ensures k == FreeObject(objects)
    {
      var i := 0;
      while i < |objects|
        invariant 0 <= i <= |objects|
        invariant FreeObject(objects) == FreeObject(objects, i)
      {
        if !objects[i].inUse {
          return i;
        }
        i := i + 1;
      }
      k := -1;
    }

    method SearchFreeHandle() returns (h: int)
      ensures h == FreeHandle(handles)
    {
      var i := 0;
      while i < |handles|
        invariant 0 <= i <= |handles|
        invariant FreeHandle(handles) == FreeHandle(handles, i)
      {
        if !handles[i].inUse {
          return i;
        }
        i := i + 1;
      }
      h := -1;
    }

    /** The walk of the handle pool for a handle on slot k. */
    method Unreferenced(k: nat) returns (none: bool)
      ensures none == forall i :: 0 <= i < |handles| ==> !Refers(handles[i], k)
    {
      var i := 0;
      while i < |handles|
        invariant 0 <= i <= |handles|
        invariant forall j :: 0 <= j < i ==> !Refers(handles[j], k)
      {
        if handles[i].inUse && handles[i].slot == k {
          assert Refers(handles[i], k);
          return false;
        }
        i := i + 1;
      }
      none := true;
    }

    method Release(k: nat)
      requires k < |objects|
      modifies this
      ensures Current() == Released(old(Current()), k)
    {
      if objects[k].inUse {
        objects := objects[k := FREE];
        frames := frames - 1;
      }
    }

    method ReadObject(h: nat, count: nat, cursor: int) returns (n: int, out: seq<Byte>)
      requires Shaped(Current())
      ensures (n, out) == Read(Current(), h, count, cursor)
    {
      if h >= HANDLES || !handles[h].inUse {
        return -9, [];
      }
      var slot := handles[h].slot;
      if slot < 0 || slot >= OBJECTS || !objects[slot].inUse {
        return -9, [];
      }
      if cursor < 0 {
        return -22, [];
      }
      if cursor >= |objects[slot].page| {
        return 0, [];
      }
      n := Min(count, |objects[slot].page| - cursor);
      out := objects[slot].page[cursor..cursor + n];
    }

    /** The second half of op_open. */
    method Hand(k: nat) returns (rc: int)
      requires Shaped(Current()) && k < OBJECTS
      modifies this
      ensures (rc, Current()) == Attach(old(Current()), k)
    {
      var h := SearchFreeHandle();
      if h < 0 {
        if objects[k].opens == 0 && !objects[k].unlinked {
          var none := Unreferenced(k);
          if none {
            Release(k);
          }
        }
        return -24;
      }
      handles := handles[h := Handle(true, k)];
      objects := objects[k := objects[k].(opens := objects[k].opens + 1)];
      rc := h;
    }

    method OpenObject(path: string, creat: bool, excl: bool, memory: bool) returns (rc: int)
      requires Shaped(Current())
      modifies this
      ensures (rc, Current()) == Open(old(Current()), path, creat, excl, memory)
    {
      hide Attach, FindName, FreeObject;
      var name := Normalise(path);
      if name == "" {
        return -22;
      }
      if |name| > NAME_MAX {
        return -36;
      }
      var k := SearchName(name);
      if k >= 0 && creat && excl {
        return -17;
      }
      if k < 0 && !creat {
        return -2;
      }
      if k < 0 {
        k := SearchFreeObject();
        if k < 0 {
          return -28;
        }
        objects := objects[k := FREE];
        if !memory {
          return -12;
        }
        objects := objects[k := Object(true, false, 0, name, Zeros(PAGE))];
        frames := frames + 1;
        assert objects == old(objects)[k := Object(true, false, 0, name, Zeros(PAGE))];
      }
      rc := Hand(k);
    }

    method CloseHandle(h: nat)
      requires Shaped(Current())
      modifies this
      ensures Current() == Close(old(Current()), h)
    {
      if h >= HANDLES || !handles[h].inUse {
        return;
      }
      var k := handles[h].slot;
      handles := handles[h := CLOSED];
      if k < 0 || k >= OBJECTS || !objects[k].inUse {
        return;
      }
      if objects[k].opens > 0 {
        objects := objects[k := objects[k].(opens := objects[k].opens - 1)];
      } else {
        assert objects == objects[k := objects[k].(opens := 0)];
      }
      if objects[k].opens == 0 && objects[k].unlinked {
        Release(k);
      }
    }

    method WriteObject(h: nat, data: seq<Byte>, cursor: int) returns (rc: int)
      requires Shaped(Current())
      modifies this
      ensures (rc, Current()) == Write(old(Current()), h, data, cursor)
    {
      var k := On(Current(), h);
      if k < 0 {
        return -9;
      }
      if cursor < 0 {
        return -22;
      }
      if cursor >= |objects[k].page| {
        return -27;
      }
      var n := Min(|data|, |objects[k].page| - cursor);
      objects := objects[k := objects[k].(page := Splice(objects[k].page, cursor, data[..n]))];
      rc := n;
    }

    method UnlinkName(path: string) returns (rc: int)
      requires Shaped(Current())
      modifies this
      ensures (rc, Current()) == Unlink(old(Current()), path)
    {
      var name := Normalise(path);
      if name == "" {
        return -22;
      }
      var k := SearchName(name);
      if k < 0 {
        return -2;
      }
      objects := objects[k := objects[k].(unlinked := true)];
      if objects[k].opens == 0 {
        Release(k);
      }
      rc := 0;
    }
  }
}
