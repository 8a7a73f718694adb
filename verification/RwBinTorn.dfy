/**
 An index write of the binary store that stops half-way (src/lucas/backends_rwbinstore.c): the
 1304 bytes go out in three sector transfers, and what is read back is the new index up to a
 sector boundary and the old one behind it.
 */
module RwBinTorn {
  import opened Machine
  import opened BlockDevice
  import opened RwBinFormat
  import opened RwBinStore
  import LE = LittleEndian

  const PREFIX: nat := 24

  /** Where an entry starts in the index. */
  function EntryAt(i: nat): (p: nat) {
    PREFIX + ENTRY * i
  }

  // ---- the bytes --------------------------------------------------------------------

  /** The write stops before the first, the second or the third sector, or not at all. */
  lemma StopsAtSector(budget: nat)
    ensures Reached(OFFSET, HEADER, budget) in {0, 512, 1024, HEADER}
  {
    assert Piece(OFFSET, HEADER) == 512;
    assert Piece(OFFSET + 512, HEADER - 512) == 512;
    assert Piece(OFFSET + 1024, HEADER - 1024) == 280;
    assert Piece(OFFSET + HEADER, 0) == 0;
    ReachedUnfolds(OFFSET, HEADER, budget);
    if budget >= 1 {
      ReachedUnfolds(OFFSET + 512, HEADER - 512, budget - 1);
      if budget >= 2 {
        ReachedUnfolds(OFFSET + 1024, HEADER - 1024, budget - 2);
        if budget >= 4 {
          ReachedUnfolds(OFFSET + HEADER, 0, budget - 4);
        }
      }
    }
  }

  /** New bytes up to n, old bytes from there on. */
  function Mixed(new': seq<Byte>, old': seq<Byte>, n: nat): (b: seq<Byte>)
    requires n <= |new'| == |old'|
    ensures |b| == |new'|
  {
    new'[..n] + old'[n..]
  }

  lemma IndexIsMixed(disk: seq<Byte>, h: Header, budget: nat)
    requires |disk| == CAPACITY && Sized(h)
    ensures var w, n := Written(disk, OFFSET, EncodeHeader(h), budget), Reached(OFFSET, HEADER, budget);
            w.0 == (n == HEADER) && IndexBytes(w.1) == Mixed(EncodeHeader(h), IndexBytes(disk), n)
  {
    hide EncodeHeader, Reached;
    WrittenIs(disk, OFFSET, EncodeHeader(h), budget);
    var n, w := Reached(OFFSET, HEADER, budget), Written(disk, OFFSET, EncodeHeader(h), budget).1;
    var b, m := IndexBytes(w), Mixed(EncodeHeader(h), IndexBytes(disk), n);
    var piece := EncodeHeader(h)[..n];
    forall i | 0 <= i < HEADER
      ensures b[i] == m[i]
    {
      assert b[i] == w[OFFSET + i];
      if i < n {
        assert w[OFFSET..OFFSET + n] == piece;
        assert w[OFFSET + i] == w[OFFSET..OFFSET + n][i];
      }
    }
  }

  // ---- entries as slices ------------------------------------------------------------

  lemma SliceOfPrefix(b: seq<Byte>, m: nat, i: nat, j: nat)
    requires i <= j <= m <= |b|
    ensures b[..m][i..j] == b[i..j]
  {
  }

  lemma {:induction false} DecodedAt(b: seq<Byte>, n: nat, i: nat)
    requires |b| == ENTRY * n && i < n
    ensures DecodeEntries(b, n)[i] == DecodeEntry(b[ENTRY * i..ENTRY * i + ENTRY])
    decreases n
  {
    hide DecodeEntry;
    if i == n - 1 {
      assert b[ENTRY * i..] == b[ENTRY * i..ENTRY * i + ENTRY];
    } else {
      DecodedAt(b[..ENTRY * (n - 1)], n - 1, i);
      SliceOfPrefix(b, ENTRY * (n - 1), ENTRY * i, ENTRY * i + ENTRY);
    }
  }

  lemma {:induction false} EncodedAt(es: seq<Entry>, i: nat)
    requires i < |es| && forall j :: 0 <= j < |es| ==> EntrySized(es[j])
    ensures EncodeEntries(es)[ENTRY * i..ENTRY * i + ENTRY] == EncodeEntry(es[i])
    decreases |es|
  {
    hide EncodeEntry;
    var n, b := |es|, EncodeEntries(es);
    var c := EncodeEntries(es[..n - 1]);
    if i == n - 1 {
      assert b[ENTRY * i..ENTRY * i + ENTRY] == EncodeEntry(es[i]);
    } else {
      EncodedAt(es[..n - 1], i);
      assert b[ENTRY * i..ENTRY * i + ENTRY] == c[ENTRY * i..ENTRY * i + ENTRY];
    }
  }

  /** The bytes of entry i of an index. */
  function EntryBytes(b: seq<Byte>, i: nat): (e: seq<Byte>)
    requires |b| == HEADER && i < ENTRIES
    ensures |e| == ENTRY
  {
    b[EntryAt(i)..EntryAt(i) + ENTRY]
  }

  lemma DecodedEntry(b: seq<Byte>, i: nat)
    requires |b| == HEADER && i < ENTRIES
    ensures DecodeHeader(b).entries[i] == DecodeEntry(EntryBytes(b, i))
  {
    hide DecodeEntries, DecodeEntry, LE.Decode;
    DecodedAt(b[24..], ENTRIES, i);
    assert b[24..][ENTRY * i..ENTRY * i + ENTRY] == EntryBytes(b, i);
  }

  lemma EncodedEntry(h: Header, i: nat)
    requires Sized(h) && i < ENTRIES
    ensures EntryBytes(EncodeHeader(h), i) == EncodeEntry(h.entries[i])
  {
    hide EncodeEntries, EncodeEntry, Prefix;
    EncodedAt(h.entries, i);
    var b := EncodeHeader(h);
    assert b[24..] == EncodeEntries(h.entries);
    assert b[24..][ENTRY * i..ENTRY * i + ENTRY] == EntryBytes(b, i);
  }

  // ---- the index read back ----------------------------------------------------------

  /** An entry of which the first c bytes, all of them of the name field, are new. */
  function Half(new': Entry, old': Entry, c: nat): (e: Entry)
    requires EntrySized(new') && EntrySized(old') && c <= NAME
  {
    Entry(new'.field[..c] + old'.field[c..], old'.off, old'.size)
  }

  /** Both sector boundaries are inside a name field. */
  predicate Boundary(n: nat) {
    n == 512 || n == 1024
  }

  /** How much of entry i is new. */
  function Landed(i: nat, n: nat): (c: nat)
    ensures c <= ENTRY && (Boundary(n) && c < ENTRY ==> c <= 40)
  {
    if n <= EntryAt(i) then 0 else Min(n - EntryAt(i), ENTRY)
  }

  lemma BytesOfMixed(x: seq<Byte>, y: seq<Byte>, n: nat, i: nat)
    requires |x| == |y| == HEADER && n <= HEADER && i < ENTRIES
    ensures var c := Landed(i, n);
            EntryBytes(Mixed(x, y, n), i) == EntryBytes(x, i)[..c] + EntryBytes(y, i)[c..]
  {
    var a, c, m := EntryAt(i), Landed(i, n), Mixed(x, y, n);
    var e, p, q := EntryBytes(m, i), EntryBytes(x, i), EntryBytes(y, i);
    var r := p[..c] + q[c..];
    forall j | 0 <= j < ENTRY
      ensures e[j] == r[j]
    {
      assert e[j] == m[a + j];
      if j < c {
        assert a + j < n && m[a + j] == x[a + j];
        assert r[j] == p[j] == x[a + j];
      } else {
        assert a + j >= n && m[a + j] == y[a + j];
        assert r[j] == q[j] == y[a + j];
      }
    }
  }

  lemma DecodeHalf(e: Entry, b: seq<Byte>, c: nat)
    requires EntrySized(e) && |b| == ENTRY && c <= ENTRY && (c < ENTRY ==> c <= NAME)
    ensures DecodeEntry(EncodeEntry(e)[..c] + b[c..]) == if c == ENTRY then e else Half(e, DecodeEntry(b), c)
  {
    hide LE.Encode, LE.Decode;
    var x := EncodeEntry(e);
    var m := x[..c] + b[c..];
    if c == ENTRY {
      assert m == x;
      EntryRoundTrip(e);
    } else {
      assert m[..64] == x[..64][..c] + b[..64][c..];
      assert m[64..72] == b[64..72] && m[72..80] == b[72..80];
    }
  }

  /** Entry i of the index read back after a write that stopped at a boundary. */
  lemma TornEntry(g: Header, old': seq<Byte>, n: nat, i: nat)
    requires Sized(g) && |old'| == HEADER && Boundary(n) && i < ENTRIES
    ensures var c, l := Landed(i, n), DecodeHeader(old').entries[i];
            DecodeHeader(Mixed(EncodeHeader(g), old', n)).entries[i]
            == if c == ENTRY then g.entries[i] else Half(g.entries[i], l, c)
  {
    hide EncodeHeader, DecodeHeader, EncodeEntry, DecodeEntry, EntryBytes, Mixed;
    var c, m := Landed(i, n), Mixed(EncodeHeader(g), old', n);
    DecodedEntry(m, i);
    DecodedEntry(old', i);
    EncodedEntry(g, i);
    BytesOfMixed(EncodeHeader(g), old', n, i);
    DecodeHalf(g.entries[i], EntryBytes(old', i), c);
  }

  /** Its fixed part is all new. */
  lemma TornPrefix(g: Header, old': seq<Byte>, n: nat)
    requires Sized(g) && |old'| == HEADER && Boundary(n)
    ensures var m := Mixed(EncodeHeader(g), old', n);
            MagicOf(m) == MAGIC && DecodeHeader(m) == g.(entries := DecodeHeader(m).entries)
  {
    hide EncodeEntries, DecodeEntries, Prefix, LE.Decode;
    PrefixRoundTrip(g);
    var p, m := Prefix(g), Mixed(EncodeHeader(g), old', n);
    assert m[..24] == p;
    SliceOfPrefix(m, 24, 0, 4);
    SliceOfPrefix(m, 24, 4, 8);
    SliceOfPrefix(m, 24, 8, 12);
    SliceOfPrefix(m, 24, 12, 16);
    SliceOfPrefix(m, 24, 16, 24);
  }

  /** An entry that did not change is read back unchanged. */
  lemma HalfOfSame(e: Entry, c: nat)
    requires EntrySized(e) && c <= NAME
    ensures Half(e, e, c) == e
  {
    assert e.field[..c] + e.field[c..] == e.field;
  }

  /** What is read back of the changed entry. */
  function TornOne(new': Entry, old': Entry, c: nat): (e: Entry)
    requires EntrySized(new') && EntrySized(old') && c <= ENTRY && (c < ENTRY ==> c <= NAME)
  {
    if c == ENTRY then new' else Half(new', old', c)
  }

  lemma TornUnchanged(g: Header, old': seq<Byte>, n: nat, i: nat)
    requires Sized(g) && |old'| == HEADER && Boundary(n) && i < ENTRIES
    requires DecodeHeader(old').entries[i] == g.entries[i]
    ensures DecodeHeader(Mixed(EncodeHeader(g), old', n)).entries[i] == g.entries[i]
  {
    hide EncodeHeader, DecodeHeader, Mixed;
    TornEntry(g, old', n, i);
    if Landed(i, n) < ENTRY {
      HalfOfSame(g.entries[i], Landed(i, n));
    }
  }

  /** The index read back is the new one, except that its entry k may be the old one or half. */
  lemma TornHeader(h: Header, g: Header, k: nat, old': seq<Byte>, n: nat)
    requires k < ENTRIES && Sized(h) && Sized(g) && |old'| == HEADER && Boundary(n)
    requires DecodeHeader(old').entries == h.entries && g.entries == h.entries[k := g.entries[k]]
    ensures var m := Mixed(EncodeHeader(g), old', n);
            && MagicOf(m) == MAGIC
            && DecodeHeader(m) == g.(entries := h.entries[k := TornOne(g.entries[k], h.entries[k], Landed(k, n))])
  {
    hide EncodeHeader, DecodeHeader, Mixed, MagicOf, Landed;
    var t := DecodeHeader(Mixed(EncodeHeader(g), old', n)).entries;
    TornPrefix(g, old', n);
    TornEntry(g, old', n, k);
    forall i | 0 <= i < ENTRIES && i != k
      ensures t[i] == h.entries[i]
    {
      TornUnchanged(g, old', n, i);
    }
    assert t == h.entries[k := TornOne(g.entries[k], h.entries[k], Landed(k, n))];
  }

  // ---- the half-written name --------------------------------------------------------

  lemma {:induction false} CStrIs(f: seq<Byte>, name: seq<Byte>)
    requires |name| <= |f| && f[..|name|] == name && (|name| < |f| ==> f[|name|] == 0)
    requires forall i :: 0 <= i < |name| ==> name[i] != 0
    ensures CStr(f) == name
    decreases |name|
  {
    if name != [] {
      assert f[0] == name[0];
      assert f[1..][..|name| - 1] == f[..|name|][1..];
      CStrIs(f[1..], name[1..]);
    }
  }

  lemma {:induction false} CStrHolds(f: seq<Byte>)
    ensures var n := CStr(f); f[..|n|] == n && (|n| < |f| ==> f[|n|] == 0)
    decreases |f|
  {
    if f != [] && f[0] != 0 {
      CStrHolds(f[1..]);
      var n := CStr(f[1..]);
      assert f[..|n| + 1] == [f[0]] + f[1..][..|n|];
    }
  }

  /** A name written over itself is itself at every moment. */
  lemma MixedName(name: seq<Byte>, f: seq<Byte>, c: nat)
    requires NameOk(name) && |f| == NAME && CStr(f) == name && c <= NAME
    ensures CStr(Field(name)[..c] + f[c..]) == name
  {
    var x := Field(name)[..c] + f[c..];
    CStrHolds(f);
    assert f[..|name|] == name;
    forall i | 0 <= i < |name|
      ensures x[i] == name[i]
    {
      assert f[i] == f[..|name|][i];
    }
    assert x[..|name|] == name;
    CStrIs(x, name);
  }

  /** The part of a new name that is there. */
  function Stub(name: seq<Byte>, c: nat): (n: seq<Byte>) {
    name[..Min(|name|, c)]
  }

  lemma StubName(name: seq<Byte>, c: nat)
    requires NameOk(name) && c < NAME
    ensures CStr(Field(name)[..c] + BLANK.field[c..]) == Stub(name, c)
  {
    var x, n := Field(name)[..c] + BLANK.field[c..], Stub(name, c);
    assert x[..|n|] == n;
    CStrIs(x, n);
  }

  // ---- what is found ----------------------------------------------------------------

  lemma {:induction false} SameFind(a: Header, b: Header, m: seq<Byte>, i: nat)
    requires i <= a.count == b.count && a.count <= |a.entries| && b.count <= |b.entries|
    requires forall j :: i <= j < a.count ==> (Matches(a.entries[j].field, m) <==> Matches(b.entries[j].field, m))
    ensures Find(a, m, i) == Find(b, m, i)
    decreases a.count - i
  {
    hide Matches;
    if i < a.count && !Matches(a.entries[i].field, m) {
      SameFind(a, b, m, i + 1);
    }
  }

  /** With the old entry's place and size and a name that matches as before, nothing changes. */
  lemma SameValue(h: Header, t: Header, disk: seq<Byte>, k: nat, e: Entry, m: seq<Byte>)
    requires h.count <= |h.entries| == ENTRIES && k < ENTRIES && t.count == h.count
    requires t.entries == h.entries[k := e] && e.off == h.entries[k].off && e.size == h.entries[k].size
    requires Matches(e.field, m) <==> Matches(h.entries[k].field, m)
    ensures Value(t, disk, m) == Value(h, disk, m)
  {
    hide Matches, Find;
    SameFind(t, h, m, 0);
  }

  /** A new name of which the stub is there stands for an empty file, unless the stub is the name
      of another. */
  lemma StubValue(h: Header, t: Header, disk: seq<Byte>, k: nat, e: Entry, m: seq<Byte>)
    requires h.count <= |h.entries| == ENTRIES && t.count == h.count == k + 1
    requires t.entries == h.entries[k := e] && e.off == 0 && e.size == 0
    requires Matches(e.field, m) && !Matches(h.entries[k].field, m)
    ensures Value(t, disk, m) == if Find(h, m) == -1 then Some([]) else Value(h, disk, m)
  {
    hide Matches;
    var j := Find(h, m);
    if j != -1 {
      assert j < k && t.entries[j] == h.entries[j];
      assert forall i :: 0 <= i < j ==> t.entries[i] == h.entries[i];
      assert Find(t, m) == j;
    } else {
      assert Find(t, m) == k;
    }
  }

  // ---- the reload -------------------------------------------------------------------

  /** The index region of the disk has the entries of the index in memory. */
  predicate Imaged(s: Store)
    requires |s.disk| == CAPACITY
  {
    DecodeHeader(IndexBytes(s.disk)).entries == s.ram.entries
  }

  /** What a name stands for after the reload, by the number of index bytes that were written. */
  function TornValue(s: Store, name: seq<Byte>, data: seq<Byte>, n: nat, m: seq<Byte>): (v: Option<seq<Byte>>)
    requires Usable(s)
  {
    var c, was := Landed(Claimed(s.ram, name).0, n), Value(s.ram, s.disk, m);
    if m == name && c == ENTRY then Some(data)
    else if 0 < c < ENTRY && Find(s.ram, name) == -1 && m == Stub(name, c) && was == None then Some([])
    else was
  }

  /** Extents of placed entries do not see the index write. */
  lemma PlacedValue(h: Header, d: seq<Byte>, e: seq<Byte>, m: seq<Byte>)
    requires IndexOk(h) && NameOk(m)
    requires forall x: Entry :: DATA <= x.off ==> Extent(e, x) == Extent(d, x)
    ensures Value(h, e, m) == Value(h, d, m)
  {
    hide Find, Extent;
    var k := Find(h, m);
    assert k != -1 ==> Live(h.entries[k]) && Placed(h.entries[k], h.next);
  }

  /** The claimed slot holds the name, or is the last one counted and blank. */
  lemma ClaimedSlot(h: Header, name: seq<Byte>)
    requires IndexOk(h) && NameOk(name) && !Full(h, name)
    ensures var (k, g) := Claimed(h, name);
            && k < ENTRIES && k < g.count
            && if Find(h, name) == -1 then g.count == k + 1 && g.entries[k] == BLANK
               else CStr(g.entries[k].field) == name
  {
  }

  /** The case in which the changed entry is not all there. */
  lemma HalfValue(h: Header, g: Header, disk: seq<Byte>, k: nat, name: seq<Byte>, c: nat, m: seq<Byte>)
    requires IndexOk(h) && NameOk(name) && NameOk(m) && k < ENTRIES && k < h.count && c < NAME
    requires g.count == h.count && |g.entries| == ENTRIES
    requires EntrySized(g.entries[k]) && g.entries[k].field == Field(name)
    requires CStr(h.entries[k].field) == name || (h.count == k + 1 && h.entries[k] == BLANK)
    ensures var t := g.(entries := h.entries[k := Half(g.entries[k], h.entries[k], c)]);
            Value(t, disk, m)
            == if h.entries[k] == BLANK && c > 0 && m == Stub(name, c) && Find(h, m) == -1 then Some([])
               else Value(h, disk, m)
  {
    hide Find, Value, Field, IndexOk;
    IndexSizes(h);
    var e := Half(g.entries[k], h.entries[k], c);
    var t := g.(entries := h.entries[k := e]);
    BlankNotLive();
    if h.entries[k] == BLANK {
      StubName(name, c);
      if c > 0 && m == Stub(name, c) {
        StubValue(h, t, disk, k, e, m);
      } else {
        SameValue(h, t, disk, k, e, m);
      }
    } else {
      MixedName(name, h.entries[k].field, c);
      SameValue(h, t, disk, k, e, m);
    }
  }

  lemma IndexSizes(h: Header)
    requires IndexOk(h)
    ensures Sized(h) && h.count <= ENTRIES
  {
  }

  /** The write up to the index: memory's new index, and the disk with the data. */
  predicate Filing(s: Store, name: seq<Byte>, data: seq<Byte>, f: Faults, h: Header, g: Header, k: nat, d: seq<Byte>)
    requires Usable(s)
  {
    && IndexOk(h) && IndexOk(g) && k < h.count && |d| == CAPACITY
    && h.entries == s.ram.entries && g.count == h.count && k == Claimed(s.ram, name).0
    && g.entries == h.entries[k := g.entries[k]] && g.entries[k].field == Field(name)
    && (if Find(s.ram, name) == -1 then h.count == k + 1 && h.entries[k] == BLANK else CStr(h.entries[k].field) == name)
    && IndexBytes(d) == IndexBytes(s.disk)
    && WriteName(s, name, data, f) == Persist(g, d, f.index)
  }

  lemma Files(s: Store, name: seq<Byte>, data: seq<Byte>, f: Faults)
    returns (h: Header, g: Header, k: nat, d: seq<Byte>)
    requires Inv(s) && Usable(s) && NameOk(name) && Reaches(s, name, data, f)
    ensures Filing(s, name, data, f, h, g, k, d)
    ensures forall m :: NameOk(m) ==> Value(h, d, m) == Value(s.ram, s.disk, m) && Find(h, m) == Find(s.ram, m)
  {
    hide Written, Value, WriteName, Persist, Saved, Find, Field;
    var c, off := Claimed(s.ram, name), Aligned(s.ram.next);
    k, h := c.0, c.1;
    d := Written(s.disk, off, data, f.data).1;
    g := Filed(h, k, name, off, |data|);
    ClaimOk(s.ram, name);
    ClaimedSlot(s.ram, name);
    ClaimKeeps(s, name);
    DataKeeps(s.(ram := h), off, data, f.data);
    DataWriteKeeps(s.disk, off, data, f.data);
    FiledOk(h, k, name, off, |data|);
    FiledIs(s, name, data, f);
  }

  /** Nothing of the index was written: the old one is read back. */
  lemma TornAtStart(s: Store, h: Header, d: seq<Byte>, e: seq<Byte>, m: seq<Byte>)
    requires Inv(s) && s.sync == Attached && IndexOk(h) && NameOk(m) && |d| == |e| == CAPACITY
    requires IndexBytes(d) == IndexBytes(s.disk) == IndexBytes(e)
    requires forall x: Entry :: DATA <= x.off ==> Extent(e, x) == Extent(d, x)
    requires Value(h, d, m) == Value(s.ram, s.disk, m) && Find(h, m) == Find(s.ram, m) && h.entries == s.ram.entries
    ensures Value(Load(e), e, m) == Value(s.ram, s.disk, m)
  {
    hide Find, Load, Extent, IndexOk, Saved;
    SameLoad(s.disk, e);
    ReloadKeeps(s.(disk := e));
    PlacedValue(h, d, e, m);
  }

  lemma SameLoad(d: seq<Byte>, e: seq<Byte>)
    requires |d| == |e| == CAPACITY && IndexBytes(d) == IndexBytes(e)
    ensures Load(d) == Load(e)
  {
  }

  lemma LoadIs(d: seq<Byte>)
    requires |d| == CAPACITY && MagicOf(IndexBytes(d)) == MAGIC && DecodeHeader(IndexBytes(d)).count <= ENTRIES
    ensures Load(d) == DecodeHeader(IndexBytes(d))
  {
  }

  /** One or two sectors of it were. */
  lemma TornAtBoundary(s: Store, name: seq<Byte>, data: seq<Byte>, f: Faults, n: nat, m: seq<Byte>)
    requires Inv(s) && s.sync == Attached && Usable(s) && Imaged(s) && NameOk(name) && NameOk(m)
    requires Reaches(s, name, data, f) && Boundary(n) && n == Reached(OFFSET, HEADER, f.index)
    ensures var t := WriteName(s, name, data, f).1;
            |t.disk| == CAPACITY && Value(Load(t.disk), t.disk, m) == TornValue(s, name, data, n, m)
  {
    hide Written, Value, WriteName, Saved, Find, Field, EncodeHeader, DecodeHeader, MagicOf, Reached, Load, IndexOk,
         Reaches, Mixed, Half, Inv, Extent;
    var h, g, k, d := Files(s, name, data, f);
    var t, c := WriteName(s, name, data, f).1, Landed(k, n);
    IndexSizes(h);
    IndexSizes(g);
    IndexIsMixed(d, g, f.index);
    IndexWriteKeeps(d, g, f.index);
    TornHeader(h, g, k, IndexBytes(d), n);
    LoadIs(t.disk);
    PlacedValue(h, d, t.disk, m);
    if c == ENTRY {
      WriteKeeps(s, name, data, f);
    } else {
      HalfValue(h, g, t.disk, k, name, c, m);
      NoneIff(s.ram, s.disk, m);
      BlankNotLive();
    }
  }

  lemma NoneIff(h: Header, disk: seq<Byte>, m: seq<Byte>)
    requires h.count <= |h.entries|
    ensures Value(h, disk, m) == None <==> Find(h, m) == -1
  {
  }

  /** An index write that fails, and then a reload: every name but the one being written stands
      for what it stood for before; that one has its new bytes if its whole entry was written,
      and its old ones otherwise.  The exception is a new name whose entry was cut: as much of
      the name as was written stands for an empty file, unless it is another file's name. */
  lemma TornReload(s: Store, name: seq<Byte>, data: seq<Byte>, f: Faults)
    requires Inv(s) && s.sync == Attached && Usable(s) && Imaged(s) && NameOk(name)
    requires Reaches(s, name, data, f) && WriteName(s, name, data, f).0 != 0
    ensures var t, n := WriteName(s, name, data, f).1, Reached(OFFSET, HEADER, f.index);
            && |t.disk| == CAPACITY && n in {0, 512, 1024}
            && forall m :: NameOk(m) ==> Value(Load(t.disk), t.disk, m) == TornValue(s, name, data, n, m)
  {
    hide Written, Value, WriteName, Saved, Find, Field, EncodeHeader, Reached, Load, IndexOk, Reaches, Inv, Imaged,
         Extent;
    var h, g, k, d := Files(s, name, data, f);
    var t, n := WriteName(s, name, data, f).1, Reached(OFFSET, HEADER, f.index);
    IndexSizes(g);
    StopsAtSector(f.index);
    IndexIsMixed(d, g, f.index);
    IndexWriteKeeps(d, g, f.index);
    forall m | NameOk(m)
      ensures Value(Load(t.disk), t.disk, m) == TornValue(s, name, data, n, m)
    {
      if n == 0 {
        TornAtStart(s, h, d, t.disk, m);
      } else {
        TornAtBoundary(s, name, data, f, n, m);
      }
    }
  }

  /** A write that succeeds leaves its index on the disk. */
  lemma SuccessIsImaged(s: Store, name: seq<Byte>, data: seq<Byte>, f: Faults)
    requires Inv(s) && Usable(s) && NameOk(name) && Reaches(s, name, data, f) && WriteName(s, name, data, f).0 == 0
    ensures var t := WriteName(s, name, data, f).1; Inv(t) && Usable(t) && t.sync == Attached && Imaged(t)
  {
    hide Written, Value, WriteName, Find, Field, EncodeHeader, DecodeHeader, Reached, IndexOk, Reaches, Inv, Mixed;
    var h, g, k, d := Files(s, name, data, f);
    IndexSizes(g);
    IndexIsMixed(d, g, f.index);
    WholeIsMixed(EncodeHeader(g), IndexBytes(d));
    HeaderRoundTrip(g);
    WriteKeeps(s, name, data, f);
    InvUsable(WriteName(s, name, data, f).1);
  }

  lemma WholeIsMixed(x: seq<Byte>, y: seq<Byte>)
    requires |x| == |y| == HEADER
    ensures Mixed(x, y, HEADER) == x
  {
  }

  /** So a write that fails after one that succeeded loses no other name, whatever the state the
      first one found. */
  lemma TornAfterSuccess(s: Store, first: seq<Byte>, bytes: seq<Byte>, f: Faults,
                         name: seq<Byte>, data: seq<Byte>, e: Faults)
    requires Inv(s) && Usable(s) && NameOk(first) && Reaches(s, first, bytes, f) && WriteName(s, first, bytes, f).0 == 0
    requires NameOk(name) && Usable(WriteName(s, first, bytes, f).1)
    requires var t := WriteName(s, first, bytes, f).1; Reaches(t, name, data, e) && WriteName(t, name, data, e).0 != 0
    ensures var t := WriteName(s, first, bytes, f).1;
            var u := WriteName(t, name, data, e).1;
            && |u.disk| == CAPACITY
            && forall m :: NameOk(m) ==>
                 Value(Load(u.disk), u.disk, m) == TornValue(t, name, data, Reached(OFFSET, HEADER, e.index), m)
  {
    hide Value, WriteName, Find, Reached, Load, Reaches, Inv, Imaged, TornValue;
    SuccessIsImaged(s, first, bytes, f);
    TornReload(WriteName(s, first, bytes, f).1, name, data, e);
  }
}
