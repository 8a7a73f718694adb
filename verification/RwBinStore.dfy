/**
 The on-disk index of the writable binary store (include/sotfs/rwbinstore.h): its byte layout
 and what a reader makes of it.
 */
module RwBinFormat {
  import opened Machine
  import LE = LittleEndian

  const MAGIC: nat := 0x4e425752
  const VERSION: nat := 1
  const ENTRIES: nat := 16
  const NAME: nat := 64
  const ENTRY: nat := 80
  const HEADER: nat := 1304

  /** `field` is the raw 64-byte name field. */
  datatype Entry = Entry(field: seq<Byte>, off: nat, size: nat)
  datatype Header = Header(version: nat, count: nat, reserved: nat, next: nat, entries: seq<Entry>)

  predicate EntrySized(e: Entry) {
    |e.field| == NAME && e.off < TWO64 && e.size < TWO64
  }

  predicate Sized(h: Header) {
    && h.version < TWO32 && h.count < TWO32 && h.reserved < TWO32 && h.next < TWO64
    && |h.entries| == ENTRIES && forall i :: 0 <= i < ENTRIES ==> EntrySized(h.entries[i])
  }

  function EncodeEntry(e: Entry): (b: seq<Byte>)
    requires EntrySized(e)
    ensures |b| == ENTRY
  {
    e.field + LE.Encode(e.off, 8) + LE.Encode(e.size, 8)
  }

  function DecodeEntry(b: seq<Byte>): (e: Entry)
    requires |b| == ENTRY
    ensures EntrySized(e)
  {
    LE.Widths();
    Entry(b[..64], LE.Decode(b[64..72]), LE.Decode(b[72..80]))
  }

  function EncodeEntries(es: seq<Entry>): (b: seq<Byte>)
    requires forall i :: 0 <= i < |es| ==> EntrySized(es[i])
    ensures |b| == ENTRY * |es|
  {
    if es == [] then [] else EncodeEntries(es[..|es| - 1]) + EncodeEntry(es[|es| - 1])
  }

  function DecodeEntries(b: seq<Byte>, n: nat): (es: seq<Entry>)
    requires |b| == ENTRY * n
    ensures |es| == n && forall i :: 0 <= i < n ==> EntrySized(es[i])
    decreases n
  {
    if n == 0 then [] else DecodeEntries(b[..ENTRY * (n - 1)], n - 1) + [DecodeEntry(b[ENTRY * (n - 1)..])]
  }

  function Prefix(h: Header): (b: seq<Byte>)
    requires Sized(h)
    ensures |b| == 24
  {
    LE.Encode(MAGIC, 4) + LE.Encode(h.version, 4) + LE.Encode(h.count, 4) + LE.Encode(h.reserved, 4) + LE.Encode(h.next, 8)
  }

  function EncodeHeader(h: Header): (b: seq<Byte>)
    requires Sized(h)
    ensures |b| == HEADER
  {
    Prefix(h) + EncodeEntries(h.entries)
  }

  function MagicOf(b: seq<Byte>): (m: nat)
    requires |b| == HEADER
  {
    LE.Decode(b[..4])
  }

  function DecodeHeader(b: seq<Byte>): (h: Header)
    requires |b| == HEADER
    ensures Sized(h)
  {
    LE.Widths();
    Header(LE.Decode(b[4..8]), LE.Decode(b[8..12]), LE.Decode(b[12..16]), LE.Decode(b[16..24]),
           DecodeEntries(b[24..], ENTRIES))
  }

  lemma EntryRoundTrip(e: Entry)
    requires EntrySized(e)
    ensures DecodeEntry(EncodeEntry(e)) == e
  {
    var b := EncodeEntry(e);
    LE.Widths();
    LE.DecodeEncode(e.off, 8);
    LE.DecodeEncode(e.size, 8);
    assert b[..64] == e.field && b[64..72] == LE.Encode(e.off, 8) && b[72..80] == LE.Encode(e.size, 8);
  }

  lemma {:induction false} EntriesRoundTrip(es: seq<Entry>)
    requires forall i :: 0 <= i < |es| ==> EntrySized(es[i])
    ensures DecodeEntries(EncodeEntries(es), |es|) == es
    decreases |es|
  {
    hide EncodeEntry, DecodeEntry;
    if es != [] {
      var n := |es|;
      var b := EncodeEntries(es);
      EntriesRoundTrip(es[..n - 1]);
      EntryRoundTrip(es[n - 1]);
      assert b[..ENTRY * (n - 1)] == EncodeEntries(es[..n - 1]);
      assert b[ENTRY * (n - 1)..] == EncodeEntry(es[n - 1]);
    }
  }

  lemma PrefixRoundTrip(h: Header)
    requires Sized(h)
    ensures var p := Prefix(h);
            && LE.Decode(p[..4]) == MAGIC && LE.Decode(p[4..8]) == h.version && LE.Decode(p[8..12]) == h.count
            && LE.Decode(p[12..16]) == h.reserved && LE.Decode(p[16..24]) == h.next
  {
    hide LE.Encode, LE.Decode;
    LE.Widths();
    LE.DecodeEncode(MAGIC, 4);
    LE.DecodeEncode(h.version, 4);
    LE.DecodeEncode(h.count, 4);
    LE.DecodeEncode(h.reserved, 4);
    LE.DecodeEncode(h.next, 8);
    var p := Prefix(h);
    assert p[..4] == LE.Encode(MAGIC, 4);
    assert p[4..8] == LE.Encode(h.version, 4);
    assert p[8..12] == LE.Encode(h.count, 4);
    assert p[12..16] == LE.Encode(h.reserved, 4);
    assert p[16..24] == LE.Encode(h.next, 8);
  }

  /** An index written to disk and read back is the same index. */
  lemma HeaderRoundTrip(h: Header)
    requires Sized(h)
    ensures MagicOf(EncodeHeader(h)) == MAGIC && DecodeHeader(EncodeHeader(h)) == h
  {
    hide Prefix, EncodeEntries, DecodeEntries, LE.Decode;
    var b := EncodeHeader(h);
    PrefixRoundTrip(h);
    EntriesRoundTrip(h.entries);
    var p := Prefix(h);
    assert b[24..] == EncodeEntries(h.entries);
    assert b[..4] == p[..4] && b[4..8] == p[4..8] && b[8..12] == p[8..12];
    assert b[12..16] == p[12..16] && b[16..24] == p[16..24];
  }

  // ---- names ------------------------------------------------------------------------

  /** The C string in a name field. */
  function CStr(f: seq<Byte>): (n: seq<Byte>)
    ensures |n| <= |f|
  {
    if f == [] || f[0] == 0 then [] else [f[0]] + CStr(f[1..])
  }

  /** Names the store promises to keep: nonempty, under 64 bytes. */
  predicate NameOk(name: seq<Byte>) {
    0 < |name| < NAME && forall i :: 0 <= i < |name| ==> name[i] != 0
  }

  /** memset and strncpy of at most 63 bytes. */
  function Field(name: seq<Byte>): (f: seq<Byte>)
    ensures |f| == NAME
  {
    var n := if |name| > NAME - 1 then name[..NAME - 1] else name;
    n + Zeros(NAME - |n|)
  }

  /** strncmp(field, name, 64) == 0. */
  predicate Matches(f: seq<Byte>, name: seq<Byte>) {
    CStr(f) == if |name| > NAME then name[..NAME] else name
  }

  lemma {:induction false} CStrPadded(name: seq<Byte>, k: nat)
    requires forall i :: 0 <= i < |name| ==> name[i] != 0
    requires k > 0
    ensures CStr(name + Zeros(k)) == name
    decreases |name|
  {
    var f := name + Zeros(k);
    if name != [] {
      assert f[1..] == name[1..] + Zeros(k);
      CStrPadded(name[1..], k);
    }
  }

  lemma FieldKeepsName(name: seq<Byte>)
    requires NameOk(name)
    ensures CStr(Field(name)) == name
  {
    CStrPadded(name, NAME - |name|);
  }

  predicate NoZeros(name: seq<Byte>) {
    forall i :: 0 <= i < |name| ==> name[i] != 0
  }

  /** A stored name answers to its first 63 bytes and to nothing else, so a name is found again if
      and only if it has no more. */
  lemma NameFoundIff(name: seq<Byte>, m: seq<Byte>)
    requires NoZeros(name)
    ensures Matches(Field(name), m) <==> m == if |name| <= 63 then name else name[..63]
    ensures Matches(Field(name), name) <==> |name| <= 63
  {
    var n := if |name| > NAME - 1 then name[..NAME - 1] else name;
    CStrPadded(n, NAME - |n|);
  }
}

/**
 The writable binary store (src/lucas/backends_rwbinstore.c): a bump allocator behind an index
 that is kept in memory and written through to disk.
 */
module RwBinStore {
  import opened Machine
  import opened BlockDevice
  import opened RwBinFormat

  const OFFSET: nat := 256 * 1024 * 1024
  const END: nat := OFFSET + 12 * 1024 * 1024
  const DATA: nat := OFFSET + 4096
  const PAGE: nat := 4096

  const BLANK: Entry := Entry(Zeros(NAME), 0, 0)

  function EmptyIndex(): (h: Header)
    ensures Sized(h) && h.count == 0
  {
    Header(VERSION, 0, 0, DATA, seq(ENTRIES, _ => BLANK))
  }

  /** How the index in memory and the disk go together: the disk holds that index; the index
      could not be read and memory has an empty one; or a write stopped where the disk is no
      longer the image of one index. */
  datatype Sync = Attached | Detached | Torn

  datatype Store = Store(ram: Header, disk: seq<Byte>, sync: Sync)

  function IndexBytes(disk: seq<Byte>): (b: seq<Byte>)
    requires |disk| == CAPACITY
    ensures |b| == HEADER
  {
    disk[OFFSET..OFFSET + HEADER]
  }

  /** rwbin_lazy_init on a readable disk: a region without the magic, or with an impossible
      count, is an empty store. */
  function Load(disk: seq<Byte>): (h: Header)
    requires |disk| == CAPACITY
    ensures Sized(h) && h.count <= ENTRIES
  {
    var b := IndexBytes(disk);
    if MagicOf(b) != MAGIC || DecodeHeader(b).count > ENTRIES then EmptyIndex() else DecodeHeader(b)
  }

  /** The first counted entry with the name, or -1. */
  function Find(h: Header, name: seq<Byte>, i: nat := 0): (k: int)
    requires i <= h.count <= |h.entries|
    ensures k == -1 || (i <= k < h.count && Matches(h.entries[k].field, name))
    ensures forall j :: i <= j < h.count && (k == -1 || j < k) ==> !Matches(h.entries[j].field, name)
    decreases h.count - i
  {
    if i == h.count then -1 else if Matches(h.entries[i].field, name) then i else Find(h, name, i + 1)
  }

  function Aligned(next: nat): (off: nat)
    ensures next <= off < next + PAGE && off % PAGE == 0
  {
    (next + PAGE - 1) / PAGE * PAGE
  }

  function Claimed(h: Header, name: seq<Byte>): (r: (nat, Header))
    requires h.count <= |h.entries|
  {
    var k := Find(h, name);
    if k >= 0 then (k, h) else (h.count, h.(count := h.count + 1))
  }

  predicate Full(h: Header, name: seq<Byte>)
    requires h.count <= |h.entries|
  {
    Find(h, name) == -1 && h.count >= ENTRIES
  }

  function Filed(h: Header, k: nat, name: seq<Byte>, off: nat, size: nat): (g: Header)
    requires k < |h.entries|
  {
    h.(next := off + size, entries := h.entries[k := Entry(Field(name), off, size)])
  }

  /** Where the two device writes of an operation stop, if they do. */
  datatype Faults = Faults(data: nat, index: nat)

  predicate Usable(s: Store) {
    |s.disk| == CAPACITY && Sized(s.ram) && s.ram.count <= ENTRIES
  }

  /** rwbinstore_write.  A new name takes its slot before anything can fail. */
  function WriteName(s: Store, name: seq<Byte>, data: seq<Byte>, f: Faults): (r: (int, Store))
    requires Usable(s)
  {
    if data == [] then (-22, s)
    else if Full(s.ram, name) then (-28, s)
    else
      var c := Claimed(s.ram, name);
      var off := Aligned(s.ram.next);
      if off + |data| > END then (-28, s.(ram := c.1))
      else
        var w := Written(s.disk, off, data, f.data);
        if !w.0 then (-5, Store(c.1, w.1, Damaged(s.sync)))
        else Persist(Filed(c.1, c.0, name, off, |data|), w.1, f.index)
  }

  /** Data written under an index that is not the disk's lands on the disk's own extents. */
  function Damaged(sync: Sync): (after: Sync) {
    if sync == Detached then Torn else sync
  }

  /** The new index becomes the one in memory, then goes to disk. */
  function Persist(h: Header, disk: seq<Byte>, budget: nat): (r: (int, Store))
    requires |disk| == CAPACITY && Sized(h)
  {
    var w := Written(disk, OFFSET, EncodeHeader(h), budget);
    (if w.0 then 0 else -5, Store(h, w.1, if w.0 then Attached else Torn))
  }

  // ---- what the store holds ---------------------------------------------------------

  datatype Option<T> = None | Some(value: T)

  function Extent(disk: seq<Byte>, e: Entry): (b: seq<Byte>) {
    if e.off + e.size <= |disk| then disk[e.off..e.off + e.size] else []
  }

  /** The bytes a name stands for. */
  function Value(h: Header, disk: seq<Byte>, name: seq<Byte>): (v: Option<seq<Byte>>)
    requires h.count <= |h.entries|
  {
    var k := Find(h, name);
    if k == -1 then None else Some(Extent(disk, h.entries[k]))
  }

  // ---- invariant --------------------------------------------------------------------

  predicate Live(e: Entry) {
    CStr(e.field) != []
  }

  /** A live extent is page-aligned, nonempty and inside the allocated data. */
  predicate Placed(e: Entry, next: nat) {
    e.off % PAGE == 0 && DATA <= e.off && e.size > 0 && e.off + e.size <= next
  }

  predicate Apart(e: Entry, f: Entry) {
    (e.off + e.size <= f.off || f.off + f.size <= e.off) && CStr(e.field) != CStr(f.field)
  }

  predicate IndexOk(h: Header) {
    && Sized(h) && h.count <= ENTRIES && DATA <= h.next <= END
    && (forall i :: 0 <= i < ENTRIES ==>
          h.entries[i] == BLANK || (i < h.count && Live(h.entries[i]) && Placed(h.entries[i], h.next)))
    && (forall i, j :: 0 <= i < j < ENTRIES && Live(h.entries[i]) && Live(h.entries[j]) ==>
          Apart(h.entries[i], h.entries[j]))
  }

  /** The index on disk is the one in memory, apart from empty slots at its end. */
  predicate Saved(ram: Header, disk: Header) {
    && disk == ram.(count := disk.count) && disk.count <= ram.count
    && forall i :: disk.count <= i < |ram.entries| ==> ram.entries[i] == BLANK
  }

  predicate Inv(s: Store) {
    && |s.disk| == CAPACITY && IndexOk(s.ram)
    && (s.sync == Attached ==> Saved(s.ram, Load(s.disk)))
    && (s.sync == Detached ==> IndexOk(Load(s.disk)))
  }

  lemma InvUsable(s: Store)
    requires Inv(s)
    ensures Usable(s)
  {
  }

  lemma BlankNotLive()
    ensures !Live(BLANK) && EntrySized(BLANK)
  {
  }

  /** A store over a region without the magic starts empty and saved. */
  lemma FreshInv(disk: seq<Byte>)
    requires |disk| == CAPACITY && MagicOf(IndexBytes(disk)) != MAGIC
    ensures Inv(Store(Load(disk), disk, Attached))
  {
    BlankNotLive();
  }

  // ---- one write --------------------------------------------------------------------

  lemma ClaimOk(h: Header, name: seq<Byte>)
    requires IndexOk(h) && NameOk(name) && !Full(h, name)
    ensures var (k, g) := Claimed(h, name);
            && k < g.count <= ENTRIES && IndexOk(g) && Saved(g, h)
            && g.entries == h.entries && g.next == h.next
            && (forall j :: 0 <= j < ENTRIES && j != k && Live(h.entries[j]) ==> CStr(h.entries[j].field) != name)
            && (forall n :: NameOk(n) ==> Find(g, n) == Find(h, n))
  {
    var (k, g) := Claimed(h, name);
    BlankNotLive();
    if Find(h, name) == -1 {
      assert h.entries[h.count] == BLANK;
      forall n | NameOk(n)
        ensures Find(g, n) == Find(h, n)
      {
        BlankSlotUnfound(h, n, 0);
      }
    }
  }

  lemma {:induction false} BlankSlotUnfound(h: Header, n: seq<Byte>, i: nat)
    requires i <= h.count < |h.entries| && h.entries[h.count] == BLANK && NameOk(n)
    ensures Find(h.(count := h.count + 1), n, i) == Find(h, n, i)
    decreases h.count - i
  {
    if i < h.count {
      BlankSlotUnfound(h, n, i + 1);
    } else {
      BlankNotLive();
      assert !Matches(BLANK.field, n);
      assert Find(h.(count := h.count + 1), n, i + 1) == -1;
    }
  }

  lemma Distinct(h: Header, i: nat, j: nat)
    requires IndexOk(h) && i < ENTRIES && j < ENTRIES && i != j && Live(h.entries[i]) && Live(h.entries[j])
    ensures CStr(h.entries[i].field) != CStr(h.entries[j].field)
  {
    assert if i < j then Apart(h.entries[i], h.entries[j]) else Apart(h.entries[j], h.entries[i]);
  }

  /** Live names are distinct, so the entry with the name is the one found. */
  lemma FindIs(h: Header, name: seq<Byte>, k: nat)
    requires IndexOk(h) && NameOk(name) && k < h.count && CStr(h.entries[k].field) == name
    ensures Find(h, name) == k
  {
    assert Live(h.entries[k]);
    forall i | 0 <= i < h.count && i != k
      ensures !Matches(h.entries[i].field, name)
    {
      if Live(h.entries[i]) {
        Distinct(h, i, k);
      }
    }
  }

  lemma FiledOk(h: Header, k: nat, name: seq<Byte>, off: nat, size: nat)
    requires IndexOk(h) && NameOk(name) && k < h.count
    requires forall j :: 0 <= j < ENTRIES && j != k && Live(h.entries[j]) ==> CStr(h.entries[j].field) != name
    requires off % PAGE == 0 && h.next <= off && size > 0 && off + size <= END
    ensures IndexOk(Filed(h, k, name, off, size))
  {
    var g := Filed(h, k, name, off, size);
    FieldKeepsName(name);
    BlankNotLive();
    forall i, j | 0 <= i < j < ENTRIES && Live(g.entries[i]) && Live(g.entries[j])
      ensures Apart(g.entries[i], g.entries[j])
    {
      if i != k && j != k {
        assert Apart(h.entries[i], h.entries[j]);
      }
    }
  }

  /** Filing a name leaves every other name where it was. */
  lemma FiledFind(h: Header, k: nat, name: seq<Byte>, off: nat, size: nat, n: seq<Byte>)
    requires IndexOk(h) && NameOk(name) && NameOk(n) && n != name && k < h.count
    requires h.entries[k] == BLANK || CStr(h.entries[k].field) == name
    requires var g := Filed(h, k, name, off, size); IndexOk(g)
    ensures Find(Filed(h, k, name, off, size), n) == Find(h, n)
  {
    var g := Filed(h, k, name, off, size);
    FieldKeepsName(name);
    BlankNotLive();
    var i := Find(h, n);
    if i != -1 {
      FindIs(g, n, i);
    } else {
      assert forall m :: 0 <= m < g.count ==> !Matches(g.entries[m].field, n);
    }
  }

  /** A data write leaves the index and every allocated extent alone. */
  lemma DataWriteKeeps(disk: seq<Byte>, off: nat, data: seq<Byte>, budget: nat)
    requires |disk| == CAPACITY && DATA <= off && off + |data| <= END
    ensures var d := Written(disk, off, data, budget).1;
            && IndexBytes(d) == IndexBytes(disk)
            && (forall e: Entry :: e.off + e.size <= off ==> Extent(d, e) == Extent(disk, e))
  {
    hide Written;
    var d := Written(disk, off, data, budget).1;
    assert forall i :: 0 <= i < off ==> d[i] == disk[i];
    forall e: Entry | e.off + e.size <= off
      ensures Extent(d, e) == Extent(disk, e)
    {
      assert d[e.off..e.off + e.size] == disk[e.off..e.off + e.size];
    }
    assert d[OFFSET..OFFSET + HEADER] == disk[OFFSET..OFFSET + HEADER];
  }

  lemma IndexWriteKeeps(disk: seq<Byte>, h: Header, budget: nat)
    requires |disk| == CAPACITY && Sized(h) && h.count <= ENTRIES
    ensures var w := Written(disk, OFFSET, EncodeHeader(h), budget);
            && (w.0 ==> Load(w.1) == h)
            && (forall e: Entry :: DATA <= e.off ==> Extent(w.1, e) == Extent(disk, e))
  {
    hide Written, EncodeHeader;
    var w := Written(disk, OFFSET, EncodeHeader(h), budget);
    assert forall i :: DATA <= i < CAPACITY ==> w.1[i] == disk[i];
    forall e: Entry | DATA <= e.off && e.off + e.size <= CAPACITY
      ensures Extent(w.1, e) == Extent(disk, e)
    {
      assert w.1[e.off..e.off + e.size] == disk[e.off..e.off + e.size];
    }
    if w.0 {
      assert IndexBytes(w.1) == EncodeHeader(h);
      HeaderRoundTrip(h);
    }
  }

  /** The write got as far as the index. */
  predicate Reaches(s: Store, name: seq<Byte>, data: seq<Byte>, f: Faults)
    requires Usable(s)
  {
    && data != [] && !Full(s.ram, name) && Aligned(s.ram.next) + |data| <= END
    && Written(s.disk, Aligned(s.ram.next), data, f.data).0
  }

  ghost predicate SameValues(h: Header, d: seq<Byte>, g: Header, e: seq<Byte>)
    requires h.count <= |h.entries| && g.count <= |g.entries|
  {
    forall n :: NameOk(n) ==> Value(g, e, n) == Value(h, d, n)
  }

  lemma SavedTransitive(a: Header, b: Header, c: Header)
    requires Saved(a, b) && Saved(b, c)
    ensures Saved(a, c)
  {
  }

  /** A claimed slot changes no value. */
  lemma ClaimKeeps(s: Store, name: seq<Byte>)
    requires Inv(s) && NameOk(name) && !Full(s.ram, name)
    ensures var h := Claimed(s.ram, name).1; Inv(s.(ram := h)) && SameValues(s.ram, s.disk, h, s.disk)
  {
    hide Find;
    ClaimOk(s.ram, name);
    if s.sync == Attached {
      SavedTransitive(Claimed(s.ram, name).1, s.ram, Load(s.disk));
    }
  }

  /** Nor does a data write past the allocated data, complete or not. */
  lemma DataKeeps(s: Store, off: nat, data: seq<Byte>, budget: nat)
    requires Inv(s) && s.ram.next <= off && off + |data| <= END
    ensures var d := Written(s.disk, off, data, budget).1;
            && Inv(s.(disk := d)) && SameValues(s.ram, s.disk, s.ram, d)
  {
    hide Written, Find;
    var d := Written(s.disk, off, data, budget).1;
    DataWriteKeeps(s.disk, off, data, budget);
    assert Load(d) == Load(s.disk);
    forall n | NameOk(n)
      ensures Value(s.ram, d, n) == Value(s.ram, s.disk, n)
    {
      var k := Find(s.ram, n);
      assert k != -1 ==> Live(s.ram.entries[k]) && Placed(s.ram.entries[k], s.ram.next);
    }
  }

  lemma FiledIs(s: Store, name: seq<Byte>, data: seq<Byte>, f: Faults)
    requires Usable(s) && Reaches(s, name, data, f)
    ensures WriteName(s, name, data, f)
         == Persist(Filed(Claimed(s.ram, name).1, Claimed(s.ram, name).0, name, Aligned(s.ram.next), |data|),
                    Written(s.disk, Aligned(s.ram.next), data, f.data).1, f.index)
  {
  }

  /** A write that gets as far as the index sets its name and nothing else. */
  lemma FiledKeeps(h: Header, disk: seq<Byte>, k: nat, name: seq<Byte>, off: nat, data: seq<Byte>, budget: nat)
    requires |disk| == CAPACITY && IndexOk(h) && NameOk(name) && k < h.count && data != []
    requires forall j :: 0 <= j < ENTRIES && j != k && Live(h.entries[j]) ==> CStr(h.entries[j].field) != name
    requires h.entries[k] == BLANK || CStr(h.entries[k].field) == name
    requires off % PAGE == 0 && h.next <= off && off + |data| <= END && disk[off..off + |data|] == data
    ensures var g := Filed(h, k, name, off, |data|);
            var t := Persist(g, disk, budget).1;
            && Inv(t)
            && Value(t.ram, t.disk, name) == Some(data)
            && forall n :: NameOk(n) && n != name ==> Value(t.ram, t.disk, n) == Value(h, disk, n)
  {
    hide EncodeHeader, Written, Filed, Value;
    var g := Filed(h, k, name, off, |data|);
    FiledOk(h, k, name, off, |data|);
    PersistInv(g, disk, budget);
    FiledValue(h, disk, k, name, off, data, budget);
    forall n | NameOk(n) && n != name
      ensures Value(g, Persist(g, disk, budget).1.disk, n) == Value(h, disk, n)
    {
      OthersKeep(h, disk, k, name, off, data, budget, n);
    }
  }

  lemma PersistInv(g: Header, disk: seq<Byte>, budget: nat)
    requires |disk| == CAPACITY && IndexOk(g)
    ensures Inv(Persist(g, disk, budget).1)
  {
    hide EncodeHeader, Written, Load;
    IndexWriteKeeps(disk, g, budget);
  }

  lemma FiledValue(h: Header, disk: seq<Byte>, k: nat, name: seq<Byte>, off: nat, data: seq<Byte>, budget: nat)
    requires |disk| == CAPACITY && IndexOk(h) && NameOk(name) && k < h.count
    requires DATA <= off && off + |data| <= END && disk[off..off + |data|] == data
    requires IndexOk(Filed(h, k, name, off, |data|))
    ensures var g := Filed(h, k, name, off, |data|);
            Value(g, Persist(g, disk, budget).1.disk, name) == Some(data)
  {
    hide EncodeHeader, Written, IndexOk, Find, Field, CStr;
    IndexCount(h);
    var g := Filed(h, k, name, off, |data|);
    IndexCount(g);
    IndexWriteKeeps(disk, g, budget);
    FieldKeepsName(name);
    FindIs(g, name, k);
  }

  lemma IndexCount(h: Header)
    requires IndexOk(h)
    ensures Sized(h) && h.count <= ENTRIES == |h.entries|
  {
  }

  lemma OthersKeep(h: Header, disk: seq<Byte>, k: nat, name: seq<Byte>, off: nat, data: seq<Byte>, budget: nat,
                   n: seq<Byte>)
    requires |disk| == CAPACITY && IndexOk(h) && NameOk(name) && NameOk(n) && n != name && k < h.count
    requires h.entries[k] == BLANK || CStr(h.entries[k].field) == name
    requires IndexOk(Filed(h, k, name, off, |data|))
    ensures var g := Filed(h, k, name, off, |data|);
            Value(g, Persist(g, disk, budget).1.disk, n) == Value(h, disk, n)
  {
    hide EncodeHeader, Written;
    var g := Filed(h, k, name, off, |data|);
    IndexWriteKeeps(disk, g, budget);
    FiledFind(h, k, name, off, |data|, n);
    var i := Find(h, n);
    assert i != -1 ==> Live(h.entries[i]) && Placed(h.entries[i], h.next);
  }

  /** What the write leaves when it does not get as far as the index. */
  lemma UnfiledIs(s: Store, name: seq<Byte>, data: seq<Byte>, f: Faults)
    requires Usable(s) && !Reaches(s, name, data, f)
    ensures var r, h, off := WriteName(s, name, data, f), Claimed(s.ram, name).1, Aligned(s.ram.next);
            && r.0 < 0
            && (r.1 == s
                || (!Full(s.ram, name)
                    && (r.1 == s.(ram := h)
                        || (off + |data| <= END
                            && r.1 == Store(h, Written(s.disk, off, data, f.data).1, Damaged(s.sync))))))
  {
  }

  lemma DamagedInv(s: Store)
    requires Inv(s)
    ensures Inv(s.(sync := Damaged(s.sync)))
  {
  }

  lemma SameSelf(s: Store)
    requires Usable(s)
    ensures SameValues(s.ram, s.disk, s.ram, s.disk)
  {
  }

  lemma UnfiledKeeps(s: Store, name: seq<Byte>, data: seq<Byte>, f: Faults)
    requires Inv(s) && NameOk(name) && !Reaches(s, name, data, f)
    ensures var t := WriteName(s, name, data, f).1; Inv(t) && SameValues(s.ram, s.disk, t.ram, t.disk)
  {
    hide Written, Value, WriteName, Inv, Reaches, Aligned;
    InvUsable(s);
    SameSelf(s);
    UnfiledIs(s, name, data, f);
    if !Full(s.ram, name) {
      ClaimKeeps(s, name);
      var h, off := Claimed(s.ram, name).1, Aligned(s.ram.next);
      if off + |data| <= END {
        DataKeeps(s.(ram := h), off, data, f.data);
        DamagedInv(s.(ram := h, disk := Written(s.disk, off, data, f.data).1));
      }
    }
  }

  lemma ReachedKeeps(s: Store, name: seq<Byte>, data: seq<Byte>, f: Faults)
    requires Inv(s) && NameOk(name) && Reaches(s, name, data, f)
    ensures var t := WriteName(s, name, data, f).1;
            && Inv(t) && Value(t.ram, t.disk, name) == Some(data)
            && forall n :: NameOk(n) && n != name ==> Value(t.ram, t.disk, n) == Value(s.ram, s.disk, n)
  {
    hide Written, Value, WriteName, Persist, Saved;
    var c, off := Claimed(s.ram, name), Aligned(s.ram.next);
    var d := Written(s.disk, off, data, f.data).1;
    ClaimOk(s.ram, name);
    ClaimKeeps(s, name);
    DataKeeps(s.(ram := c.1), off, data, f.data);
    FiledIs(s, name, data, f);
    FiledKeeps(c.1, d, c.0, name, off, data, f.index);
  }

  /** One write: the invariant stays; if it reached the index its name now has the new bytes,
      and no other name changed; otherwise no name changed at all. */
  lemma WriteKeeps(s: Store, name: seq<Byte>, data: seq<Byte>, f: Faults)
    requires Inv(s) && NameOk(name)
    ensures var t := WriteName(s, name, data, f).1;
            && Inv(t)
            && forall n :: NameOk(n) ==>
                 Value(t.ram, t.disk, n)
                 == if n == name && Reaches(s, name, data, f) then Some(data) else Value(s.ram, s.disk, n)
  {
    hide Written, Value, WriteName, Inv;
    InvUsable(s);
    if Reaches(s, name, data, f) {
      ReachedKeeps(s, name, data, f);
    } else {
      UnfiledKeeps(s, name, data, f);
    }
  }

  /** A new name whose write fails before the index keeps the slot it took, without a name. */
  lemma FailedNewNameTakesSlot(s: Store, name: seq<Byte>, data: seq<Byte>, f: Faults)
    requires Inv(s) && NameOk(name) && data != [] && Find(s.ram, name) == -1 && s.ram.count < ENTRIES
    requires !Reaches(s, name, data, f)
    ensures var t := WriteName(s, name, data, f).1;
            t.ram == s.ram.(count := s.ram.count + 1) && t.ram.entries[s.ram.count] == BLANK
  {
  }

  /** Every way a write ends, by the room there is and by where the device fails. */
  lemma WriteStatus(s: Store, name: seq<Byte>, data: seq<Byte>, f: Faults)
    requires Usable(s)
    ensures var (rc, t) := WriteName(s, name, data, f);
            var off := (s.ram.next + 4095) / 4096 * 4096;
            if data == [] then rc == -22 && t == s
            else if Find(s.ram, name) == -1 && s.ram.count == 16 then rc == -28 && t == s
            else if off + |data| > 268 * 1024 * 1024 then rc == -28 && t.disk == s.disk && t.sync == s.sync
            else if f.data < Price(off, |data|) then rc == -5 && t.sync == (if s.sync == Detached then Torn else s.sync)
            else if f.index < Price(256 * 1024 * 1024, 1304) then rc == -5 && t.sync == Torn
            else rc == 0 && t.sync == Attached
  {
    hide Find, EncodeHeader, Price, Reached, Field;
    var off := Aligned(s.ram.next);
    CompleteIff(off, |data|, f.data);
    CompleteIff(OFFSET, HEADER, f.index);
  }

  // ---- reboots and runs -------------------------------------------------------------

  /** Dropping the cached index and reading it again loses nothing. */
  lemma ReloadKeeps(s: Store)
    requires Inv(s) && s.sync == Attached
    ensures Inv(s.(ram := Load(s.disk))) && SameValues(s.ram, s.disk, Load(s.disk), s.disk)
  {
    hide Load;
    BlankNotLive();
    var l := Load(s.disk);
    assert l.entries == s.ram.entries;
    forall n | NameOk(n)
      ensures Find(l, n) == Find(s.ram, n)
    {
      var k := Find(s.ram, n);
      if k != -1 {
        assert Live(s.ram.entries[k]);
        FindIs(l, n, k);
      } else {
        assert forall j :: 0 <= j < l.count ==> !Matches(l.entries[j].field, n);
      }
    }
  }

  /** The index can be read when no sector of it fails. */
  predicate Readable(budget: nat) {
    budget >= Sectors(OFFSET, HEADER)
  }

  /** rwbinstore_reinit, over a device that may fail: an unreadable index counts as empty. */
  function Reload(s: Store, budget: nat): (t: Store)
    requires |s.disk| == CAPACITY
  {
    if Readable(budget) then s.(ram := Load(s.disk), sync := if s.sync == Torn then Torn else Attached)
    else s.(ram := EmptyIndex(), sync := if s.sync == Torn then Torn else Detached)
  }

  /** The index takes three sectors; reading it brings memory and disk together again unless the
      disk is torn, and failing to sets them apart. */
  lemma ReloadStatus(s: Store, budget: nat)
    requires |s.disk| == CAPACITY
    ensures var t := Reload(s, budget);
            && t.disk == s.disk && t.ram == (if budget >= 3 then Load(s.disk) else EmptyIndex())
            && t.sync == if s.sync == Torn then Torn else if budget >= 3 then Attached else Detached
  {
    hide Load, EmptyIndex, Sectors;
    IndexTakesThree();
  }

  lemma IndexTakesThree()
    ensures Sectors(OFFSET, HEADER) == 3
  {
    hide Sectors;
    SectorsAre(OFFSET, HEADER);
    assert OFFSET == 524288 * 512;
  }

  lemma ReloadInv(s: Store, budget: nat)
    requires Inv(s) && (s.sync != Torn || !Readable(budget))
    ensures Inv(Reload(s, budget)) && Usable(Reload(s, budget))
  {
    hide Readable, Load;
    BlankNotLive();
    if s.sync == Attached {
      ReloadKeeps(s);
    }
  }

  lemma NothingInEmpty(disk: seq<Byte>, n: seq<Byte>)
    ensures Value(EmptyIndex(), disk, n) == None
  {
  }

  /** Every name keeps its bytes over a reload if and only if the index can be read or there
      is no name. */
  lemma ReloadKeepsIff(s: Store, budget: nat)
    requires Inv(s) && s.sync == Attached
    ensures var t := Reload(s, budget);
            SameValues(s.ram, s.disk, t.ram, t.disk)
            <==> Readable(budget) || forall n :: NameOk(n) ==> Value(s.ram, s.disk, n) == None
  {
    hide Readable, Value, Load;
    InvUsable(s);
    var t := Reload(s, budget);
    if Readable(budget) {
      ReloadKeeps(s);
    } else {
      forall n
        ensures Value(t.ram, t.disk, n) == None
      {
        NothingInEmpty(t.disk, n);
      }
      if SameValues(s.ram, s.disk, t.ram, t.disk) {
        assert forall n :: NameOk(n) ==> Value(s.ram, s.disk, n) == Value(t.ram, t.disk, n);
      }
    }
  }

  /** And the next write that is filed after an unreadable index makes the loss permanent: it
      goes to the start of the data, over what was there, and its index has its name only. */
  lemma FailedReloadThenWrite(s: Store, budget: nat, name: seq<Byte>, data: seq<Byte>, f: Faults)
    requires Inv(s) && !Readable(budget) && NameOk(name)
    requires Usable(Reload(s, budget)) && Reaches(Reload(s, budget), name, data, f)
    requires WriteName(Reload(s, budget), name, data, f).0 == 0
    ensures var t := WriteName(Reload(s, budget), name, data, f).1;
            && Usable(t) && t.sync == Attached && t.disk[DATA..DATA + |data|] == data
            && forall n :: NameOk(n) ==>
                 Value(Load(t.disk), t.disk, n) == Value(t.ram, t.disk, n) == if n == name then Some(data) else None
  {
    hide Readable, Value, Load, Written, EncodeHeader, Inv, Reaches, WriteName;
    var r := Reload(s, budget);
    ReloadInv(s, budget);
    WriteKeeps(r, name, data, f);
    var t := WriteName(r, name, data, f).1;
    InvUsable(t);
    FiledWhere(r, name, data, f);
    ReloadKeeps(t);
    forall n | NameOk(n)
      ensures Value(t.ram, t.disk, n) == if n == name then Some(data) else None
    {
      NothingInEmpty(r.disk, n);
    }
  }

  /** A filed write that succeeds is attached, and its data is at the aligned cursor. */
  lemma FiledWhere(s: Store, name: seq<Byte>, data: seq<Byte>, f: Faults)
    requires Usable(s) && Reaches(s, name, data, f) && WriteName(s, name, data, f).0 == 0 && s.ram.next >= DATA
    ensures var t, off := WriteName(s, name, data, f).1, Aligned(s.ram.next);
            && t.sync == Attached && |t.disk| == CAPACITY && off + |data| <= END && t.disk[off..off + |data|] == data
  {
    hide Aligned, WriteName, Written, EncodeHeader, Find;
    var off := Aligned(s.ram.next);
    var h := Filed(Claimed(s.ram, name).1, Claimed(s.ram, name).0, name, off, |data|);
    var d := Written(s.disk, off, data, f.data).1;
    FiledIs(s, name, data, f);
    IndexWriteKeepsData(d, h, f.index, off, |data|);
  }

  lemma IndexWriteKeepsData(disk: seq<Byte>, h: Header, budget: nat, off: nat, size: nat)
    requires |disk| == CAPACITY && Sized(h) && DATA <= off && off + size <= CAPACITY
    ensures var w := Written(disk, OFFSET, EncodeHeader(h), budget).1;
            |w| == CAPACITY && w[off..off + size] == disk[off..off + size]
  {
    hide Written, EncodeHeader;
  }

  datatype Op = Put(name: seq<Byte>, data: seq<Byte>, faults: Faults) | Reboot(budget: nat)

  /** Names within the promise, and no index read back from a torn disk. */
  predicate Allowed(s: Store, op: Op) {
    if op.Put? then NameOk(op.name) else s.sync != Torn || !Readable(op.budget)
  }

  function Step(s: Store, op: Op): (t: Store)
    requires Usable(s)
  {
    if op.Put? then WriteName(s, op.name, op.data, op.faults).1 else Reload(s, op.budget)
  }

  /** What the callers should get for each name, and what they would get after a reload. */
  datatype Belief = Belief(now: map<seq<Byte>, seq<Byte>>, later: map<seq<Byte>, seq<Byte>>)

  /** A filed write counts at once, and for later when its index was saved; a reload makes the
      present what was saved, or nothing. */
  function Expect(m: Belief, s: Store, op: Op): (n: Belief)
    requires Usable(s)
  {
    match op
    case Put(name, data, faults) =>
      if !Reaches(s, name, data, faults) then m
      else Belief(m.now[name := data], if WriteName(s, name, data, faults).0 == 0 then m.now[name := data] else m.later)
    case Reboot(budget) => Belief(if Readable(budget) then m.later else map[], m.later)
  }

  ghost predicate Shows(h: Header, disk: seq<Byte>, m: map<seq<Byte>, seq<Byte>>)
    requires h.count <= |h.entries|
  {
    forall n :: NameOk(n) ==> Value(h, disk, n) == if n in m then Some(m[n]) else None
  }

  ghost predicate Holds(s: Store, m: Belief)
    requires Usable(s)
  {
    && Shows(s.ram, s.disk, m.now)
    && (s.sync == Attached ==> m.later == m.now)
    && (s.sync == Detached ==> Shows(Load(s.disk), s.disk, m.later))
  }

  /** What is saved shows through the disk alone. */
  lemma LaterShows(s: Store, m: Belief)
    requires Inv(s) && Usable(s) && Holds(s, m) && s.sync != Torn
    ensures Shows(Load(s.disk), s.disk, m.later)
  {
    hide Value, Load, Saved, IndexOk;
    if s.sync == Attached {
      ReloadKeeps(s);
    }
  }

  lemma PutHolds(s: Store, m: Belief, op: Op)
    requires Inv(s) && Usable(s) && Holds(s, m) && op.Put? && NameOk(op.name)
    ensures Inv(Step(s, op)) && Usable(Step(s, op)) && Holds(Step(s, op), Expect(m, s, op))
  {
    hide Value, Inv, WriteName, Reaches, Load;
    var t := Step(s, op);
    WriteKeeps(s, op.name, op.data, op.faults);
    InvUsable(t);
    PutSync(s, op.name, op.data, op.faults);
  }

  /** Where a write leaves the two copies of the index. */
  lemma PutSync(s: Store, name: seq<Byte>, data: seq<Byte>, f: Faults)
    requires Usable(s)
    ensures var r := WriteName(s, name, data, f);
            if Reaches(s, name, data, f) then r.1.sync == if r.0 == 0 then Attached else Torn
            else r.1.sync == Torn || (r.1.sync == s.sync && (s.sync == Detached ==> r.1.disk == s.disk))
  {
    hide Written, EncodeHeader;
  }

  lemma StepHolds(s: Store, m: Belief, op: Op)
    requires Inv(s) && Usable(s) && Holds(s, m) && Allowed(s, op)
    ensures Inv(Step(s, op)) && Usable(Step(s, op)) && Holds(Step(s, op), Expect(m, s, op))
  {
    hide Value, Inv, WriteName, Reaches, Load, Readable;
    if op.Put? {
      PutHolds(s, m, op);
    } else {
      ReloadInv(s, op.budget);
      if s.sync != Torn {
        LaterShows(s, m);
      }
      forall n
        ensures Value(EmptyIndex(), s.disk, n) == None
      {
        NothingInEmpty(s.disk, n);
      }
    }
  }

  ghost predicate AllowedRun(s: Store, ops: seq<Op>)
    decreases |ops|
  {
    ops == [] || (Usable(s) && Allowed(s, ops[0]) && AllowedRun(Step(s, ops[0]), ops[1..]))
  }

  ghost function Run(s: Store, ops: seq<Op>): (t: Store)
    requires AllowedRun(s, ops)
    decreases |ops|
  {
    if ops == [] then s else Run(Step(s, ops[0]), ops[1..])
  }

  ghost function Expected(m: Belief, s: Store, ops: seq<Op>): (n: Belief)
    requires AllowedRun(s, ops)
    decreases |ops|
  {
    if ops == [] then m else Expected(Expect(m, s, ops[0]), Step(s, ops[0]), ops[1..])
  }

  /** In every run of writes and reboots over a device that may fail at any of them, the store
      holds for every name its latest filed write since the last unreadable index; live
      extents stay page-aligned, inside the region and disjoint. */
  lemma {:induction false} RunHolds(s: Store, m: Belief, ops: seq<Op>)
    requires Inv(s) && Usable(s) && Holds(s, m) && AllowedRun(s, ops)
    ensures var t := Run(s, ops); Inv(t) && Usable(t) && Holds(t, Expected(m, s, ops))
    decreases |ops|
  {
    hide Inv, Usable, Holds, Step;
    if ops != [] {
      StepHolds(s, m, ops[0]);
      RunHolds(Step(s, ops[0]), Expect(m, s, ops[0]), ops[1..]);
    }
  }

  /** From a region that was never written. */
  lemma FreshRunHolds(disk: seq<Byte>, ops: seq<Op>)
    requires |disk| == CAPACITY && MagicOf(IndexBytes(disk)) != MAGIC
    requires AllowedRun(Store(Load(disk), disk, Attached), ops)
    ensures var s := Store(Load(disk), disk, Attached);
            var t := Run(s, ops);
            Inv(t) && Usable(t) && Holds(t, Expected(Belief(map[], map[]), s, ops))
  {
    var s := Store(Load(disk), disk, Attached);
    FreshInv(disk);
    InvUsable(s);
    forall n
      ensures Value(s.ram, disk, n) == None
    {
      NothingInEmpty(disk, n);
    }
    RunHolds(s, Belief(map[], map[]), ops);
  }

  /** And, unless the disk is torn, a reader of the disk alone sees what was saved: after a
      write that succeeded, everything the store holds. */
  lemma RunSurvivesReboot(s: Store, m: Belief, ops: seq<Op>)
    requires Inv(s) && Usable(s) && Holds(s, m) && AllowedRun(s, ops) && Run(s, ops).sync != Torn
    ensures var t, e := Run(s, ops), Expected(m, s, ops);
            |t.disk| == CAPACITY && Shows(Load(t.disk), t.disk, e.later) && (t.sync == Attached ==> e.later == e.now)
  {
    hide Inv, Value, Load;
    RunHolds(s, m, ops);
    LaterShows(Run(s, ops), Expected(m, s, ops));
  }
}

/** The store's code: the cached index and the device, changed step by step. */
module RwBinServer {
  import opened Machine
  import opened BlockDevice
  import opened RwBinFormat
  import opened RwBinStore

  class Server {
    var ram: Header
    var init: bool
    const device: Device

    constructor (d: Device)
      requires d.Valid()
      ensures device == d && !init
    {
      device, init, ram := d, false, EmptyIndex();
    }

    /** The index is cached, or will be on the next call. */
    ghost predicate Valid()
      reads this, device
    {
      device.Valid() && (init ==> Usable(Store(ram, device.bytes, Attached)))
    }

    /** rwbin_lazy_init: an index that cannot be read counts as an empty one. */
    method LazyInit(budget: nat)
      requires Valid()
      modifies this
      ensures Valid() && init
      ensures ram == if old(init) then old(ram)
                     else if budget >= Sectors(OFFSET, HEADER) then Load(device.bytes) else EmptyIndex()
    {
      hide Sectors, DecodeHeader, MagicOf;
      if init {
        return;
      }
      init := true;
      ram := EmptyIndex();
      var rc, b := device.ReadRange(OFFSET, HEADER, budget);
      if rc < 0 {
        return;
      }
      assert b == IndexBytes(device.bytes);
      if MagicOf(b) == MAGIC {
        var h := DecodeHeader(b);
        if h.count <= ENTRIES {
          ram := h;
        }
      }
    }

    /** rwbinstore_reinit. */
    method Reinit(budget: nat)
      requires Valid()
      modifies this
      ensures Valid() && init
      ensures forall sync :: ram == Reload(Store(old(ram), device.bytes, sync), budget).ram
    {
      init := false;
      LazyInit(budget);
    }

    method Search(name: seq<Byte>) returns (k: int)
      requires ram.count <= |ram.entries|
      ensures k == Find(ram, name)
    {
      var i := 0;
      while i < ram.count
        invariant 0 <= i <= ram.count
        invariant Find(ram, name) == Find(ram, name, i)
      {
        if Matches(ram.entries[i].field, name) {
          return i;
        }
        i := i + 1;
      }
      k := -1;
    }

    /** rwbinstore_read into a buffer of `cap` bytes. */
    method Read(name: seq<Byte>, cap: nat, budget: nat) returns (rc: int, out: seq<Byte>)
      requires Valid() && init
      requires forall i :: 0 <= i < ram.count ==> ram.entries[i].off + ram.entries[i].size <= CAPACITY
      ensures cap == 0 ==> rc == -22
      ensures cap > 0 && Find(ram, name) == -1 ==> rc == -2
      ensures cap > 0 && Find(ram, name) != -1 ==>
                var e, v := ram.entries[Find(ram, name)], Value(ram, device.bytes, name).value;
                var want := if e.size < cap then e.size else cap;
                if budget >= Sectors(e.off, want) then rc == want && out == v[..want] else rc == -5
    {
      out := [];
      if cap == 0 {
        return -22, out;
      }
      var k := Search(name);
      if k < 0 {
        return -2, out;
      }
      var e := ram.entries[k];
      rc, out := device.ReadRange(e.off, Min(e.size, cap), budget);
    }

    method Write(name: seq<Byte>, data: seq<Byte>, f: Faults, ghost sync: Sync) returns (rc: int, ghost after: Sync)
      requires Valid() && init
      modifies this, device
      ensures (rc, Store(ram, device.bytes, after))
           == WriteName(Store(old(ram), old(device.bytes), sync), name, data, f)
    {
      hide Written, Find, EncodeHeader, Aligned, Field;
      after := sync;
      if data == [] {
        return -22, sync;
      }
      var k := Search(name);
      if k < 0 {
        if ram.count >= ENTRIES {
          return -28, sync;
        }
        k := ram.count;
        ram := ram.(count := ram.count + 1);
      }
      var off := Aligned(ram.next);
      if off + |data| > END {
        return -28, sync;
      }
      rc := device.WriteBlock(off, data, f.data);
      if rc < 0 {
        return -5, Damaged(sync);
      }
      ram := ram.(next := off + |data|);
      ram := ram.(entries := ram.entries[k := Entry(Field(name), off, |data|)]);
      rc := device.WriteBlock(OFFSET, EncodeHeader(ram), f.index);
      after := if rc < 0 then Torn else Attached;
      rc := if rc < 0 then -5 else 0;
    }
  }
}
