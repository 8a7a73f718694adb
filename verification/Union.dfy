/**
 The /usr union (src/lucas/backends_union.c): which layer serves a name, and the merged
 directory listing.
 */
module Union {
  datatype Layer = NoLayer | Upper | Base
  /** A slot of a C name list, possibly a null pointer. */
  datatype Slot = Null | Name(text: string)

  function Resolve(upperHas: bool, whitened: bool, baseHas: bool): (l: Layer) {
    if whitened then NoLayer else if upperHas then Upper else if baseHas then Base else NoLayer
  }

  predicate Has(list: seq<Slot>, n: string) {
    Name(n) in list
  }

  /** Which layer a lookup of the name goes to. */
  function LayerOf(base: seq<Slot>, up: seq<Slot>, wh: seq<Slot>, n: string): (l: Layer) {
    Resolve(Has(up, n), Has(wh, n), Has(base, n))
  }

  /** union_copy_name: at most 15 characters. */
  function Short(n: string): (s: string)
    ensures |n| <= 15 ==> s == n
  {
    if |n| <= 15 then n else n[..15]
  }

  function Names(list: seq<Slot>): (ns: seq<string>) {
    if list == [] then []
    else Names(list[..|list| - 1]) + if list[|list| - 1].Null? then [] else [list[|list| - 1].text]
  }

  /** The base names that are neither whitened nor shadowed. */
  function Shown(base: seq<Slot>, up: seq<Slot>, wh: seq<Slot>): (ns: seq<string>) {
    if base == [] then []
    else
      var s := base[|base| - 1];
      Shown(base[..|base| - 1], up, wh) + if s.Null? || Has(wh, s.text) || Has(up, s.text) then [] else [s.text]
  }

  /** The listing before the caller's bound and the 16-byte fields cut it. */
  function Listing(base: seq<Slot>, up: seq<Slot>, wh: seq<Slot>): (ns: seq<string>) {
    Names(up) + Shown(base, up, wh)
  }

  function Cut(ns: seq<string>, max: nat): (out: seq<string>)
    ensures |out| <= max && |out| <= |ns|
    ensures forall i :: 0 <= i < |out| ==> out[i] == Short(ns[i])
  {
    seq(if |ns| <= max then |ns| else max, i requires 0 <= i < |ns| => Short(ns[i]))
  }

  // ---- the listing ------------------------------------------------------------------

  lemma {:induction false} NamesHas(list: seq<Slot>, n: string)
    ensures n in Names(list) <==> Has(list, n)
    decreases |list|
  {
    if list != [] {
      NamesHas(list[..|list| - 1], n);
      assert list == list[..|list| - 1] + [list[|list| - 1]];
    }
  }

  lemma {:induction false} ShownHas(base: seq<Slot>, up: seq<Slot>, wh: seq<Slot>, n: string)
    ensures n in Shown(base, up, wh) <==> Has(base, n) && !Has(wh, n) && !Has(up, n)
    decreases |base|
  {
    if base != [] {
      ShownHas(base[..|base| - 1], up, wh, n);
      assert base == base[..|base| - 1] + [base[|base| - 1]];
    }
  }

  predicate Found(base: seq<Slot>, up: seq<Slot>, wh: seq<Slot>, n: string) {
    LayerOf(base, up, wh, n) != NoLayer
  }

  lemma ListingHas(base: seq<Slot>, up: seq<Slot>, wh: seq<Slot>, n: string)
    ensures n in Listing(base, up, wh) <==> Has(up, n) || (Has(base, n) && !Has(wh, n))
    ensures Found(base, up, wh, n) <==> n in Listing(base, up, wh) && !Has(wh, n)
  {
    NamesHas(up, n);
    ShownHas(base, up, wh, n);
  }

  predicate Distinct(ns: seq<string>) {
    forall i, j :: 0 <= i < j < |ns| ==> ns[i] != ns[j]
  }

  lemma {:induction false} ShownDistinct(base: seq<Slot>, up: seq<Slot>, wh: seq<Slot>)
    requires Distinct(Names(base))
    ensures Distinct(Shown(base, up, wh))
    decreases |base|
  {
    if base != [] {
      var b, s := base[..|base| - 1], base[|base| - 1];
      assert Names(b) == Names(base)[..|Names(b)|];
      ShownDistinct(b, up, wh);
      if !s.Null? {
        NamesHas(b, s.text);
        ShownHas(b, up, wh, s.text);
        assert Names(base)[|Names(b)|] == s.text;
        assert s.text !in Names(b);
      }
    }
  }

  /** Layers without repeated names merge without repeated names. */
  lemma ListingDistinct(base: seq<Slot>, up: seq<Slot>, wh: seq<Slot>)
    requires Distinct(Names(base)) && Distinct(Names(up))
    ensures Distinct(Listing(base, up, wh))
  {
    ShownDistinct(base, up, wh);
    var u, s := Names(up), Shown(base, up, wh);
    forall i, j | 0 <= i < |u| && 0 <= j < |s|
      ensures u[i] != s[j]
    {
      NamesHas(up, u[i]);
      ShownHas(base, up, wh, s[j]);
      assert u[i] in u && s[j] in s;
    }
  }

  // ---- what the merge returns -------------------------------------------------------

  /** No name of the listing is cut. */
  predicate Fits(ns: seq<string>) {
    forall i :: 0 <= i < |ns| ==> |ns[i]| <= 15
  }

  lemma CutHas(ns: seq<string>, max: nat, n: string)
    requires Fits(ns)
    ensures n in Cut(ns, max) <==> exists i :: 0 <= i < |ns| && i < max && ns[i] == n
  {
    if i :| 0 <= i < |ns| && i < max && ns[i] == n {
      assert Cut(ns, max)[i] == n;
    }
  }

  /** When every name fits its field and the buffer holds them all, the merge returns exactly
      the names a lookup finds if and only if no name is both in the upper layer and
      whitened. */
  lemma MergedAgreesIff(base: seq<Slot>, up: seq<Slot>, wh: seq<Slot>, max: nat)
    requires Fits(Listing(base, up, wh)) && |Listing(base, up, wh)| <= max
    ensures (forall n :: n in Cut(Listing(base, up, wh), max) <==> Found(base, up, wh, n))
       <==> (forall n :: !(Has(up, n) && Has(wh, n)))
  {
    hide Cut, Found, Listing;
    var l := Listing(base, up, wh);
    forall n
      ensures n in Cut(l, max) <==> Has(up, n) || (Has(base, n) && !Has(wh, n))
      ensures Found(base, up, wh, n) <==> n in Cut(l, max) && !Has(wh, n)
    {
      CutHas(l, max, n);
      ListingHas(base, up, wh, n);
    }
    if n :| Has(up, n) && Has(wh, n) {
      assert n in Cut(l, max) && !Found(base, up, wh, n);
    }
  }

  /** For distinct names that fit, at any bound: merge and lookup agree if and only if the
      bound falls just before the whitened names of the listing. */
  lemma BoundedAgreesIff(base: seq<Slot>, up: seq<Slot>, wh: seq<Slot>, max: nat)
    requires Fits(Listing(base, up, wh)) && Distinct(Listing(base, up, wh))
    ensures (forall n :: n in Cut(Listing(base, up, wh), max) <==> Found(base, up, wh, n))
       <==> (forall i :: 0 <= i < |Listing(base, up, wh)| ==> (i < max <==> !Has(wh, Listing(base, up, wh)[i])))
  {
    hide Cut, Found, Listing;
    var l := Listing(base, up, wh);
    forall i | 0 <= i < |l|
      ensures l[i] in Cut(l, max) <==> i < max
      ensures Found(base, up, wh, l[i]) <==> !Has(wh, l[i])
    {
      CutHas(l, max, l[i]);
      ListingHas(base, up, wh, l[i]);
    }
    forall n | n !in l
      ensures n !in Cut(l, max) && !Found(base, up, wh, n)
    {
      CutHas(l, max, n);
      ListingHas(base, up, wh, n);
    }
  }

  /** A name of more than 15 characters is never returned, so one that a lookup finds always
      makes the two disagree. */
  lemma LongNameNeverListed(base: seq<Slot>, up: seq<Slot>, wh: seq<Slot>, max: nat, n: string)
    requires |n| > 15
    ensures n !in Cut(Listing(base, up, wh), max)
  {
    var out := Cut(Listing(base, up, wh), max);
    assert forall i :: 0 <= i < |out| ==> |out[i]| <= 15;
  }

  /** Two base names that differ only after their 15th character come out as one repeated
      name. */
  lemma LongNamesRepeat(p: string, q: string)
    requires p != q && |p| > 15 && |q| > 15 && p[..15] == q[..15]
    ensures Distinct(Names([Name(p), Name(q)]))
    ensures Cut(Listing([Name(p), Name(q)], [], []), 2) == [p[..15], p[..15]]
  {
    var one, two := [Name(p)], [Name(p), Name(q)];
    assert one[..0] == [] && two[..1] == one;
    assert Names(one) == [p];
    assert Names(two) == Names(one) + [q];
    assert Shown(one, [], []) == [p];
    assert Shown(two, [], []) == Shown(one, [], []) + [q];
    assert Listing(two, [], []) == [p, q];
  }

  /** Layers without repeated names merge without repeated names, at any bound, when every
      name fits its field. */
  lemma MergedDistinct(base: seq<Slot>, up: seq<Slot>, wh: seq<Slot>, max: nat)
    requires Distinct(Names(base)) && Distinct(Names(up)) && Fits(Listing(base, up, wh))
    ensures Distinct(Cut(Listing(base, up, wh), max))
  {
    ListingDistinct(base, up, wh);
  }

  // ---- the code ---------------------------------------------------------------------

  method NameIn(list: seq<Slot>, n: string) returns (found: bool)
    ensures found == Has(list, n)
  {
    var i := 0;
    while i < |list|
      invariant 0 <= i <= |list| && Name(n) !in list[..i]
    {
      if list[i] == Name(n) {
        return true;
      }
      i := i + 1;
    }
    found := false;
  }

  lemma CutSnoc(ns: seq<string>, n: string, max: nat)
    requires |ns| < max
    ensures Cut(ns + [n], max) == Cut(ns, max) + [Short(n)] && |Cut(ns, max)| == |ns|
  {
  }

  lemma CutFull(ns: seq<string>, more: seq<string>, max: nat)
    requires ns <= more && (|ns| >= max || ns == more)
    ensures Cut(more, max) == Cut(ns, max)
  {
  }

  lemma CutLength(ns: seq<string>, max: nat)
    ensures |Cut(ns, max)| == if |ns| <= max then |ns| else max
  {
  }

  /** union_merge_dents: upper names first, then the base names still showing. */
  method Merge(base: seq<Slot>, up: seq<Slot>, wh: seq<Slot>, max: nat) returns (out: seq<string>)
    ensures out == Cut(Listing(base, up, wh), max)
  {
    hide Cut;
    out := [];
    CutLength([], max);
    var i := 0;
    while i < |up| && |out| < max
      invariant 0 <= i <= |up| && out == Cut(Names(up[..i]), max)
    {
      assert up[..i + 1][..i] == up[..i];
      CutLength(Names(up[..i]), max);
      if up[i].Null? {
        assert Names(up[..i + 1]) == Names(up[..i]);
      } else {
        assert Names(up[..i + 1]) == Names(up[..i]) + [up[i].text];
        CutSnoc(Names(up[..i]), up[i].text, max);
        out := out + [Short(up[i].text)];
      }
      i := i + 1;
    }
    NamesPrefix(up, i);
    CutLength(Names(up[..i]), max);
    assert i == |up| ==> up[..i] == up;
    CutFull(Names(up[..i]), Names(up), max);
    out := MergeBase(base, up, wh, max, out);
  }

  method MergeBase(base: seq<Slot>, up: seq<Slot>, wh: seq<Slot>, max: nat, from: seq<string>) returns (out: seq<string>)
    requires from == Cut(Names(up), max)
    ensures out == Cut(Listing(base, up, wh), max)
  {
    hide Cut;
    out := from;
    var j := 0;
    assert Listing(base[..0], up, wh) == Names(up);
    while j < |base| && |out| < max
      invariant 0 <= j <= |base| && out == Cut(Listing(base[..j], up, wh), max)
    {
      ghost var l := Listing(base[..j], up, wh);
      assert base[..j + 1][..j] == base[..j];
      CutLength(l, max);
      if base[j].Null? {
        assert Listing(base[..j + 1], up, wh) == l;
      } else {
        var hidden := NameIn(wh, base[j].text);
        var shadowed := NameIn(up, base[j].text);
        if hidden || shadowed {
          assert Listing(base[..j + 1], up, wh) == l;
        } else {
          assert Listing(base[..j + 1], up, wh) == l + [base[j].text];
          CutSnoc(l, base[j].text, max);
          out := out + [Short(base[j].text)];
        }
      }
      j := j + 1;
    }
    ShownPrefix(base, up, wh, j);
    CutLength(Listing(base[..j], up, wh), max);
    assert j == |base| ==> base[..j] == base;
    CutFull(Listing(base[..j], up, wh), Listing(base, up, wh), max);
  }

  lemma {:induction false} NamesPrefix(list: seq<Slot>, i: nat)
    requires i <= |list|
    ensures Names(list[..i]) <= Names(list)
    decreases |list|
  {
    if i == |list| {
      assert list[..i] == list;
    } else {
      assert list[..|list| - 1][..i] == list[..i];
      NamesPrefix(list[..|list| - 1], i);
    }
  }

  lemma {:induction false} ShownPrefix(base: seq<Slot>, up: seq<Slot>, wh: seq<Slot>, i: nat)
    requires i <= |base|
    ensures Shown(base[..i], up, wh) <= Shown(base, up, wh)
    decreases |base|
  {
    if i == |base| {
      assert base[..i] == base;
    } else {
      assert base[..|base| - 1][..i] == base[..i];
      ShownPrefix(base[..|base| - 1], up, wh, i);
    }
  }
}
