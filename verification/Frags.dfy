/** The sorted fragment list of a receive ring. */
module Fragments {
  import opened Bytes

  datatype Frag = Frag(head: int, tail: int)

  // Sorted, non-empty intervals inside [lo, hi], with a missing octet between any two neighbours.
  ghost predicate Canonical(fs: seq<Frag>, lo: int, hi: int) {
    && (forall i :: 0 <= i < |fs| ==> lo <= fs[i].head < fs[i].tail <= hi)
    && (forall i, j :: 0 <= i < j < |fs| ==> fs[i].tail < fs[j].head)
  }

  ghost predicate Covers(fs: seq<Frag>, o: int) {
    exists i :: 0 <= i < |fs| && fs[i].head <= o < fs[i].tail
  }

  lemma InFragment(fs: seq<Frag>, i: int)
    requires 0 <= i < |fs|
    ensures forall o :: fs[i].head <= o < fs[i].tail ==> Covers(fs, o)
  {
  }

  lemma EarlierEnd(fs: seq<Frag>, lo: int, hi: int, i: int, at: int)
    requires Canonical(fs, lo, hi)
    ensures 0 <= i < |fs| && fs[i].head <= at ==> forall j :: 0 <= j < i ==> fs[j].tail < at
  {
  }

  // The fragment list exists in one form only: two canonical lists that cover the same offsets are equal.
  lemma {:induction false} CanonicalUnique(fs: seq<Frag>, gs: seq<Frag>, lo: int, hi: int)
    requires Canonical(fs, lo, hi) && Canonical(gs, lo, hi)
    requires forall o :: Covers(fs, o) <==> Covers(gs, o)
    ensures fs == gs
  {
    if fs == [] || gs == [] {
      if fs != [] { assert Covers(fs, fs[0].head); }
      if gs != [] { assert Covers(gs, gs[0].head); }
    } else {
      SameFirst(fs, gs, lo, hi);
      SameFirst(gs, fs, lo, hi);
      forall o ensures Covers(fs[1..], o) <==> Covers(gs[1..], o) {
        RestCovers(fs, lo, hi, o);
        RestCovers(gs, lo, hi, o);
      }
      CanonicalUnique(fs[1..], gs[1..], lo, hi);
    }
  }

  lemma SameFirst(fs: seq<Frag>, gs: seq<Frag>, lo: int, hi: int)
    requires Canonical(fs, lo, hi) && Canonical(gs, lo, hi) && fs != [] && gs != []
    requires forall o :: Covers(fs, o) <==> Covers(gs, o)
    ensures fs[0].head >= gs[0].head
    ensures fs[0].head == gs[0].head ==> fs[0].tail >= gs[0].tail
  {
    assert Covers(fs, fs[0].head);
    assert Covers(gs, gs[0].head);
    var t := fs[0].tail;
    assert gs[0].head <= t < gs[0].tail ==> Covers(gs, t);
    assert !Covers(fs, t) by {
      forall i | 0 <= i < |fs| ensures !(fs[i].head <= fs[0].tail < fs[i].tail) {}
    }
  }

  lemma RestCovers(fs: seq<Frag>, lo: int, hi: int, o: int)
    requires Canonical(fs, lo, hi) && fs != []
    ensures Covers(fs[1..], o) <==> Covers(fs, o) && fs[0].tail <= o
  {
    if Covers(fs[1..], o) {
      var i :| 0 <= i < |fs[1..]| && fs[1..][i].head <= o < fs[1..][i].tail;
      assert fs[i + 1].head <= o < fs[i + 1].tail;
    }
    if Covers(fs, o) && fs[0].tail <= o {
      var i :| 0 <= i < |fs| && fs[i].head <= o < fs[i].tail;
      assert fs[1..][i - 1] == fs[i];
    }
  }

  lemma CoversConcat(a: seq<Frag>, b: seq<Frag>, o: int)
    ensures Covers(a + b, o) <==> Covers(a, o) || Covers(b, o)
  {
    if Covers(a, o) {
      var j :| 0 <= j < |a| && a[j].head <= o < a[j].tail;
      assert (a + b)[j] == a[j];
    }
    if Covers(b, o) {
      var j :| 0 <= j < |b| && b[j].head <= o < b[j].tail;
      assert (a + b)[|a| + j] == b[j];
    }
  }

  // The list as: what precedes position i, n fragments from there, what follows.
  lemma CoversSplit(a: seq<Frag>, m: seq<Frag>, b: seq<Frag>, o: int)
    ensures Covers(a + m + b, o) <==> Covers(a, o) || Covers(m, o) || Covers(b, o)
  {
    CoversConcat(a, m, o);
    CoversConcat(a + m, b, o);
  }

  lemma CoversOne(f: Frag, o: int)
    ensures Covers([f], o) <==> f.head <= o < f.tail
  {
    if f.head <= o < f.tail {
      assert [f][0] == f;
    }
  }

  // Replacing the middle of a canonical list by one fragment that keeps its distance on both sides.
  lemma SpliceCanonical(fs: seq<Frag>, i: int, k: int, f: Frag, lo: int, hi: int)
    requires Canonical(fs, lo, hi) && 0 <= i <= k <= |fs| && lo <= f.head < f.tail <= hi
    requires 0 < i ==> fs[i - 1].tail < f.head
    requires k < |fs| ==> f.tail < fs[k].head
    ensures Canonical(fs[..i] + [f] + fs[k..], lo, hi)
  {
    SpliceElements(fs, i, k, f);
    hide *;
    ElementsCanonical(fs, i, k, f, fs[..i] + [f] + fs[k..], lo, hi);
  }

  // Element p of the spliced list.
  function SplicedAt(fs: seq<Frag>, i: int, k: int, f: Frag, p: int): Frag
    requires 0 <= i <= k <= |fs| && 0 <= p <= i + |fs| - k
  {
    if p < i then fs[p] else if p == i then f else fs[p - i - 1 + k]
  }

  lemma SpliceElements(fs: seq<Frag>, i: int, k: int, f: Frag)
    requires 0 <= i <= k <= |fs|
    ensures var gs := fs[..i] + [f] + fs[k..];
            |gs| == i + 1 + |fs| - k && forall p :: 0 <= p < |gs| ==> gs[p] == SplicedAt(fs, i, k, f, p)
  {
  }

  lemma ElementsCanonical(fs: seq<Frag>, i: int, k: int, f: Frag, gs: seq<Frag>, lo: int, hi: int)
    requires Canonical(fs, lo, hi) && 0 <= i <= k <= |fs| && lo <= f.head < f.tail <= hi
    requires 0 < i ==> fs[i - 1].tail < f.head
    requires k < |fs| ==> f.tail < fs[k].head
    requires |gs| == i + 1 + |fs| - k && forall p :: 0 <= p < |gs| ==> gs[p] == SplicedAt(fs, i, k, f, p)
    ensures Canonical(gs, lo, hi)
  {
  }

  // What the splice covers: the old offsets outside the cut fragments, and the new fragment.
  lemma SpliceCovers(fs: seq<Frag>, i: int, k: int, f: Frag, o: int)
    requires 0 <= i <= k <= |fs|
    ensures Covers(fs, o) <==> Covers(fs[..i], o) || Covers(fs[i..k], o) || Covers(fs[k..], o)
    ensures Covers(fs[..i] + [f] + fs[k..], o) <==> Covers(fs[..i], o) || f.head <= o < f.tail || Covers(fs[k..], o)
  {
    assert fs == fs[..i] + fs[i..k] + fs[k..];
    CoversSplit(fs[..i], fs[i..k], fs[k..], o);
    CoversSplit(fs[..i], [f], fs[k..], o);
    CoversOne(f, o);
  }

  // Nothing left of position i reaches its head, nothing from k on starts before its own head.
  lemma SidesApart(fs: seq<Frag>, i: int, k: int, lo: int, hi: int, o: int)
    requires Canonical(fs, lo, hi) && 0 <= i <= k <= |fs|
    ensures Covers(fs[..i], o) && 0 < i ==> o < fs[i - 1].tail
    ensures Covers(fs[..i], o) ==> 0 < i
    ensures Covers(fs[k..], o) ==> k < |fs| && fs[k].head <= o
    ensures Covers(fs[..i], o) && i < |fs| ==> o < fs[i].head
    ensures Covers(fs[k..], o) && 0 < k ==> fs[k - 1].tail <= o
  {
    if Covers(fs[..i], o) {
      var j :| 0 <= j < |fs[..i]| && fs[..i][j].head <= o < fs[..i][j].tail;
      assert fs[j] == fs[..i][j];
    }
    if Covers(fs[k..], o) {
      var j :| 0 <= j < |fs[k..]| && fs[k..][j].head <= o < fs[k..][j].tail;
      assert fs[k + j] == fs[k..][j];
    }
  }

  // 'f' grows by n octets at its tail; if it then touches 'fnext', the two become one.
  function GrowRight(fs: seq<Frag>, i: int, n: int): seq<Frag>
    requires 0 <= i < |fs|
  {
    var f := Frag(fs[i].head, fs[i].tail + n);
    if i + 1 < |fs| && f.tail == fs[i + 1].head
    then fs[..i] + [Frag(f.head, fs[i + 1].tail)] + fs[i + 2..]
    else fs[..i] + [f] + fs[i + 1..]
  }

  lemma GrowRightCoversAt(fs: seq<Frag>, i: int, n: int, lo: int, hi: int, o: int)
    requires Canonical(fs, lo, hi) && 0 <= i < |fs| && 0 < n
    requires if i + 1 < |fs| then fs[i].tail + n <= fs[i + 1].head else fs[i].tail + n <= hi
    ensures Covers(GrowRight(fs, i, n), o) <==> Covers(fs, o) || fs[i].tail <= o < fs[i].tail + n
    ensures fs[i].tail <= o < fs[i].tail + n ==> !Covers(fs, o)
  {
    assert i + 2 < |fs| ==> fs[i + 1].tail < fs[i + 2].head;
    assert i + 1 < |fs| ==> fs[i + 1].head < fs[i + 1].tail;
    assert fs[i].head < fs[i].tail;
    hide Canonical, Covers;
    var merged := i + 1 < |fs| && fs[i].tail + n == fs[i + 1].head;
    var k := if merged then i + 2 else i + 1;
    SpliceCovers(fs, i, k, Frag(fs[i].head, if merged then fs[i + 1].tail else fs[i].tail + n), o);
    SidesApart(fs, i, k, lo, hi, o);
    CoversOne(fs[i], o);
    if merged {
      assert fs[i..k] == [fs[i]] + [fs[i + 1]];
      CoversConcat([fs[i]], [fs[i + 1]], o);
      CoversOne(fs[i + 1], o);
    } else {
      assert fs[i..k] == [fs[i]];
    }
  }

  lemma GrowRightCovers(fs: seq<Frag>, i: int, n: int, lo: int, hi: int)
    requires Canonical(fs, lo, hi) && 0 <= i < |fs| && 0 < n
    requires if i + 1 < |fs| then fs[i].tail + n <= fs[i + 1].head else fs[i].tail + n <= hi
    ensures Canonical(GrowRight(fs, i, n), lo, hi) && i < |GrowRight(fs, i, n)|
    ensures forall o :: Covers(GrowRight(fs, i, n), o) <==> Covers(fs, o) || fs[i].tail <= o < fs[i].tail + n
    ensures var g := GrowRight(fs, i, n)[i]; g.head == fs[i].head && fs[i].tail + n <= g.tail
    ensures forall o :: fs[i].tail <= o < fs[i].tail + n ==> !Covers(fs, o)
  {
    var merged := i + 1 < |fs| && fs[i].tail + n == fs[i + 1].head;
    var k := if merged then i + 2 else i + 1;
    var g := Frag(fs[i].head, if merged then fs[i + 1].tail else fs[i].tail + n);
    SpliceCanonical(fs, i, k, g, lo, hi);
    assert fs[i].tail + n <= g.tail;
    assert GrowRight(fs, i, n) == fs[..i] + [g] + fs[k..];
    hide Canonical, Covers, GrowRight;
    forall o
      ensures Covers(GrowRight(fs, i, n), o) <==> Covers(fs, o) || fs[i].tail <= o < fs[i].tail + n
      ensures fs[i].tail <= o < fs[i].tail + n ==> !Covers(fs, o)
    {
      GrowRightCoversAt(fs, i, n, lo, hi, o);
    }
  }

  // 'f' grows by n octets at its head.
  function GrowLeft(fs: seq<Frag>, i: int, n: int): seq<Frag>
    requires 0 <= i < |fs|
  {
    fs[..i] + [Frag(fs[i].head - n, fs[i].tail)] + fs[i + 1..]
  }

  lemma GrowLeftCovers(fs: seq<Frag>, i: int, n: int, lo: int, hi: int)
    requires Canonical(fs, lo, hi) && 0 <= i < |fs| && 0 < n && lo <= fs[i].head - n
    requires 0 < i ==> fs[i - 1].tail < fs[i].head - n
    ensures Canonical(GrowLeft(fs, i, n), lo, hi) && i < |GrowLeft(fs, i, n)|
    ensures GrowLeft(fs, i, n)[i] == Frag(fs[i].head - n, fs[i].tail)
    ensures forall o :: Covers(GrowLeft(fs, i, n), o) <==> Covers(fs, o) || fs[i].head - n <= o < fs[i].head
    ensures forall o :: fs[i].head - n <= o < fs[i].head ==> !Covers(fs, o)
  {
    var g := Frag(fs[i].head - n, fs[i].tail);
    SpliceCanonical(fs, i, i + 1, g, lo, hi);
    forall o
      ensures Covers(GrowLeft(fs, i, n), o) <==> Covers(fs, o) || fs[i].head - n <= o < fs[i].head
      ensures fs[i].head - n <= o < fs[i].head ==> !Covers(fs, o)
    {
      SpliceCovers(fs, i, i + 1, g, o);
      SidesApart(fs, i, i + 1, lo, hi, o);
      assert fs[i..i + 1] == [fs[i]];
      CoversOne(fs[i], o);
    }
  }

  lemma InsertCovers(fs: seq<Frag>, i: int, f: Frag, lo: int, hi: int)
    requires Canonical(fs, lo, hi) && 0 <= i <= |fs| && lo <= f.head < f.tail <= hi
    requires 0 < i ==> fs[i - 1].tail < f.head
    requires i < |fs| ==> f.tail < fs[i].head
    ensures Canonical(fs[..i] + [f] + fs[i..], lo, hi)
    ensures forall o :: Covers(fs[..i] + [f] + fs[i..], o) <==> Covers(fs, o) || f.head <= o < f.tail
    ensures forall o :: f.head <= o < f.tail ==> !Covers(fs, o)
  {
    SpliceCanonical(fs, i, i, f, lo, hi);
    forall o
      ensures Covers(fs[..i] + [f] + fs[i..], o) <==> Covers(fs, o) || f.head <= o < f.tail
      ensures f.head <= o < f.tail ==> !Covers(fs, o)
    {
      SpliceCovers(fs, i, i, f, o);
      SidesApart(fs, i, i, lo, hi, o);
    }
  }

  // tcprb_ffhead on the list: the first fragment loses its first n octets, or goes away altogether.
  function CutFirst(fs: seq<Frag>, n: int): seq<Frag>
    requires fs != []
  {
    if fs[0].tail - fs[0].head == n then fs[1..] else [Frag(fs[0].head + n, fs[0].tail)] + fs[1..]
  }

  lemma CutFirstCanonical(fs: seq<Frag>, n: int, hi: int, hi': int)
    requires fs != [] && Canonical(fs, fs[0].head, hi) && 0 <= n <= fs[0].tail - fs[0].head && hi <= hi'
    ensures Canonical(CutFirst(fs, n), fs[0].head + n, hi')
  {
  }

  lemma CutFirstCovers(fs: seq<Frag>, n: int, hi: int)
    requires fs != [] && Canonical(fs, fs[0].head, hi) && 0 <= n <= fs[0].tail - fs[0].head
    ensures forall o :: Covers(CutFirst(fs, n), o) <==> Covers(fs, o) && fs[0].head + n <= o
  {
    var f := Frag(fs[0].head + n, fs[0].tail);
    forall o ensures Covers(CutFirst(fs, n), o) <==> Covers(fs, o) && fs[0].head + n <= o {
      SpliceCovers(fs, 0, 1, f, o);
      SidesApart(fs, 0, 1, fs[0].head, hi, o);
      assert fs[0..1] == [fs[0]] && fs[..0] + [f] + fs[1..] == [f] + fs[1..];
      CoversOne(fs[0], o);
    }
  }
}
