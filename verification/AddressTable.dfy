/** The address table that a scheduler stands for, and how it is edited. */
module AddressTable {
  import opened Weights

  /** The first index of an address, or the length of the table. */
  function IndexOf(t: seq<Entry>, a: Address): (i: nat)
    ensures i <= |t| && (i < |t| ==> t[i].address == a) && forall k :: 0 <= k < i ==> t[k].address != a
  {
    if t == [] then 0 else if t[0].address == a then 0 else 1 + IndexOf(t[1..], a)
  }

  /** All but the element at one index. */
  function Cut<T>(s: seq<T>, at: nat): seq<T>
    requires at < |s|
  {
    s[..at] + s[at+1..]
  }

  lemma CutTail<T>(s: seq<T>, at: nat)
    requires 0 < at < |s|
    ensures Cut(s, at)[0] == s[0] && Cut(s, at)[1..] == Cut(s[1..], at - 1)
    ensures Cut(s, at) == [s[0]] + Cut(s[1..], at - 1)
  {
  }

  lemma CutAt<T>(s: seq<T>, at: nat, k: nat)
    requires at < |s|
    ensures k < |s| - 1 ==> Cut(s, at)[k] == s[if k < at then k else k + 1]
  {
  }

  lemma CutLast<T>(s: seq<T>, x: T)
    ensures Cut(s + [x], |s|) == s
  {
  }

  /** A zero weight removes the address, another one replaces its weight or appends it. */
  function Edited(t: seq<Entry>, e: Entry): seq<Entry> {
    var i := IndexOf(t, e.address);
    if e.weight == 0 then (if i < |t| then Cut(t, i) else t)
    else if i < |t| then t[i := e] else t + [e]
  }

  /** The last entry of an address counts, at its place; zero weights are skipped. */
  function Loaded(list: seq<Entry>): seq<Entry> {
    if list == [] then []
    else
      var t, e := Loaded(list[..|list|-1]), list[|list|-1];
      if e.weight == 0 then t else Edited(t, e.(weight := 0)) + [e]
  }

  predicate Distinct(t: seq<Entry>) { forall j, k :: 0 <= j < k < |t| ==> t[j].address != t[k].address }

  predicate Weighty(t: seq<Entry>) { forall k :: 0 <= k < |t| ==> t[k].weight > 0 }

  function WeightsOf(t: seq<Entry>): (ws: seq<nat>)
    ensures |ws| == |t| && forall k :: 0 <= k < |t| ==> ws[k] == t[k].weight
  {
    seq(|t|, k requires 0 <= k < |t| => t[k].weight)
  }

  /** The entries whose weight is not zero. */
  function Heavy(t: seq<Entry>): seq<Entry> {
    if t == [] then [] else (if t[0].weight == 0 then [] else [t[0]]) + Heavy(t[1..])
  }

  lemma {:induction false} HeavyOn(s: seq<Entry>, t: seq<Entry>)
    ensures Heavy(s + t) == Heavy(s) + Heavy(t)
  {
    if s == [] {
      assert s + t == t;
    } else {
      assert (s + t)[1..] == s[1..] + t;
      HeavyOn(s[1..], t);
    }
  }

  lemma HeavyLast(t: seq<Entry>, e: Entry)
    ensures Heavy(t + [e]) == if e.weight == 0 then Heavy(t) else Heavy(t) + [e]
  {
    HeavyOn(t, [e]);
    assert [e][1..] == [];
  }

  lemma {:induction false} HeavySame(t: seq<Entry>)
    requires Weighty(t)
    ensures Heavy(t) == t
  {
    if t != [] { HeavySame(t[1..]); }
  }

  lemma {:induction false} HeavyIsWeighty(t: seq<Entry>)
    ensures Weighty(Heavy(t))
  {
    if t != [] { HeavyIsWeighty(t[1..]); }
  }

  function FoldedDivisor(d: nat, w: nat): nat { if w == 0 then d else if d == 0 then w else Euclid(d, w) }

  function FoldedMax(m: nat, w: nat): nat { if w > m then w else m }

  /** The divisor that the loops fold together; zero weights are skipped. */
  function Divisor(t: seq<Entry>): nat { DivisorTo(t, |t|) }

  function Heaviest(t: seq<Entry>): nat { HeaviestTo(t, |t|) }

  /** The divisor of the first `k` entries. */
  function DivisorTo(t: seq<Entry>, k: nat): nat
    requires k <= |t|
  {
    if k == 0 then 0 else FoldedDivisor(DivisorTo(t, k - 1), t[k-1].weight)
  }

  function HeaviestTo(t: seq<Entry>, k: nat): nat
    requires k <= |t|
  {
    if k == 0 then 0 else FoldedMax(HeaviestTo(t, k - 1), t[k-1].weight)
  }

  lemma {:induction false} FoldPrefix(s: seq<Entry>, t: seq<Entry>, k: nat)
    requires k <= |s| <= |t| && forall j :: 0 <= j < k ==> s[j] == t[j]
    ensures DivisorTo(s, k) == DivisorTo(t, k) && HeaviestTo(s, k) == HeaviestTo(t, k)
  {
    if k > 0 { FoldPrefix(s, t, k - 1); }
  }

  /** The divisor is the greatest common divisor of the weights that are not zero. */
  lemma {:induction false} DivisorIsGcd(t: seq<Entry>)
    ensures IsGcdOf(Divisor(t), WeightsOf(Heavy(t)))
  {
    if t == [] {
      forall d: nat ensures Divides(d, 0) { DividesZero(d); }
    } else {
      var front, e := t[..|t|-1], t[|t|-1];
      DivisorIsGcd(front);
      FoldPrefix(front, t, |front|);
      DivisorStep(Divisor(front), front, e, Divisor(t));
      assert t == front + [e];
    }
  }

  lemma DivisorStep(d: nat, front: seq<Entry>, e: Entry, d': nat)
    requires IsGcdOf(d, WeightsOf(Heavy(front))) && d' == FoldedDivisor(d, e.weight)
    ensures IsGcdOf(d', WeightsOf(Heavy(front + [e])))
  {
    HeavyLast(front, e);
    if e.weight > 0 {
      HeavyIsWeighty(front);
      EuclidIsGcd(d, e.weight);
      GcdStep(d, WeightsOf(Heavy(front)), e.weight, d');
      assert WeightsOf(Heavy(front + [e])) == WeightsOf(Heavy(front)) + [e.weight];
    }
  }

  lemma {:induction false} HeaviestIsMax(t: seq<Entry>, k: nat)
    requires k <= |t|
    ensures forall j :: 0 <= j < k ==> t[j].weight <= HeaviestTo(t, k)
    ensures if k == 0 then HeaviestTo(t, k) == 0 else exists j :: 0 <= j < k && t[j].weight == HeaviestTo(t, k)
  {
    if k > 0 { HeaviestIsMax(t, k - 1); }
  }

  /** What the loops fold together does not depend on zero weights. */
  lemma {:induction false} FoldHeavy(t: seq<Entry>)
    ensures Divisor(Heavy(t)) == Divisor(t) && Heaviest(Heavy(t)) == Heaviest(t)
  {
    if t != [] {
      var front, e := t[..|t|-1], t[|t|-1];
      FoldHeavy(front);
      FoldPrefix(front, t, |front|);
      FoldHeavyStep(front, e);
      assert t == front + [e];
    }
  }

  lemma FoldHeavyStep(front: seq<Entry>, e: Entry)
    ensures var h := Heavy(front + [e]);
      && Divisor(h) == FoldedDivisor(Divisor(Heavy(front)), e.weight)
      && Heaviest(h) == FoldedMax(Heaviest(Heavy(front)), e.weight)
  {
    HeavyLast(front, e);
    if e.weight > 0 { FoldPrefix(Heavy(front), Heavy(front) + [e], |Heavy(front)|); }
  }

  /** A table with one weight replaced, or one entry appended. */
  function Marked(t: seq<Entry>, e: Entry): seq<Entry> {
    var i := IndexOf(t, e.address);
    if i < |t| then t[i := e] else t + [e]
  }

  lemma HeavyAround(a: seq<Entry>, e: Entry, b: seq<Entry>)
    requires Weighty(a) && Weighty(b)
    ensures Heavy(a + [e] + b) == if e.weight == 0 then a + b else a + [e] + b
  {
    HeavySame(a);
    HeavySame(b);
    HeavyLast(a, e);
    HeavyOn(a + [e], b);
  }

  lemma MarkedFacts(t: seq<Entry>, e: Entry)
    requires Weighty(t)
    ensures var i, m := IndexOf(t, e.address), Marked(t, e);
      i < |m| && m[i] == e && forall k :: 0 <= k < |m| && k != i ==> m[k].weight > 0
  {
  }

  lemma EditedIsHeavy(t: seq<Entry>, e: Entry)
    requires Weighty(t)
    ensures Edited(t, e) == Heavy(Marked(t, e))
  {
    var i := IndexOf(t, e.address);
    if i < |t| {
      HeavyAround(t[..i], e, t[i+1..]);
      UpdateAround(t, i, e);
    } else {
      HeavySame(t);
      HeavyLast(t, e);
    }
  }

  lemma UpdateAround<T>(t: seq<T>, i: nat, e: T)
    requires i < |t|
    ensures t[i := e] == t[..i] + [e] + t[i+1..]
  {
  }

  /** An edited table again has distinct addresses and positive weights, without the address if it is removed. */
  lemma EditedKeeps(t: seq<Entry>, e: Entry)
    requires Distinct(t) && Weighty(t)
    ensures Distinct(Edited(t, e)) && Weighty(Edited(t, e))
    ensures e.weight == 0 ==> forall k :: 0 <= k < |Edited(t, e)| ==> Edited(t, e)[k].address != e.address
  {
    var i := IndexOf(t, e.address);
    if e.weight == 0 && i < |t| {
      forall k | 0 <= k < |t| - 1 ensures Cut(t, i)[k] == t[if k < i then k else k + 1] { CutAt(t, i, k); }
    }
  }

  lemma NewAddress(t: seq<Entry>, e: Entry)
    requires Distinct(t + [e])
    ensures Distinct(t) && IndexOf(t, e.address) == |t|
  {
    forall k | 0 <= k < |t| ensures t[k].address != e.address {
      assert (t + [e])[k] == t[k] && (t + [e])[|t|] == e;
    }
    forall j, k | 0 <= j < k < |t| ensures t[j].address != t[k].address {
      assert (t + [e])[k] == t[k] && (t + [e])[j] == t[j];
    }
  }

  lemma {:induction false} LoadedIsTable(list: seq<Entry>)
    ensures Distinct(Loaded(list)) && Weighty(Loaded(list))
  {
    if list != [] {
      var front, e := list[..|list|-1], list[|list|-1];
      LoadedIsTable(front);
      EditedKeeps(Loaded(front), e.(weight := 0));
    }
  }

  /** The entry of an address is taken out or replaced where it stands. */
  lemma EditedInside(a: seq<Entry>, x: Entry, b: seq<Entry>, e: Entry)
    requires x.address == e.address && forall k :: 0 <= k < |a| ==> a[k].address != e.address
    ensures Edited(a + [x] + b, e) == if e.weight == 0 then a + b else a + [e] + b
  {
    var t := a + [x] + b;
    assert t[|a|] == x && forall k :: 0 <= k < |a| ==> t[k] == a[k];
    assert IndexOf(t, e.address) == |a|;
    assert t[..|a|] == a && t[|a|+1..] == b;
    UpdateAround(t, |a|, e);
  }

  lemma EditedOutside(t: seq<Entry>, e: Entry)
    requires forall k :: 0 <= k < |t| ==> t[k].address != e.address
    ensures Edited(t, e) == if e.weight == 0 then t else t + [e]
  {
    assert IndexOf(t, e.address) == |t|;
  }

  /** The entry has a weight, and no later one of its address has. */
  predicate IsLast(e: Entry, later: seq<Entry>) {
    e.weight > 0 && forall k :: 0 <= k < |later| && later[k].address == e.address ==> later[k].weight == 0
  }

  /** All such entries, in their order. */
  function LastOnes(list: seq<Entry>): seq<Entry> {
    if list == [] then [] else (if IsLast(list[0], list[1..]) then [list[0]] else []) + LastOnes(list[1..])
  }

  function Without(t: seq<Entry>, a: Address): seq<Entry> {
    if t == [] then [] else (if t[0].address == a then [] else [t[0]]) + Without(t[1..], a)
  }

  lemma LastBefore(x: Entry, later: seq<Entry>, e: Entry)
    ensures IsLast(x, later + [e]) <==> IsLast(x, later) && (e.weight == 0 || x.address != e.address)
  {
    assert (later + [e])[|later|] == e && forall k :: 0 <= k < |later| ==> (later + [e])[k] == later[k];
  }

  lemma {:induction false} LastOnesMore(list: seq<Entry>, e: Entry)
    ensures LastOnes(list + [e]) ==
            if e.weight == 0 then LastOnes(list) else Without(LastOnes(list), e.address) + [e]
    decreases |list|
  {
    if list == [] {
      assert [] + [e] == [e] && [e][1..] == [];
    } else {
      var x, tail := list[0], list[1..];
      assert (list + [e])[1..] == tail + [e];
      LastBefore(x, tail, e);
      LastOnesMore(tail, e);
      WithoutOne(x, LastOnes(tail), e.address);
    }
  }

  lemma WithoutOne(x: Entry, t: seq<Entry>, a: Address)
    ensures Without([x] + t, a) == (if x.address == a then [] else [x]) + Without(t, a)
    ensures Without([] + t, a) == Without(t, a)
  {
    assert ([x] + t)[1..] == t && [] + t == t;
  }

  lemma {:induction false} WithoutAbsent(t: seq<Entry>, a: Address)
    requires forall k :: 0 <= k < |t| ==> t[k].address != a
    ensures Without(t, a) == t
  {
    if t != [] { WithoutAbsent(t[1..], a); }
  }

  /** Taking out an address takes out its only entry. */
  lemma {:induction false} TakenOut(t: seq<Entry>, e: Entry)
    requires Distinct(t) && e.weight == 0
    ensures Edited(t, e) == Without(t, e.address)
  {
    if t != [] {
      if t[0].address == e.address {
        WithoutAbsent(t[1..], e.address);
      } else {
        TakenOut(t[1..], e);
        var i := IndexOf(t[1..], e.address);
        if i < |t| - 1 { CutTail(t, i + 1); }
      }
    }
  }

  lemma {:induction false} LoadedOn(front: seq<Entry>, e: Entry)
    ensures Loaded(front + [e]) ==
            if e.weight == 0 then Loaded(front) else Edited(Loaded(front), e.(weight := 0)) + [e]
  {
    assert (front + [e])[..|front|] == front;
  }

  lemma {:induction false} LoadedStep(list: seq<Entry>, front: seq<Entry>, e: Entry, t: seq<Entry>)
    requires list == front + [e] && t == Loaded(front) == LastOnes(front)
    ensures Loaded(list) == LastOnes(list)
  {
    LoadedOn(front, e);
    LastOnesMore(front, e);
    if e.weight > 0 {
      LoadedIsTable(front);
      TakenOut(t, e.(weight := 0));
    }
  }

  /** What is loaded are, in their order, the last entries with a weight of all addresses. */
  lemma {:induction false} LoadedMeans(list: seq<Entry>)
    ensures Loaded(list) == LastOnes(list)
    decreases |list|
  {
    if list != [] {
      var n := |list| - 1;
      LastApart(list, n);
      LoadedMeans(list[..n]);
      LoadedStep(list, list[..n], list[n], Loaded(list[..n]));
    }
  }

  lemma LastApart<T>(s: seq<T>, n: nat)
    requires |s| == n + 1
    ensures s == s[..n] + [s[n]]
  {
  }

  lemma {:induction false} LoadedHeavy(list: seq<Entry>)
    requires Distinct(Heavy(list))
    ensures Loaded(list) == Heavy(list)
  {
    if list != [] {
      var front, e := list[..|list|-1], list[|list|-1];
      assert list == front + [e];
      HeavyLast(front, e);
      if e.weight == 0 {
        LoadedHeavy(front);
      } else {
        NewAddress(Heavy(front), e);
        LoadedHeavy(front);
      }
    }
  }

  /** Loading a table of distinct addresses and positive weights and editing it loads the edited table. */
  lemma LoadThenEdit(t: seq<Entry>, e: Entry)
    requires Distinct(t) && Weighty(t)
    ensures Edited(Loaded(t), e) == Loaded(Edited(t, e))
  {
    EditedKeeps(t, e);
    HeavySame(t);
    LoadedHeavy(t);
    HeavySame(Edited(t, e));
    LoadedHeavy(Edited(t, e));
  }

  function Multiplied(t: seq<Entry>, d: nat): (r: seq<Entry>)
    ensures |r| == |t|
  {
    if t == [] then [] else [t[0].(weight := t[0].weight * d)] + Multiplied(t[1..], d)
  }

  lemma {:induction false} MultipliedAt(t: seq<Entry>, d: nat, k: nat)
    requires k < |t|
    ensures Multiplied(t, d)[k] == t[k].(weight := t[k].weight * d)
  {
    if k > 0 { MultipliedAt(t[1..], d, k - 1); }
  }

  /** All weights multiplied, but for the one at `p`. */
  function AllBut(t: seq<Entry>, d: nat, p: nat): seq<Entry>
    requires p < |t|
  {
    Multiplied(t, d)[p := t[p]]
  }

  predicate IsTimes(a: Entry, b: Entry, d: nat) { a == b.(weight := b.weight * d) }

  lemma MultipliedIs(t: seq<Entry>, d: nat, r: seq<Entry>)
    requires |r| == |t| && forall k :: 0 <= k < |t| ==> IsTimes(r[k], t[k], d)
    ensures r == Multiplied(t, d)
  {
    forall k | 0 <= k < |t| ensures r[k] == Multiplied(t, d)[k] {
      MultipliedAt(t, d, k);
      assert IsTimes(r[k], t[k], d);
    }
  }

  lemma QuotientOf(d: nat, k: nat, m: nat)
    requires d > 0 && d * k <= m
    ensures (d * k) / d == k <= m / d
  {
    LessThanOne(d, k - m / d, m % d);
    assert d * (k - m / d) == d * k - d * (m / d);
    var q := (d * k) / d;
    assert d * k == d * q + (d * k) % d;
    assert d * (k - q) == d * k - d * q;
    LessThanOne(d, k - q, (d * k) % d);
    LessThanOne(d, q - k, 0);
    assert d * (q - k) == d * q - d * k;
  }

  lemma LessThanOne(d: nat, x: int, y: int)
    requires d > 0 && y < d
    ensures d * x <= y ==> x <= 0
  {
    if x > 0 { assert d * x == d + d * (x - 1); }
  }

  lemma Exact(d: nat, w: nat, m: nat)
    requires d > 0 && w > 0 && Divides(d, w) && w <= m
    ensures 0 < w / d <= m / d && (w / d) * d == w
  {
    var k: nat :| w == d * k;
    QuotientOf(d, k, m);
  }

  function DividedBy(t: seq<Entry>, d: nat): (q: seq<Entry>)
    requires d > 0
    ensures |q| == |t|
  {
    if t == [] then [] else [t[0].(weight := t[0].weight / d)] + DividedBy(t[1..], d)
  }

  lemma {:induction false} DividedByAt(t: seq<Entry>, d: nat, k: nat)
    requires d > 0 && k < |t|
    ensures DividedBy(t, d)[k] == t[k].(weight := t[k].weight / d)
  {
    if k > 0 { DividedByAt(t[1..], d, k - 1); }
  }

  /** A common divisor divides the weights and their maximum without remainder. */
  lemma DividedExactly(t: seq<Entry>, d: nat)
    requires d > 0 && t != [] && Weighty(t) && DividesAll(d, WeightsOf(t))
    ensures var q := DividedBy(t, d);
      Weighty(q) && t == Multiplied(q, d) && Heaviest(q) == Heaviest(t) / d
  {
    var ws, m, q := WeightsOf(t), Heaviest(t), DividedBy(t, d);
    HeaviestIsMax(t, |t|);
    forall k | 0 <= k < |t| ensures IsTimes(t[k], q[k], d) && 0 < q[k].weight <= m / d {
      assert Divides(d, ws[k]);
      Exact(d, ws[k], m);
      DividedByAt(t, d, k);
    }
    MultipliedIs(q, d, t);
    DividedMax(t, d, m);
  }

  lemma DividedMax(t: seq<Entry>, d: nat, m: nat)
    requires d > 0 && t != [] && m == Heaviest(t)
    requires forall k :: 0 <= k < |t| ==> DividedBy(t, d)[k].weight <= m / d
    ensures Heaviest(DividedBy(t, d)) == m / d
  {
    var q := DividedBy(t, d);
    HeaviestIsMax(t, |t|);
    HeaviestIsMax(q, |q|);
    var k :| 0 <= k < |t| && t[k].weight == m;
    DividedByAt(t, d, k);
  }

  /** The entries with their weights divided by their greatest common divisor. */
  lemma Quotients(t: seq<Entry>)
    requires t != [] && Weighty(t)
    ensures Divisor(t) > 0
    ensures var q := DividedBy(t, Divisor(t));
      Weighty(q) && t == Multiplied(q, Divisor(t)) && Heaviest(q) == Heaviest(t) / Divisor(t)
  {
    DivisorIsGcd(t);
    HeavySame(t);
    GcdPositive(Divisor(t), WeightsOf(t));
    DividesSelf(Divisor(t));
    DividedExactly(t, Divisor(t));
  }

  /** The first `k` entries from `a`, and the others from `b`. */
  function Mixed(a: seq<Entry>, b: seq<Entry>, k: nat): (r: seq<Entry>)
    requires k <= |a| == |b|
    ensures |r| == |a|
  {
    if k == 0 then b else Mixed(a, b, k - 1)[k-1 := a[k-1]]
  }

  lemma {:induction false} MixedAt(a: seq<Entry>, b: seq<Entry>, k: nat, j: nat)
    requires k <= |a| == |b| && j < |a|
    ensures Mixed(a, b, k)[j] == if j < k then a[j] else b[j]
  {
    if k > 0 { MixedAt(a, b, k - 1, j); }
  }

  lemma MixedWhole(a: seq<Entry>, b: seq<Entry>)
    requires |a| == |b|
    ensures Mixed(a, b, |a|) == a
  {
    forall j | 0 <= j < |a| ensures Mixed(a, b, |a|)[j] == a[j] { MixedAt(a, b, |a|, j); }
  }

  lemma Around<T>(t: seq<T>, at: nat)
    requires at < |t|
    ensures t == t[..at] + [t[at]] + t[at+1..]
  {
  }

  /** Only the entry at one index may have no weight. */
  lemma HeavyBut(t: seq<Entry>, at: nat)
    requires at < |t| && forall k :: 0 <= k < |t| && k != at ==> t[k].weight > 0
    ensures Heavy(t) == if t[at].weight == 0 then Cut(t, at) else t
  {
    Around(t, at);
    HeavyAround(t[..at], t[at], t[at+1..]);
  }

  /** The loops fold the same together of both, and what stays has weights to divide by. */
  ghost predicate Foldable(t: seq<Entry>, h: seq<Entry>) {
    && Weighty(h) && Divisor(h) == Divisor(t) && Heaviest(h) == Heaviest(t)
    && if h == [] then Heaviest(h) == 0 else Divisor(h) > 0
  }

  lemma HeavyFacts(t: seq<Entry>, p: nat)
    requires p < |t| && forall k :: 0 <= k < |t| && k != p ==> t[k].weight > 0
    ensures Heavy(t) == if t[p].weight == 0 then Cut(t, p) else t
    ensures Foldable(t, Heavy(t))
  {
    HeavyBut(t, p);
    HeavyIsWeighty(t);
    FoldHeavy(t);
    if Heavy(t) != [] { Quotients(Heavy(t)); }
  }

  lemma AllButSet(t: seq<Entry>, d: nat, p: nat, e: Entry)
    requires p < |t|
    ensures AllBut(t[p := e], d, p) == Multiplied(t, d)[p := e]
  {
    forall k | 0 <= k < |t| && k != p ensures Multiplied(t[p := e], d)[k] == Multiplied(t, d)[k] {
      MultipliedAt(t[p := e], d, k);
      MultipliedAt(t, d, k);
    }
  }

  lemma AllButLast(t: seq<Entry>, d: nat, e: Entry)
    ensures AllBut(t + [e], d, |t|) == Multiplied(t, d) + [e]
  {
    forall k | 0 <= k < |t| ensures Multiplied(t + [e], d)[k] == Multiplied(t, d)[k] {
      MultipliedAt(t + [e], d, k);
      MultipliedAt(t, d, k);
    }
  }

  lemma MultipliedWeighty(t: seq<Entry>, d: nat)
    requires Weighty(t) && d > 0
    ensures Weighty(Multiplied(t, d))
  {
    forall k | 0 <= k < |t| ensures Multiplied(t, d)[k].weight > 0 { MultipliedAt(t, d, k); }
  }

  /** What loading leaves of a list comes from it. */
  lemma {:induction false} LoadedFrom(list: seq<Entry>, k: nat) returns (j: nat)
    requires k < |Loaded(list)|
    ensures j < |list| && list[j] == Loaded(list)[k] && list[j].weight > 0
  {
    var front, e := list[..|list|-1], list[|list|-1];
    var t := Loaded(front);
    var i := IndexOf(t, e.address);
    if e.weight > 0 && k == |Loaded(list)| - 1 {
      j := |front|;
    } else {
      j := LoadedFrom(front, if e.weight > 0 && i < |t| && k >= i then k + 1 else k);
    }
  }

  lemma {:induction false} LoadedNone(list: seq<Entry>)
    ensures Loaded(list) == [] ==> Heaviest(list) == 0
  {
    if list != [] {
      var front := list[..|list|-1];
      LoadedNone(front);
      FoldPrefix(front, list, |front|);
    }
  }

  /** The divisor and the maximum of a whole list serve for what loading leaves of it. */
  lemma LoadedDivides(list: seq<Entry>)
    ensures var t, d := Loaded(list), Divisor(list);
      && Weighty(t) && Heaviest(t) <= Heaviest(list)
      && (t != [] ==> d > 0 && DividesAll(d, WeightsOf(t)))
  {
    var t, d, h := Loaded(list), Divisor(list), Heavy(list);
    LoadedIsTable(list);
    DivisorIsGcd(list);
    HeavyIsWeighty(list);
    DividesSelf(d);
    HeaviestIsMax(list, |list|);
    HeaviestIsMax(t, |t|);
    forall k | 0 <= k < |t| ensures Divides(d, t[k].weight) && h != [] && t[k].weight <= Heaviest(list) {
      var j := LoadedFrom(list, k);
      var m := HeavyHas(list, j);
      assert WeightsOf(h)[m] == t[k].weight;
    }
    if t != [] {
      assert Divides(d, t[0].weight);
      GcdPositive(d, WeightsOf(h));
    }
  }

  lemma LoadedPositive(list: seq<Entry>)
    ensures Loaded(list) == [] || Divisor(list) > 0
  {
    LoadedDivides(list);
  }

  lemma {:induction false} HeavyHas(t: seq<Entry>, j: nat) returns (m: nat)
    requires j < |t| && t[j].weight > 0
    ensures m < |Heavy(t)| && Heavy(t)[m] == t[j]
  {
    if j == 0 {
      m := 0;
    } else {
      m := HeavyHas(t[1..], j - 1);
      if t[0].weight > 0 { m := m + 1; }
    }
  }
}
