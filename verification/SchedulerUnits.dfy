/** The units of a scheduler, whose weights are changed in place. */
module SchedulerUnits {
  import opened Weights
  import opened AddressTable

  class AddrUnit {
    const address: Address
    var weight: nat

    constructor (address: Address, weight: nat)
      ensures this.address == address && this.weight == weight
    {
      this.address, this.weight := address, weight;
    }
  }

  /** The first index of an address among the units, or their number. */
  function Place(addrs: seq<AddrUnit>, a: Address): nat {
    if addrs == [] then 0 else if addrs[0].address == a then 0 else 1 + Place(addrs[1..], a)
  }

  lemma {:induction false} PlaceIsFirst(addrs: seq<AddrUnit>, a: Address)
    ensures var i := Place(addrs, a);
      i <= |addrs| && (i < |addrs| ==> addrs[i].address == a) && forall k :: 0 <= k < i ==> addrs[k].address != a
  {
    if addrs != [] { PlaceIsFirst(addrs[1..], a); }
  }

  /** One unit for an address. */
  ghost predicate Apart(addrs: seq<AddrUnit>) {
    forall k :: 0 <= k < |addrs| ==> Place(addrs, addrs[k].address) == k
  }

  predicate IsAt(addrs: seq<AddrUnit>, a: Address, u: AddrUnit) {
    Place(addrs, a) < |addrs| && addrs[Place(addrs, a)] == u
  }

  lemma ApartIffDistinct(addrs: seq<AddrUnit>)
    ensures Apart(addrs) <==> forall j, k :: 0 <= j < k < |addrs| ==> addrs[j].address != addrs[k].address
  {
    forall k | 0 <= k < |addrs|
      ensures Place(addrs, addrs[k].address) <= k && addrs[Place(addrs, addrs[k].address)].address == addrs[k].address
    {
      PlaceIsFirst(addrs, addrs[k].address);
    }
    if Apart(addrs) {
      forall j, k | 0 <= j < k < |addrs| ensures addrs[j].address != addrs[k].address {
        assert Place(addrs, addrs[j].address) == j && Place(addrs, addrs[k].address) == k;
      }
    }
  }

  /** The addresses and weights that the units hold. */
  ghost function EntriesOf(addrs: seq<AddrUnit>): (t: seq<Entry>)
    reads addrs
    ensures |t| == |addrs|
  {
    if addrs == [] then [] else [Entry(addrs[0].address, addrs[0].weight)] + EntriesOf(addrs[1..])
  }

  lemma {:induction false} EntriesAt(addrs: seq<AddrUnit>, k: nat)
    requires k < |addrs|
    ensures EntriesOf(addrs)[k] == Entry(addrs[k].address, addrs[k].weight)
  {
    if k > 0 { EntriesAt(addrs[1..], k - 1); }
  }

  lemma AllEntries(addrs: seq<AddrUnit>)
    ensures forall k {:trigger EntriesOf(addrs)[k]} {:trigger addrs[k]} :: 0 <= k < |addrs| ==>
      EntriesOf(addrs)[k] == Entry(addrs[k].address, addrs[k].weight)
  {
    forall k | 0 <= k < |addrs|
      ensures EntriesOf(addrs)[k] == Entry(addrs[k].address, addrs[k].weight)
    {
      EntriesAt(addrs, k);
    }
  }

  lemma {:induction false} PlaceLess(addrs: seq<AddrUnit>, at: nat, a: Address)
    requires at < |addrs| && addrs[at].address != a
    ensures Place(Cut(addrs, at), a) == if Place(addrs, a) > at then Place(addrs, a) - 1 else Place(addrs, a)
    ensures Place(addrs, a) != at && Place(addrs, a) <= |addrs|
  {
    PlaceIsFirst(addrs, a);
    if at == 0 {
      assert Cut(addrs, 0) == addrs[1..];
    } else {
      CutTail(addrs, at);
      if addrs[0].address != a { PlaceLess(addrs[1..], at - 1, a); }
    }
  }

  lemma SamePlace(addrs: seq<AddrUnit>, j: nat, k: nat)
    requires Apart(addrs)
    ensures j < |addrs| && k < |addrs| && addrs[j].address == addrs[k].address ==> j == k
  {
  }

  lemma PlaceWithout(addrs: seq<AddrUnit>, at: nat, a: Address)
    requires Apart(addrs) && at < |addrs|
    ensures var rest := Cut(addrs, at);
      if a == addrs[at].address then Place(rest, a) == |rest|
      else if Place(addrs, a) < |addrs| then IsAt(rest, a, addrs[Place(addrs, a)]) else Place(rest, a) == |rest|
  {
    if a == addrs[at].address {
      var p := Place(Cut(addrs, at), a);
      PlaceIsFirst(Cut(addrs, at), a);
      CutAt(addrs, at, p);
      SamePlace(addrs, if p < at then p else p + 1, at);
    } else {
      PlaceLess(addrs, at, a);
    }
  }

  lemma Without(addrs: seq<AddrUnit>, at: nat)
    requires Apart(addrs) && at < |addrs|
    ensures var rest := Cut(addrs, at);
      && Apart(rest) && Place(rest, addrs[at].address) == |rest|
      && forall a :: a != addrs[at].address ==>
           if Place(addrs, a) < |addrs| then IsAt(rest, a, addrs[Place(addrs, a)]) else Place(rest, a) == |rest|
  {
    var rest := Cut(addrs, at);
    ApartIffDistinct(addrs);
    ApartIffDistinct(rest);
    forall a ensures if a == addrs[at].address then Place(rest, a) == |rest|
      else if Place(addrs, a) < |addrs| then IsAt(rest, a, addrs[Place(addrs, a)]) else Place(rest, a) == |rest|
    {
      PlaceWithout(addrs, at, a);
    }
  }

  /** The place of an address among the units is that in their table. */
  lemma {:induction false} PlaceInTable(addrs: seq<AddrUnit>, d: nat, a: Address)
    ensures Place(addrs, a) == IndexOf(Multiplied(EntriesOf(addrs), d), a)
  {
    if addrs != [] { PlaceInTable(addrs[1..], d, a); }
  }

  lemma {:induction false} PlaceInEntries(addrs: seq<AddrUnit>, a: Address)
    ensures Place(addrs, a) == IndexOf(EntriesOf(addrs), a)
  {
    if addrs != [] { PlaceInEntries(addrs[1..], a); }
  }

  lemma {:induction false} EntriesMore(addrs: seq<AddrUnit>, u: AddrUnit)
    ensures EntriesOf(addrs + [u]) == EntriesOf(addrs) + [Entry(u.address, u.weight)]
  {
    if addrs != [] {
      assert (addrs + [u])[1..] == addrs[1..] + [u];
      EntriesMore(addrs[1..], u);
    }
  }

  lemma {:induction false} PlaceMore(addrs: seq<AddrUnit>, u: AddrUnit, a: Address)
    ensures Place(addrs + [u], a) ==
      if Place(addrs, a) < |addrs| || u.address == a then Place(addrs, a) else |addrs| + 1
    ensures Place(addrs, a) <= |addrs|
  {
    if addrs != [] {
      assert (addrs + [u])[1..] == addrs[1..] + [u];
      PlaceMore(addrs[1..], u, a);
    }
  }

  lemma ApartMore(addrs: seq<AddrUnit>, u: AddrUnit)
    requires Apart(addrs) && Place(addrs, u.address) == |addrs|
    ensures Apart(addrs + [u])
  {
    forall k | 0 <= k <= |addrs| ensures Place(addrs + [u], (addrs + [u])[k].address) == k {
      PlaceMore(addrs, u, (addrs + [u])[k].address);
    }
  }

  ghost predicate Among(addrs: seq<AddrUnit>, units: set<AddrUnit>) {
    forall k :: 0 <= k < |addrs| ==> addrs[k] in units
  }

  /** The list and the map hold the same units, one for an address. */
  ghost predicate LinkedBy(addrs: seq<AddrUnit>, addrm: map<Address, AddrUnit>) {
    Apart(addrs) && forall a {:trigger a in addrm} ::
      if a in addrm then IsAt(addrs, a, addrm[a]) else Place(addrs, a) == |addrs|
  }

  lemma AmongEntered(addrs: seq<AddrUnit>, p: nat, u: AddrUnit, units: set<AddrUnit>)
    requires Among(addrs, units)
    ensures Among((if p < |addrs| then Cut(addrs, p) else addrs) + [u], units + {u})
  {
    if p < |addrs| {
      forall k | 0 <= k < |addrs| - 1 ensures Cut(addrs, p)[k] in units { CutAt(addrs, p, k); }
    }
  }

  lemma {:induction false} EntriesLess(addrs: seq<AddrUnit>, at: nat)
    requires at < |addrs|
    ensures EntriesOf(Cut(addrs, at)) == Cut(EntriesOf(addrs), at)
  {
    if at == 0 {
      assert Cut(addrs, 0) == addrs[1..];
    } else {
      CutTail(addrs, at);
      EntriesLess(addrs[1..], at - 1);
      CutTail(EntriesOf(addrs), at);
      assert EntriesOf(addrs)[1..] == EntriesOf(addrs[1..]);
    }
  }

  lemma LinkedMore(addrs: seq<AddrUnit>, addrm: map<Address, AddrUnit>, u: AddrUnit)
    requires LinkedBy(addrs, addrm) && u.address !in addrm
    ensures LinkedBy(addrs + [u], addrm[u.address := u])
  {
    ApartMore(addrs, u);
    forall a ensures var m := addrm[u.address := u];
      if a in m then IsAt(addrs + [u], a, m[a]) else Place(addrs + [u], a) == |addrs + [u]|
    {
      PlaceMore(addrs, u, a);
      assert a in addrm <==> Place(addrs, a) < |addrs|;
    }
  }

  lemma LinkedLess(addrs: seq<AddrUnit>, addrm: map<Address, AddrUnit>, a: Address)
    requires LinkedBy(addrs, addrm) && a in addrm
    ensures Place(addrs, a) < |addrs| && LinkedBy(Cut(addrs, Place(addrs, a)), addrm - {a})
  {
    PlaceIsFirst(addrs, a);
    Without(addrs, Place(addrs, a));
  }

  lemma ExpelFacts(addrs: seq<AddrUnit>, addrm: map<Address, AddrUnit>, a: Address)
    requires LinkedBy(addrs, addrm)
    ensures a in addrm <==> Place(addrs, a) < |addrs|
    ensures Place(addrs, a) < |addrs| ==>
      var rest := Cut(addrs, Place(addrs, a));
      LinkedBy(rest, addrm - {a}) && EntriesOf(rest) == Edited(EntriesOf(addrs), Entry(a, 0))
    ensures Place(addrs, a) >= |addrs| ==>
      LinkedBy(addrs, addrm - {a}) && EntriesOf(addrs) == Edited(EntriesOf(addrs), Entry(a, 0))
  {
    PlaceInEntries(addrs, a);
    if a in addrm {
      LinkedLess(addrs, addrm, a);
      EntriesLess(addrs, Place(addrs, a));
    } else {
      assert addrm - {a} == addrm;
    }
  }

  /** One more weight into the divisor and the maximum; a zero weight is skipped. */
  method Fold(d: nat, m: nat, w: nat, ghost t: seq<Entry>, ghost k: nat) returns (d': nat, m': nat)
    requires k < |t| && w == t[k].weight && d == DivisorTo(t, k) && m == HeaviestTo(t, k)
    ensures d' == DivisorTo(t, k + 1) && m' == HeaviestTo(t, k + 1)
  {
    if w == 0 { return d, m; }
    m' := if w > m then w else m;
    if d != 0 { d' := Gcd(d, w); } else { d' := w; }
  }

  method SetWeight(units: seq<AddrUnit>, u: AddrUnit, ghost k: nat, w: nat, ghost done: seq<Entry>,
                   ghost rest: seq<Entry>)
    requires Apart(units) && k < |units| == |done| == |rest| && units[k] == u
    requires EntriesOf(units) == Mixed(done, rest, k) && done[k] == Entry(u.address, w)
    modifies u`weight
    ensures EntriesOf(units) == Mixed(done, rest, k + 1)
  {
    AllEntries(units);
    u.weight := w;
    AllEntries(units);
    assert EntriesOf(units) == old(EntriesOf(units))[k := done[k]];
  }

  /** Entry `k` of `t` is that of `es`, multiplied unless it is the one at `p`. */
  ghost predicate IsUnscaled(t: seq<Entry>, es: seq<Entry>, delta: nat, p: nat, k: nat)
    requires k < |t| == |es|
  {
    if k == p then t[k] == es[k] else IsTimes(t[k], es[k], delta)
  }

  ghost predicate Unscaled(t: seq<Entry>, es: seq<Entry>, delta: nat, p: nat)
    requires |t| == |es|
  {
    forall k: nat {:trigger IsUnscaled(t, es, delta, p, k)} :: k < |t| ==> IsUnscaled(t, es, delta, p, k)
  }

  method ScaleUnit(units: seq<AddrUnit>, unit: AddrUnit, delta: nat, k: nat, ghost p: nat, ghost es: seq<Entry>,
                   ghost t: seq<Entry>)
    returns (found: bool, w: nat)
    requires Apart(units) && p < |units| && units[p] == unit && k < |units| == |es| == |t|
    requires IsUnscaled(t, es, delta, p, k)
    requires EntriesOf(units) == Mixed(t, es, k)
    modifies units`weight
    ensures (found <==> k == p) && w == t[k].weight && EntriesOf(units) == Mixed(t, es, k + 1)
  {
    EntriesAt(units, k);
    MixedAt(t, es, k, k);
    found := units[k] == unit;
    w := if found then units[k].weight else units[k].weight * delta;
    if !found {
      SetWeight(units, units[k], k, w, t, es);
    } else {
      assert t[k] == es[k];
    }
  }

  method ScaleNext(units: seq<AddrUnit>, unit: AddrUnit, delta: nat, k: nat, ghost p: nat, ghost es: seq<Entry>,
                   ghost t: seq<Entry>, at: nat, d: nat, max: nat)
    returns (at': nat, d': nat, max': nat)
    requires Apart(units) && p < |units| && units[p] == unit && k < |units| == |es| == |t|
    requires IsUnscaled(t, es, delta, p, k)
    requires EntriesOf(units) == Mixed(t, es, k) && (k > p ==> at == p) && d == DivisorTo(t, k)
    requires max == HeaviestTo(t, k)
    modifies units`weight
    ensures EntriesOf(units) == Mixed(t, es, k + 1) && (k >= p ==> at' == p)
    ensures d' == DivisorTo(t, k + 1) && max' == HeaviestTo(t, k + 1)
  {
    var found, w := ScaleUnit(units, unit, delta, k, p, es, t);
    at' := if found then k else at;
    d', max' := Fold(d, max, w, t, k);
  }

  /** Undoes the division by `delta`, but for `unit`; its index, and the divisor and the maximum of all weights. */
  method Scale(units: seq<AddrUnit>, unit: AddrUnit, delta: nat, ghost p: nat, ghost es: seq<Entry>,
               ghost t: seq<Entry>)
    returns (at: nat, d: nat, max: nat)
    requires Apart(units) && p < |units| && units[p] == unit && EntriesOf(units) == es && |t| == |es|
    requires Unscaled(t, es, delta, p)
    modifies units`weight
    ensures at == p && EntriesOf(units) == t && d == Divisor(t) && max == Heaviest(t)
  {
    at, d, max := 0, 0, 0;
    var k := 0;
    while k < |units|
      invariant k <= |units| && EntriesOf(units) == Mixed(t, es, k)
      invariant k > p ==> at == p
      invariant d == DivisorTo(t, k) && max == HeaviestTo(t, k)
    {
      assert IsUnscaled(t, es, delta, p, k);
      at, d, max := ScaleNext(units, unit, delta, k, p, es, t, at, d, max);
      k := k + 1;
    }
    MixedWhole(t, es);
  }

  method DivideUnit(units: seq<AddrUnit>, d: nat, k: nat, ghost t: seq<Entry>)
    requires Apart(units) && k < |units| == |t| && d > 0
    requires EntriesOf(units) == Mixed(DividedBy(t, d), t, k)
    modifies units`weight
    ensures EntriesOf(units) == Mixed(DividedBy(t, d), t, k + 1)
  {
    ghost var q := DividedBy(t, d);
    EntriesAt(units, k);
    MixedAt(q, t, k, k);
    DividedByAt(t, d, k);
    SetWeight(units, units[k], k, units[k].weight / d, q, t);
  }

  method DivideAll(units: seq<AddrUnit>, d: nat, ghost t: seq<Entry>)
    requires Apart(units) && EntriesOf(units) == t && d > 0
    modifies units`weight
    ensures EntriesOf(units) == DividedBy(t, d)
  {
    var k := 0;
    while k < |units|
      invariant k <= |units| && EntriesOf(units) == Mixed(DividedBy(t, d), t, k)
    {
      DivideUnit(units, d, k, t);
      k := k + 1;
    }
    MixedWhole(DividedBy(t, d), t);
  }

  /** The units without the one of the address. */
  method RemoveUnit(units: seq<AddrUnit>, address: Address) returns (rest: seq<AddrUnit>)
    requires Place(units, address) < |units|
    ensures rest == Cut(units, Place(units, address))
  {
    PlaceIsFirst(units, address);
    var i := 0;
    while i < |units| && units[i].address != address
      invariant i <= Place(units, address)
    {
      i := i + 1;
    }
    rest := units[..i] + units[i+1..];
  }
}
