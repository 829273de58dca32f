/** The weighted round-robin scheduler: the list and the map of its units, and its cursor. */
module Scheduler {
  import opened Options
  import opened Weights
  import opened AddressTable
  import opened SchedulerUnits
  import opened RoundRobin

  class Scheduler {
    var addrs: seq<AddrUnit>
    var addrm: map<Address, AddrUnit>
    var n: nat
    var max: nat
    var delta: nat
    var i: nat
    var cw: int

    constructor ()
      ensures Linked() && addrs == [] && n == 0 && max == 0 && delta == 0 && i == 0 && cw == 0
    {
      addrs, addrm, n, max, delta, i, cw := [], map[], 0, 0, 0, 0, 0;
    }

    ghost predicate Linked()
      reads this`addrs, this`addrm
    {
      LinkedBy(addrs, addrm)
    }

    /** The entries that the units stand for: their weights are kept divided by `delta`. */
    ghost function Table(): seq<Entry>
      reads this`addrs, this`delta, addrs
    {
      Multiplied(EntriesOf(addrs), delta)
    }

    ghost function Weights(): seq<nat>
      reads this`addrs, addrs
    {
      WeightsOf(EntriesOf(addrs))
    }

    ghost predicate CursorOk()
      reads this`i, this`cw
    {
      cw >= 0 && (cw == 0 ==> i == 0)
    }

    ghost function At(): Cursor
      requires CursorOk()
      reads this`i, this`cw
    {
      Cursor(i, cw)
    }

    ghost predicate Valid()
      reads this, addrs
    {
      && Linked() && n == |addrs| && CursorOk()
      && Weighty(EntriesOf(addrs)) && Heaviest(EntriesOf(addrs)) <= max
      && if n == 0 then delta == 0 && max == 0 else delta > 0
    }

    /** `delta` is the greatest common divisor of the table's weights, and `max` the greatest quotient. */
    ghost predicate Normalised()
      reads this`addrs, this`delta, this`max, addrs
    {
      delta == Divisor(Table()) && max == Heaviest(EntriesOf(addrs))
    }

    // ----- picking

    method Advance()
      requires CursorOk() && n > 0 && max > 0
      modifies this`i, this`cw
      ensures CursorOk() && cw > 0 && At() == Step(n, max, old(At()))
    {
      if i == 0 {
        cw := cw - 1;
        if cw <= 0 { cw := max; }
      }
      i := (i + 1) % n;
    }

    lemma MaxPositive()
      requires Valid() && n > 0
      ensures max > 0
    {
      HeaviestIsMax(EntriesOf(addrs), n);
      assert EntriesOf(addrs)[0].weight > 0;
    }

    /** One step, and whether it ends the call. */
    method Try(up: bool, ghost ws: seq<nat>, ghost c: Cursor, ghost probes: seq<bool>, ghost k: nat)
      returns (u: AddrUnit, hit: bool)
      requires CursorOk() && n == |addrs| > 0 && max > 0 && ws == Weights() && k < |probes| && up == probes[k]
      requires At() == Walk(n, max, c, k)
      modifies this`i, this`cw
      ensures CursorOk() && i < n && u == addrs[i] && At() == Walk(n, max, c, k + 1)
      ensures hit <==> Taken(ws, max, c, probes, k + 1)
      ensures AddressAt(addrs, LastUp(n, max, c, probes, k + 1)) ==
        if up then Some(u.address) else AddressAt(addrs, LastUp(n, max, c, probes, k))
    {
      Advance();
      WalkIndex(n, max, c, k + 1);
      u := addrs[i];
      EntriesAt(addrs, i);
      hit := up && u.weight >= cw;
    }

    /**
     The next address: that of the first unit within two rounds that is available when it is
     probed and heavy enough; if there is none, that of the last one available.
     */
    method Get(probes: seq<bool>) returns (address: Option<Address>, ghost k: nat)
      requires Valid() && |probes| == 2 * n
      modifies this`i, this`cw
      ensures Valid() && (n == 0 ==> address == None && At() == old(At()))
      ensures n > 0 ==> Called(Weights(), max, old(At()), probes, k) && At() == Walk(n, max, old(At()), k)
      ensures n > 0 ==> address == AddressAt(addrs, LastUp(n, max, old(At()), probes, k))
      ensures k <= |probes| && (address == None <==> forall j :: 0 <= j < k ==> !probes[j])
      ensures n > 0 ==> forall j: nat :: 0 < j <= k && probes[j-1] && (forall m :: j <= m < k ==> !probes[m]) ==>
                var u := Walk(n, max, old(At()), j).i; u < n && address == Some(addrs[u].address)
    {
      ghost var c, ws := At(), Weights();
      address, k := None, 0;
      var retry := 2 * n;
      if n == 0 { return; }
      MaxPositive();
      while retry > 0
        invariant 0 <= retry <= 2 * n && k == 2 * n - retry && CursorOk() && At() == Walk(n, max, c, k)
        invariant forall j :: 0 < j <= k ==> !Taken(ws, max, c, probes, j)
        invariant address == AddressAt(addrs, LastUp(n, max, c, probes, k))
      {
        var up := probes[2 * n - retry];
        var u, hit := Try(up, ws, c, probes, k);
        k := k + 1;
        if up { address := Some(u.address); }
        if hit { break; }
        retry := retry - 1;
      }
      Fallback(addrs, max, c, probes, k);
    }

    /** A call while all units are available: it ends within a round, at the unit that the walk picks next. */
    method GetUp() returns (address: Address, ghost k: nat)
      requires Valid() && n > 0 && Balanced(Weights(), max) && Ready(n, max, At())
      modifies this`i, this`cw
      ensures Valid() && At() == After(Weights(), max, old(At()), 1) && i < n && address == addrs[i].address
      ensures 0 < k <= n && FirstPick(Weights(), max, old(At()), k) && At() == Walk(n, max, old(At()), k)
    {
      ghost var c, ws := At(), Weights();
      var probes := seq(2 * n, _ => true);
      var a;
      a, k := Get(probes);
      AllUp(ws, max, c, probes, k);
      address := a.value;
    }

    /** So many calls while all units are available, and the units they return. */
    method GetMany(m: nat) returns (got: seq<Address>, ghost picks: seq<nat>)
      requires Valid() && n > 0 && Balanced(Weights(), max) && Ready(n, max, At())
      modifies this`i, this`cw
      ensures Valid() && Ready(n, max, At()) && picks == Calls(Weights(), max, old(At()), m)
      ensures |got| == m && AreAt(addrs, got, picks)
    {
      ghost var c, ws := At(), Weights();
      got, picks := [], [];
      while |got| < m
        invariant |got| <= m && Valid() && Weights() == ws && AreAt(addrs, got, picks)
        invariant At() == After(ws, max, c, |got|) && picks == Calls(ws, max, c, |got|)
      {
        OneMoreCall(ws, max, c, |got|);
        var a, _ := GetUp();
        assert Weights() == ws;
        AreAtMore(addrs, got, picks, i);
        got, picks := got + [a], picks + [i];
      }
    }

    /**
     As many calls as the weights add up to, while all units are available: wherever the cursor
     is, they return every address as often as its weight says.
     */
    method GetRound(m: nat) returns (got: seq<Address>)
      requires Valid() && n > 0 && Balanced(Weights(), max) && Ready(n, max, At()) && m == Sum(Weights())
      modifies this`i, this`cw
      ensures Valid() && Ready(n, max, At()) && |got| == m
      ensures forall u :: 0 <= u < n ==> multiset(got)[addrs[u].address] == Weights()[u]
    {
      ghost var c, ws := At(), Weights();
      ghost var picks;
      got, picks := GetMany(m);
      forall u | 0 <= u < n ensures multiset(got)[addrs[u].address] == ws[u] {
        CallsAreFair(ws, max, c, u);
        CountedByAddress(addrs, got, picks, u);
      }
    }

    // ----- loading

    /** The list without the unit of an address, which the map still has. */
    method Expel(a: Address)
      requires Linked()
      modifies this`addrs
      ensures LinkedBy(addrs, addrm - {a}) && EntriesOf(addrs) == Edited(old(EntriesOf(addrs)), Entry(a, 0))
      ensures var p := Place(old(addrs), a); addrs == if p < |old(addrs)| then Cut(old(addrs), p) else old(addrs)
    {
      ExpelFacts(addrs, addrm, a);
      if a in addrm { addrs := RemoveUnit(addrs, a); }
    }

    /** Another unit at the end, in place of an earlier one of its address. */
    method Enter(u: AddrUnit, ghost e: Entry)
      requires Linked() && e == Entry(u.address, u.weight)
      modifies this`addrs, this`addrm
      ensures Linked() && EntriesOf(addrs) == Edited(old(EntriesOf(addrs)), e.(weight := 0)) + [e]
      ensures var p := Place(old(addrs), u.address);
        addrs == (if p < |old(addrs)| then Cut(old(addrs), p) else old(addrs)) + [u]
    {
      Expel(u.address);
      ghost var m := addrm - {u.address};
      LinkedMore(addrs, m, u);
      EntriesMore(addrs, u);
      PutAgain(addrm, u.address, u);
      addrs := addrs + [u];
      addrm := addrm[u.address := u];
    }

    method EnterNew(e: Entry, ghost units: set<AddrUnit>) returns (ghost units': set<AddrUnit>)
      requires Linked() && Among(addrs, units)
      modifies this`addrs, this`addrm
      ensures Linked() && Among(addrs, units') && fresh(units' - units)
      ensures EntriesOf(addrs) ==
        if e.weight == 0 then old(EntriesOf(addrs)) else Edited(old(EntriesOf(addrs)), e.(weight := 0)) + [e]
    {
      units' := units;
      if e.weight != 0 {
        var u := new AddrUnit(e.address, e.weight);
        AmongEntered(addrs, Place(addrs, e.address), u, units);
        Enter(u, e);
        units' := units + {u};
      }
    }

    method LoadNext(list: seq<Entry>, k: nat, d: nat, ghost units: set<AddrUnit>)
      returns (d': nat, ghost units': set<AddrUnit>)
      requires k < |list| && Linked() && Among(addrs, units) && EntriesOf(addrs) == Loaded(list[..k])
      requires d == DivisorTo(list, k) && max == HeaviestTo(list, k)
      modifies this`addrs, this`addrm, this`max
      ensures Linked() && Among(addrs, units') && fresh(units' - units) && EntriesOf(addrs) == Loaded(list[..k+1])
      ensures d' == DivisorTo(list, k + 1) && max == HeaviestTo(list, k + 1)
    {
      d', max := Fold(d, max, list[k].weight, list, k);
      LoadedNext(list, k);
      units' := EnterNew(list[k], units);
    }

    /** Enters the entries of a list, and folds their weights together. */
    method Load(list: seq<Entry>) returns (d: nat)
      requires Linked() && addrs == [] && max == 0
      modifies this`addrs, this`addrm, this`max
      ensures Linked() && fresh(addrs) && EntriesOf(addrs) == Loaded(list) && d == Divisor(list)
      ensures max == Heaviest(list)
    {
      d := 0;
      var k := 0;
      ghost var units: set<AddrUnit> := {};
      while k < |list|
        invariant k <= |list| && Linked() && fresh(units) && Among(addrs, units)
        invariant EntriesOf(addrs) == Loaded(list[..k])
        invariant d == DivisorTo(list, k) && max == HeaviestTo(list, k)
      {
        d, units := LoadNext(list, k, d, units);
        k := k + 1;
      }
      assert list[..k] == list;
    }

    method LoadAll(list: seq<Entry>)
      requires Linked() && addrs == [] && max == 0 && CursorOk()
      modifies this`addrs, this`addrm, this`n, this`max, this`delta
      ensures fresh(addrs) && CursorOk() && IsDivided(Loaded(list), Divisor(list), Heaviest(list))
    {
      var d := Load(list);
      LoadedPositive(list);
      Renew(d, Loaded(list));
    }

    /** The scheduler of a list: zero weights are skipped, and of an address the last entry counts. */
    static method New(list: seq<Entry>) returns (s: Scheduler)
      ensures fresh(s) && fresh(s.addrs) && s.Valid() && s.Table() == Loaded(list) && s.i == 0 && s.cw == 0
      ensures s.Table() == LastOnes(list)
      ensures s.IsDivided(Loaded(list), Divisor(list), Heaviest(list))
      ensures Distinct(Heavy(list)) ==> s.Normalised()
      ensures s.n > 0 ==> s.max > 0
      ensures s.n > 0 ==> (EveryCallEnds(s.Weights(), s.max) <==> Heaviest(Loaded(list)) == Heaviest(list))
    {
      s := new Scheduler();
      s.LoadAll(list);
      s.LoadedRight(list);
      s.LoadedNormal(list);
      s.LoadedEnds(list);
      LoadedMeans(list);
    }

    // ----- editing

    /** The entries once the weight of the unit at `p` has been set to a raw one. */
    ghost function Pending(p: nat): seq<Entry>
      requires p < |addrs|
      reads this`addrs, this`delta, addrs
    {
      AllBut(EntriesOf(addrs), delta, p)
    }

    /**
     Normalises the weights again after the raw weight of `unit` has been set, and drops it if
     that is zero; the index it has or had.
     */
    method Adjust(unit: AddrUnit, ghost p: nat, ghost t: seq<Entry>) returns (at: nat)
      requires Linked() && p < |addrs| && addrs[p] == unit && t == Pending(p) && CursorOk()
      requires forall k :: 0 <= k < |t| && k != p ==> t[k].weight > 0
      modifies this`addrs, this`addrm, this`n, this`max, this`delta, addrs`weight
      ensures Valid() && Normalised() && Table() == Heavy(t) && at == p
      ensures addrs == if t[p].weight == 0 then Cut(old(addrs), p) else old(addrs)
    {
      AllButIsUnscaled(EntriesOf(addrs), delta, p);
      HeavyFacts(t, p);
      at := AdjustTo(unit, p, EntriesOf(addrs), t, Heavy(t));
    }

    method AdjustTo(unit: AddrUnit, ghost p: nat, ghost es: seq<Entry>, ghost t: seq<Entry>, ghost h: seq<Entry>)
      returns (at: nat)
      requires Linked() && p < |addrs| && addrs[p] == unit && EntriesOf(addrs) == es && |t| == |es| && CursorOk()
      requires Unscaled(t, es, delta, p)
      requires h == (if t[p].weight == 0 then Cut(t, p) else t) && Foldable(t, h)
      modifies this`addrs, this`addrm, this`n, this`max, this`delta, addrs`weight
      ensures Valid() && Normalised() && Table() == h && at == p
      ensures addrs == if t[p].weight == 0 then Cut(old(addrs), p) else old(addrs)
    {
      var d;
      ghost var before := addrs;
      at, d := ScaleAndDrop(unit, p, es, t, h);
      StillThere(before, addrs, p);
      Normalise(d, h);
    }

    /** `t` are the raw entries, and `h` those that stay. */
    method ScaleAndDrop(unit: AddrUnit, ghost p: nat, ghost es: seq<Entry>, ghost t: seq<Entry>, ghost h: seq<Entry>)
      returns (at: nat, d: nat)
      requires Linked() && p < |addrs| && addrs[p] == unit && EntriesOf(addrs) == es && |t| == |es|
      requires Unscaled(t, es, delta, p)
      requires h == if t[p].weight == 0 then Cut(t, p) else t
      modifies this`addrs, this`addrm, this`max, addrs`weight
      ensures Linked() && EntriesOf(addrs) == h && at == p && d == Divisor(t) && max == Heaviest(t)
      ensures addrs == if t[p].weight == 0 then Cut(old(addrs), p) else old(addrs)
    {
      at, d, max := Scale(addrs, unit, delta, p, es, t);
      EntriesAt(addrs, p);
      if unit.weight == 0 { Drop(at, unit, t); }
    }

    method Drop(at: nat, unit: AddrUnit, ghost t: seq<Entry>)
      requires Linked() && at < |addrs| && addrs[at] == unit && EntriesOf(addrs) == t
      modifies this`addrs, this`addrm
      ensures Linked() && addrs == Cut(old(addrs), at) && EntriesOf(addrs) == Cut(t, at)
    {
      LinkedLess(addrs, addrm, unit.address);
      EntriesLess(addrs, at);
      addrs := Cut(addrs, at);
      addrm := addrm - {unit.address};
    }

    /** The entries divided by `d`, and `m` with them. */
    ghost predicate IsDivided(t: seq<Entry>, d: nat, m: nat)
      reads this, addrs
    {
      && Linked() && n == |addrs| == |t|
      && if n == 0 then delta == 0 && max == m
        else delta == d > 0 && max == m / d && EntriesOf(addrs) == DividedBy(t, d)
    }

    /** The raw weights of the units are divided by `d`. */
    method Renew(d: nat, ghost t: seq<Entry>)
      requires Linked() && EntriesOf(addrs) == t && (t == [] || d > 0)
      modifies this`n, this`max, this`delta, addrs`weight
      ensures IsDivided(t, d, old(max))
    {
      n := |addrs|;
      if n == 0 {
        delta := 0;
      } else {
        DivideAll(addrs, d, t);
        max, delta := max / d, d;
      }
    }

    lemma Renewed(t: seq<Entry>)
      ensures CursorOk() && Weighty(t) && IsDivided(t, Divisor(t), Heaviest(t)) ==>
        Valid() && Normalised() && Table() == t
    {
      if t != [] && Weighty(t) { Quotients(t); }
    }

    method Normalise(d: nat, ghost t: seq<Entry>)
      requires Linked() && CursorOk() && EntriesOf(addrs) == t && Weighty(t) && (t == [] || d > 0)
      requires d == Divisor(t) && max == Heaviest(t)
      modifies this`n, this`max, this`delta, addrs`weight
      ensures Valid() && Normalised() && Table() == t
    {
      Renew(d, t);
      Renewed(t);
    }

    lemma LoadedRight(list: seq<Entry>)
      ensures CursorOk() && IsDivided(Loaded(list), Divisor(list), Heaviest(list)) ==>
        Valid() && Table() == Loaded(list)
    {
      var t, d := Loaded(list), Divisor(list);
      LoadedDivides(list);
      LoadedNone(list);
      if t != [] {
        DividedExactly(t, d);
        Quotient(Heaviest(t), Heaviest(list), d);
      }
    }

    lemma LoadedEnds(list: seq<Entry>)
      ensures IsDivided(Loaded(list), Divisor(list), Heaviest(list)) && n > 0 ==>
        max > 0 && (EveryCallEnds(Weights(), max) <==> Heaviest(Loaded(list)) == Heaviest(list))
    {
      if Loaded(list) != [] { NewEndsIff(list); }
    }

    lemma LoadedNormal(list: seq<Entry>)
      ensures CursorOk() && Distinct(Heavy(list)) && IsDivided(Loaded(list), Divisor(list), Heaviest(list)) ==>
        Normalised()
    {
      if Distinct(Heavy(list)) {
        DistinctLoads(list);
        Renewed(Loaded(list));
      }
    }

    method Reweigh(unit: AddrUnit, ghost p: nat, e: Entry)
      requires Apart(addrs) && p < |addrs| && addrs[p] == unit && unit.address == e.address
      modifies unit`weight
      ensures Pending(p) == old(Table())[p := e]
    {
      ghost var es := EntriesOf(addrs);
      AllEntries(addrs);
      unit.weight := e.weight;
      AllEntries(addrs);
      assert EntriesOf(addrs) == es[p := e];
      AllButSet(es, delta, p, e);
    }

    method Append(unit: AddrUnit, e: Entry)
      requires Linked() && Place(addrs, e.address) == |addrs| && e == Entry(unit.address, unit.weight)
      modifies this`addrs, this`addrm
      ensures Linked() && addrs == old(addrs) + [unit]
      ensures Pending(|old(addrs)|) == old(Table()) + [e]
    {
      LinkedMore(addrs, addrm, unit);
      EntriesMore(addrs, unit);
      AllButLast(EntriesOf(addrs), delta, e);
      addrs := addrs + [unit];
      addrm := addrm[unit.address := unit];
    }

    /** The unit of an address, a new one if there is none, with its raw weight. */
    method Mark(e: Entry, ghost p: nat) returns (unit: AddrUnit)
      requires Linked() && p == Place(addrs, e.address)
      modifies this`addrs, this`addrm, addrs`weight
      ensures Linked() && p < |addrs| && addrs[p] == unit && Pending(p) == Marked(old(Table()), e)
      ensures if p < |old(addrs)| then addrs == old(addrs) else addrs == old(addrs) + [unit] && fresh(unit)
    {
      PlaceInTable(addrs, delta, e.address);
      PlaceIsFirst(addrs, e.address);
      if e.address in addrm {
        unit := addrm[e.address];
        Reweigh(unit, p, e);
      } else {
        unit := new AddrUnit(e.address, e.weight);
        Append(unit, e);
      }
    }

    /** Sets the raw weight of an address, or adds it; the index it has or had. */
    method Edit(e: Entry) returns (at: nat)
      requires Valid()
      modifies this`addrs, this`addrm, this`n, this`max, this`delta, addrs`weight
      ensures Valid() && Normalised() && Table() == Edited(old(Table()), e)
      ensures at == IndexOf(old(Table()), e.address)
      ensures at < old(n) ==> addrs == if e.weight == 0 then Cut(old(addrs), at) else old(addrs)
      ensures at == old(n) && e.weight == 0 ==> addrs == old(addrs)
      ensures at == old(n) && e.weight > 0 ==> |addrs| == at + 1 && addrs[..at] == old(addrs) && fresh(addrs[at])
    {
      PlaceInTable(addrs, delta, e.address);
      TableWeighty();
      EditedIsHeavy(Table(), e);
      MarkedFacts(Table(), e);
      at := EditTo(e, Place(addrs, e.address), Marked(Table(), e));
    }

    method EditTo(e: Entry, ghost p: nat, ghost t: seq<Entry>) returns (at: nat)
      requires Linked() && CursorOk() && p == Place(addrs, e.address) && t == Marked(Table(), e)
      requires p < |t| && t[p] == e && forall k :: 0 <= k < |t| && k != p ==> t[k].weight > 0
      modifies this`addrs, this`addrm, this`n, this`max, this`delta, addrs`weight
      ensures Valid() && Normalised() && Table() == Heavy(t) && at == p
      ensures p < |old(addrs)| ==> addrs == if e.weight == 0 then Cut(old(addrs), p) else old(addrs)
      ensures p >= |old(addrs)| && e.weight == 0 ==> addrs == old(addrs)
      ensures p >= |old(addrs)| && e.weight > 0 ==> |addrs| == p + 1 && addrs[..p] == old(addrs) && fresh(addrs[p])
    {
      var unit := Mark(e, p);
      CutLast(old(addrs), unit);
      at := Adjust(unit, p, t);
    }

    lemma TableWeighty()
      requires Valid()
      ensures Weighty(Table())
    {
      if n > 0 { MultipliedWeighty(EntriesOf(addrs), delta); }
    }

    method Update(e: Entry)
      requires Valid()
      modifies this`addrs, this`addrm, this`n, this`max, this`delta, addrs`weight
      ensures Valid() && Normalised() && Table() == Edited(old(Table()), e)
      ensures forall k :: 0 <= k < |addrs| ==> addrs[k] in old(addrs) || fresh(addrs[k])
    {
      var at := Edit(e);
      forall k | 0 <= k < |addrs| ensures addrs[k] in old(addrs) || fresh(addrs[k]) {
        FromBefore(old(addrs), addrs, at, k);
      }
    }

    /** Removes an address; unless the cursor is at it, the cursor stays at its unit. */
    method Remove(address: Address)
      requires Valid()
      modifies this`addrs, this`addrm, this`n, this`max, this`delta, this`i, addrs`weight
      ensures Valid() && Normalised() && Table() == Edited(old(Table()), Entry(address, 0))
      ensures addrs == var at := IndexOf(old(Table()), address); if at < old(n) then Cut(old(addrs), at) else old(addrs)
      ensures i == Shifted(old(i), IndexOf(old(Table()), address), n)
    {
      var at := Edit(Entry(address, 0));
      Shift(at);
    }

    method Shift(at: nat)
      requires Valid()
      modifies this`i
      ensures Valid() && i == Shifted(old(i), at, n)
    {
      if n > 0 && i > at { i := (i - 1) % n; }
    }
  }

  /** Where all units are available, a call is a step of the walk over their weights. */
  lemma AllUp(ws: seq<nat>, max: nat, c: Cursor, probes: seq<bool>, k: nat)
    requires Balanced(ws, max) && Ready(|ws|, max, c) && |probes| == 2 * |ws|
    requires forall j :: 0 <= j < |probes| ==> probes[j]
    requires Called(ws, max, c, probes, k)
    ensures 0 < k <= |ws| && FirstPick(ws, max, c, k) && Walk(|ws|, max, c, k) == RoundRobin.After(ws, max, c, 1)
    ensures LastUp(|ws|, max, c, probes, k) == Walk(|ws|, max, c, k).i < |ws|
  {
    var up := seq(|ws|, _ => true);
    assert Usable(ws, up) == ws;
    forall j: nat | 0 < j <= |probes|
      ensures Walk(|ws|, max, c, j).i < |ws| && probes[j-1] == up[Walk(|ws|, max, c, j).i]
    {
      WalkIndex(|ws|, max, c, j);
    }
    SteadyCall(ws, max, c, probes, up, k);
    forall j: nat | 0 < j < k ensures !PicksAfter(ws, max, c, j) {
      assert !Taken(ws, max, c, probes, j);
    }
  }

  /** The addresses are those of the units at the indices. */
  predicate AreAt(addrs: seq<AddrUnit>, got: seq<Address>, picks: seq<nat>) {
    |got| == |picks| && forall k :: 0 <= k < |got| ==> picks[k] < |addrs| && got[k] == addrs[picks[k]].address
  }

  lemma AreAtMore(addrs: seq<AddrUnit>, got: seq<Address>, picks: seq<nat>, i: nat)
    requires AreAt(addrs, got, picks) && i < |addrs|
    ensures AreAt(addrs, got + [addrs[i].address], picks + [i])
  {
  }

  lemma {:induction false} CountedByAddress(addrs: seq<AddrUnit>, got: seq<Address>, picks: seq<nat>, u: nat)
    requires Apart(addrs) && u < |addrs| && AreAt(addrs, got, picks)
    ensures multiset(got)[addrs[u].address] == Count(picks, u)
    decreases |got|
  {
    if got != [] {
      var k := |got| - 1;
      assert got == got[..k] + [got[k]] && picks == picks[..k] + [picks[k]];
      CountedByAddress(addrs, got[..k], picks[..k], u);
      CountOn(picks[..k], [picks[k]], u);
      CountOne(picks[k], u);
      SamePlace(addrs, picks[k], u);
    }
  }

  lemma LoadedNext(list: seq<Entry>, k: nat)
    requires k < |list|
    ensures Loaded(list[..k+1]) ==
            if list[k].weight == 0 then Loaded(list[..k])
            else Edited(Loaded(list[..k]), list[k].(weight := 0)) + [list[k]]
  {
    assert list[..k+1][..k] == list[..k];
  }

  lemma Quotient(a: nat, b: nat, d: nat)
    requires a <= b && d > 0
    ensures a / d <= b / d
  {
    assert d * (a / d) <= a;
    QuotientOf(d, a / d, b);
  }

  /** The cursor's index after a removal at `at`. */
  function Shifted(i: nat, at: nat, n: nat): nat { if n > 0 && i > at then (i - 1) % n else i }

  /** Unless the removed unit is the one at the cursor, the cursor stays at its unit; else it moves on to the next. */
  lemma ShiftedStays<T>(s: seq<T>, at: nat, i: nat)
    requires at < |s| && i < |s|
    ensures var c, j := Cut(s, at), Shifted(i, at, |s| - 1);
      && (i != at ==> j < |c| && c[j] == s[i])
      && (i == at ==> j == |c| || (j < |c| && c[j] == s[i+1]))
  {
    var n := |s| - 1;
    CutAt(s, at, Shifted(i, at, n));
    BelowModulus(i - 1, n);
  }

  lemma BelowModulus(i: int, n: nat)
    ensures 0 <= i < n ==> i % n == i
  {
  }

  lemma FromBefore<T>(before: seq<T>, after: seq<T>, at: nat, k: nat)
    requires k < |after|
    requires after == before || (at < |before| && after == Cut(before, at)) ||
      (|after| == |before| + 1 && after[..|before|] == before)
    ensures after[k] in before || (|after| == |before| + 1 && k == |before|)
  {
    if |after| == |before| + 1 {
      if k < |before| { assert after[k] == after[..|before|][k]; }
    } else if after != before {
      assert after[k] == before[if k < at then k else k + 1];
    }
  }

  lemma PutAgain<K, V>(m: map<K, V>, k: K, v: V)
    ensures (m - {k})[k := v] == m[k := v]
  {
  }

  lemma {:induction false} StillThere(before: seq<AddrUnit>, after: seq<AddrUnit>, p: nat)
    requires p < |before| && (after == before || after == Cut(before, p))
    ensures forall u :: u in after ==> u in before
  {
  }

  lemma AllButIsUnscaled(es: seq<Entry>, delta: nat, p: nat)
    requires p < |es|
    ensures Unscaled(AllBut(es, delta, p), es, delta, p)
  {
    forall k: nat | k < |es| ensures IsUnscaled(AllBut(es, delta, p), es, delta, p, k) { MultipliedAt(es, delta, k); }
  }

  /** The last available unit, if there is one. */
  lemma Fallback(addrs: seq<AddrUnit>, max: nat, c: Cursor, probes: seq<bool>, k: nat)
    requires addrs != [] && k <= |probes|
    ensures AddressAt(addrs, LastUp(|addrs|, max, c, probes, k)) == None <==> forall j :: 0 <= j < k ==> !probes[j]
    ensures forall j: nat :: 0 < j <= k && probes[j-1] && (forall m :: j <= m < k ==> !probes[m]) ==>
              var u := Walk(|addrs|, max, c, j).i;
              u < |addrs| && AddressAt(addrs, LastUp(|addrs|, max, c, probes, k)) == Some(addrs[u].address)
  {
    LastUpMeans(|addrs|, max, c, probes, k);
    forall j: nat | j > 0 ensures Walk(|addrs|, max, c, j).i < |addrs| { WalkIndex(|addrs|, max, c, j); }
  }

  function AddressAt(addrs: seq<AddrUnit>, u: int): Option<Address>
    requires u < |addrs|
  {
    if u < 0 then None else Some(addrs[u].address)
  }

  // ----- fairness

  /** Normalised weights have no common divisor but 1, and one of them is as heavy as any round needs. */
  lemma NormalisedMeans(t: seq<Entry>, q: seq<Entry>)
    requires t != [] && Weighty(t) && Divisor(t) > 0 && q == DividedBy(t, Divisor(t))
    ensures IsGcdOf(1, WeightsOf(q)) && Balanced(WeightsOf(q), Heaviest(q))
  {
    var d := Divisor(t);
    Quotients(t);
    DivisorIsGcd(t);
    HeavySame(t);
    QuotientsAre(t, q, d);
    QuotientsCoprime(d, WeightsOf(t), WeightsOf(q));
    HeaviestBalances(q);
  }

  lemma QuotientsAre(t: seq<Entry>, q: seq<Entry>, d: nat)
    requires t == Multiplied(q, d)
    ensures forall k :: 0 <= k < |WeightsOf(t)| ==> WeightsOf(t)[k] == WeightsOf(q)[k] * d
  {
    forall k | 0 <= k < |t| ensures t[k].weight == q[k].weight * d { MultipliedAt(q, d, k); }
  }

  lemma HeaviestBalances(q: seq<Entry>)
    requires q != [] && Weighty(q)
    ensures Balanced(WeightsOf(q), Heaviest(q))
  {
    HeaviestIsMax(q, |q|);
    var k :| 0 <= k < |q| && q[k].weight == Heaviest(q);
    assert WeightsOf(q)[k] == Heaviest(q);
  }

  /**
   With the divisor and the maximum of a list that `t` comes from, some unit is as heavy as any
   round needs, and so one is picked in every round, exactly if the heaviest entry is one of `t`.
   */
  lemma BalancedIff(t: seq<Entry>, d: nat, m: nat)
    requires t != [] && Weighty(t) && d > 0 && DividesAll(d, WeightsOf(t)) && Divides(d, m) && Heaviest(t) <= m
    ensures Balanced(WeightsOf(DividedBy(t, d)), m / d) <==> Heaviest(t) == m
  {
    var q := DividedBy(t, d);
    DividedExactly(t, d);
    HeaviestBalances(q);
    HeaviestIsMax(q, |q|);
    if Heaviest(t) < m { QuotientLess(Heaviest(t), m, d); }
  }

  /** What a list leaves to a new scheduler, with the divisor and the maximum of the whole list. */
  lemma LoadedMeets(list: seq<Entry>)
    requires Loaded(list) != []
    ensures Weighty(Loaded(list)) && Divisor(list) > 0 && DividesAll(Divisor(list), WeightsOf(Loaded(list)))
    ensures Divides(Divisor(list), Heaviest(list)) && 0 < Heaviest(Loaded(list)) <= Heaviest(list)
  {
    LoadedDivides(list);
    HeaviestIsMax(Loaded(list), |Loaded(list)|);
    assert Loaded(list)[0].weight > 0;
    HeaviestDivides(list);
  }

  /**
   With what a list leaves to a new scheduler, every call ends within a round exactly if the
   heaviest entry of the list has not been overwritten; if it has, the very first call does not.
   */
  lemma NewEndsIff(list: seq<Entry>)
    requires Loaded(list) != []
    ensures Divisor(list) > 0 && Heaviest(list) / Divisor(list) > 0
    ensures var ws, max := WeightsOf(DividedBy(Loaded(list), Divisor(list))), Heaviest(list) / Divisor(list);
      && (EveryCallEnds(ws, max) <==> Heaviest(Loaded(list)) == Heaviest(list))
      && (EndsInARound(ws, max, Cursor(0, 0)) <==> Heaviest(Loaded(list)) == Heaviest(list))
  {
    var t, d, m := Loaded(list), Divisor(list), Heaviest(list);
    LoadedMeets(list);
    BalancedIff(t, d, m);
    DividedExactly(t, d);
    var q := DividedBy(t, d);
    HeaviestIsMax(q, |q|);
    Quotient(Heaviest(t), m, d);
    assert q[0].weight > 0;
    WithinARoundIffBalanced(WeightsOf(q), m / d);
  }

  /** Where the weight of "a:1" is first 10 and then 1, the first call does not find a unit within a round. */
  lemma OverwrittenHeaviest(list: seq<Entry>)
    requires list == [Entry("a:1", 10), Entry("a:1", 1), Entry("b:1", 1)]
    ensures Loaded(list) == list[1..] && Divisor(list) == 1
    ensures !EndsInARound(WeightsOf(DividedBy(Loaded(list), 1)), Heaviest(list), Cursor(0, 0))
  {
    assert list[1].address[0] != list[2].address[0];
    OverwrittenLoads(list[0], list[1], list[2]);
    assert list == [list[0], list[1], list[2]] && list[1..] == [list[1], list[2]];
    OverwrittenFolds(list);
    NewEndsIff(list);
  }

  lemma OverwrittenLoads(a: Entry, c: Entry, b: Entry)
    requires a.address == c.address != b.address && a.weight > 0 && c.weight > 0 && b.weight > 0
    ensures Loaded([a, c, b]) == [c, b]
  {
    LoadsAlone([], [], a);
    assert [] + [a] == [a];
    LoadsOver([a], [a], c);
    assert [a] + [c] == [a, c];
    LoadsBeside([a, c], c, b);
    assert [a, c] + [b] == [a, c, b];
  }

  lemma LoadsAlone(front: seq<Entry>, t: seq<Entry>, e: Entry)
    requires Loaded(front) == t == [] && e.weight > 0
    ensures Loaded(front + [e]) == [e]
  {
    LoadsMore(front, t, e, [e]);
  }

  /** Another entry of the only address so far takes the place of the earlier one. */
  lemma LoadsOver(front: seq<Entry>, t: seq<Entry>, e: Entry)
    requires Loaded(front) == t && |t| == 1 && t[0].address == e.address && e.weight > 0
    ensures Loaded(front + [e]) == [e]
  {
    assert IndexOf(t, e.address) == 0 && Cut(t, 0) == [];
    LoadsMore(front, t, e, [e]);
  }

  lemma LoadsBeside(front: seq<Entry>, a: Entry, e: Entry)
    requires Loaded(front) == [a] && e.weight > 0 && a.address != e.address
    ensures Loaded(front + [e]) == [a, e]
  {
    LoadsMore(front, [a], e, [a, e]);
  }

  lemma LoadsMore(front: seq<Entry>, t: seq<Entry>, e: Entry, u: seq<Entry>)
    requires Loaded(front) == t && e.weight > 0 && u == Edited(t, e.(weight := 0)) + [e]
    ensures Loaded(front + [e]) == u
  {
    assert (front + [e])[..|front|] == front;
  }

  lemma OverwrittenFolds(list: seq<Entry>)
    requires list == [Entry("a:1", 10), Entry("a:1", 1), Entry("b:1", 1)] && Loaded(list) == list[1..]
    ensures Divisor(list) == 1 && Heaviest(list) == 10 && Heaviest(Loaded(list)) == 1
  {
    var t := list[1..];
    assert HeaviestTo(list, 1) == 10 && HeaviestTo(list, 2) == 10 && HeaviestTo(t, 1) == 1;
    LoadedMeets(list);
    assert WeightsOf(t)[0] == 1;
    DividesBound(Divisor(list), 1);
  }

  lemma HeaviestDivides(list: seq<Entry>)
    requires Heaviest(list) > 0
    ensures Divides(Divisor(list), Heaviest(list))
  {
    HeaviestIsMax(list, |list|);
    var j :| 0 <= j < |list| && list[j].weight == Heaviest(list);
    DivisorIsGcd(list);
    DividesSelf(Divisor(list));
    var m := HeavyHas(list, j);
    assert WeightsOf(Heavy(list))[m] == Heaviest(list);
  }

  lemma QuotientLess(a: nat, b: nat, d: nat)
    requires a < b && d > 0 && Divides(d, b)
    ensures a / d < b / d
  {
    var k: nat :| b == d * k;
    QuotientOf(d, k, b);
    assert d * (a / d - k + 1) == d * (a / d) - d * k + d;
    LessThanOne(d, a / d - k + 1, d - 1);
  }

  /** Two schedulers of the same table, both normalised, are the same but for their cursors. */
  lemma SameTableSameState(s: Scheduler, r: Scheduler)
    requires s.Valid() && s.Normalised() && r.Valid() && r.Normalised() && s.Table() == r.Table()
    ensures s.n == r.n && s.delta == r.delta && s.max == r.max && EntriesOf(s.addrs) == EntriesOf(r.addrs)
  {
    if s.n > 0 { MultipliedInjective(EntriesOf(s.addrs), EntriesOf(r.addrs), s.delta); }
  }

  lemma MultipliedInjective(a: seq<Entry>, b: seq<Entry>, d: nat)
    requires d > 0 && Multiplied(a, d) == Multiplied(b, d)
    ensures a == b
  {
    assert |a| == |Multiplied(a, d)| == |b|;
    forall k | 0 <= k < |a| ensures a[k] == b[k] {
      MultipliedAt(a, d, k);
      MultipliedAt(b, d, k);
      SameFactor(a[k].weight, b[k].weight, d);
    }
  }

  lemma SameFactor(a: nat, b: nat, d: nat)
    requires d > 0
    ensures a * d == b * d ==> a == b
  {
    assert (a - b) * d == a * d - b * d;
  }

  /**
   The normalised weights of a table, with all addresses available: from the very first call on,
   any `Sum(ws)` consecutive calls return every address as often as its normalised weight says.
   */
  lemma TableIsFair(t: seq<Entry>, d: nat, j: nat, u: nat)
    requires Weighty(t) && u < |t| && d == Divisor(t)
    ensures d > 0 && Balanced(WeightsOf(DividedBy(t, d)), Heaviest(t) / d)
    ensures var ws := WeightsOf(DividedBy(t, d));
      ws[u] * d == t[u].weight && Count(Calls(ws, Heaviest(t) / d, Cursor(0, 0), j + Sum(ws))[j..], u) == ws[u]
  {
    Quotients(t);
    var q := DividedBy(t, d);
    MultipliedAt(q, d, u);
    HeaviestBalances(q);
    EveryWindowIsFair(WeightsOf(q), Heaviest(t) / d, Cursor(0, 0), j, u);
  }

  /**
   A list of distinct addresses is loaded as it is, but for zero weights, and its weights are those of
   `TableIsFair`.
   */
  lemma DistinctLoads(list: seq<Entry>)
    requires Distinct(Heavy(list))
    ensures Loaded(list) == Heavy(list) && Weighty(Loaded(list))
    ensures Divisor(list) == Divisor(Loaded(list)) && Heaviest(list) == Heaviest(Loaded(list))
  {
    LoadedHeavy(list);
    FoldHeavy(list);
    HeavyIsWeighty(list);
  }
}
