/** The cache as objects: a hash chooses the bucket, and every bucket keeps its own map. */
module ShardedCache {
  import opened ExpiringCache
  import opened Options

  const OFFSET32: bv32 := 0x811c9dc5
  const PRIME32: bv32 := 0x1000193

  function Mixed(h: bv32, b: bv8): bv32 { (h ^ (b as bv32)) * PRIME32 }

  /** The 32-bit FNV-1a hash, of the first `n` bytes. */
  function FnvTo(s: Key, n: nat): bv32
    requires n <= |s|
  {
    if n == 0 then OFFSET32 else Mixed(FnvTo(s, n - 1), s[n-1])
  }

  function Fnv(s: Key): bv32 { FnvTo(s, |s|) }

  method Mix(h: bv32, b: bv8) returns (m: bv32)
    ensures m == Mixed(h, b)
  {
    m := (h ^ (b as bv32)) * PRIME32;
  }

  method Fnv32a(s: Key) returns (h: bv32)
    ensures h == Fnv(s)
  {
    h := OFFSET32;
    var i := 0;
    while i < |s|
      invariant i <= |s| && h == FnvTo(s, i)
    {
      h := Mix(h, s[i]);
      i := i + 1;
    }
  }

  /** The published values of the hash, of "", "a" and "foobar". */
  lemma FnvVectors()
    ensures Fnv([]) == 0x811c9dc5 && Fnv([0x61]) == 0xe40c292c
    ensures Fnv([0x66, 0x6f, 0x6f, 0x62, 0x61, 0x72]) == 0xbf9cf968
  {
    var s: Key := [0x66, 0x6f, 0x6f, 0x62, 0x61, 0x72];
    assert FnvTo(s, 1) == Mixed(OFFSET32, 0x66);
    assert FnvTo(s, 2) == Mixed(FnvTo(s, 1), 0x6f);
    assert FnvTo(s, 3) == Mixed(FnvTo(s, 2), 0x6f);
    assert FnvTo(s, 4) == Mixed(FnvTo(s, 3), 0x62);
    assert FnvTo(s, 5) == Mixed(FnvTo(s, 4), 0x61);
  }

  /** The bucket of a key, of `n` buckets. */
  function HomeAt(k: Key, n: nat): (i: nat)
    requires n > 0
    ensures i < n
  {
    Fnv(k) as nat % n
  }

  function HomeOf(n: nat): Home
    requires n > 0
  {
    k => HomeAt(k, n)
  }

  datatype Pair = Pair(key: Key, value: Element)

  function KeysOf(pairs: seq<Pair>): set<Key> { set j | 0 <= j < |pairs| :: pairs[j].key }

  class Bucket {
    var elements: map<Key, Element>

    constructor ()
      ensures elements == map[]
    {
      elements := map[];
    }

    method Set(k: Key, data: int, d: int, now: int, stamp: nat)
      modifies this
      ensures elements == old(elements)[k := Made(data, d, now, stamp)]
      ensures elements - {k} == old(elements) - {k} && k in elements && elements[k].data == data
      ensures elements[k].expiration == if d > 0 then now + d else 0
    {
      var expiration := 0;
      if d > 0 { expiration := now + d; }
      elements := elements[k := Element(data, expiration, stamp)];
    }

    method Get(k: Key, now: int) returns (r: Option<int>)
      ensures r == Answer(elements, k, now)
      ensures r == if k in elements && (elements[k].expiration == 0 || now <= elements[k].expiration)
        then Some(elements[k].data) else None
    {
      if k !in elements { return None; }
      var e := elements[k];
      if e.expiration != 0 && now > e.expiration { return None; }
      r := Some(e.data);
    }

    /** The element is removed, and returned to be finalized. */
    method Del(k: Key) returns (removed: Option<Element>)
      modifies this
      ensures elements == old(elements) - {k}
      ensures removed == if k in old(elements) then Some(old(elements)[k]) else None
    {
      removed := if k in elements then Some(elements[k]) else None;
      elements := elements - {k};
    }

    /** The expired elements are removed, and returned to be finalized, each once. */
    method Clean(now: int) returns (pairs: seq<Pair>)
      modifies this
      ensures elements == Live(old(elements), now)
      ensures forall k :: k in old(elements) ==>
        (k in elements <==> old(elements)[k].expiration == 0 || now <= old(elements)[k].expiration)
      ensures elements.Keys <= old(elements).Keys && forall k :: k in elements ==> elements[k] == old(elements)[k]
      ensures KeysOf(pairs) == old(elements).Keys - elements.Keys
      ensures KeysOf(pairs) == ExpiredKeys(old(elements), now) && Once(pairs)
      ensures forall j :: 0 <= j < |pairs| ==>
        pairs[j].key in old(elements) && pairs[j].value == old(elements)[pairs[j].key]
    {
      pairs := [];
      var todo := elements.Keys;
      ghost var done: set<Key> := {};
      while todo != {}
        invariant todo + done == old(elements).Keys && todo !! done
        invariant elements == map k | k in old(elements) && (k in done ==> !Expired(old(elements)[k], now)) ::
          old(elements)[k]
        invariant KeysOf(pairs) == set k | k in done && Expired(old(elements)[k], now)
        invariant Once(pairs)
        invariant forall j :: 0 <= j < |pairs| ==>
          pairs[j].key in old(elements) && pairs[j].value == old(elements)[pairs[j].key]
        decreases todo
      {
        var k :| k in todo;
        todo := todo - {k};
        var e := elements[k];
        if e.expiration != 0 && now > e.expiration {
          KeysMore(pairs, Pair(k, e));
          elements := elements - {k};
          pairs := pairs + [Pair(k, e)];
        }
        done := done + {k};
      }
    }
  }

  predicate Once(pairs: seq<Pair>) { forall i, j :: 0 <= i < j < |pairs| ==> pairs[i].key != pairs[j].key }

  lemma KeysMore(pairs: seq<Pair>, p: Pair)
    ensures KeysOf(pairs + [p]) == KeysOf(pairs) + {p.key}
    ensures Once(pairs) && p.key !in KeysOf(pairs) ==> Once(pairs + [p])
  {
    var more := pairs + [p];
    forall k | k in KeysOf(pairs) + {p.key} ensures k in KeysOf(more) {
      if k == p.key {
        assert more[|pairs|].key == k;
      } else {
        var j :| 0 <= j < |pairs| && pairs[j].key == k;
        assert more[j].key == k;
      }
    }
    if Once(pairs) && p.key !in KeysOf(pairs) {
      forall i, j | 0 <= i < j < |more| ensures more[i].key != more[j].key {
        if j == |pairs| { assert pairs[i].key in KeysOf(pairs); }
      }
    }
  }

  // ----- the cache

  ghost function MapsOf(buckets: seq<Bucket>): (ms: seq<map<Key, Element>>)
    reads buckets
    ensures |ms| == |buckets| && forall i :: 0 <= i < |buckets| ==> ms[i] == buckets[i].elements
  {
    seq(|buckets|, i requires 0 <= i < |buckets| reads buckets => buckets[i].elements)
  }

  ghost predicate AllEmpty(buckets: seq<Bucket>)
    reads buckets
  {
    forall i :: 0 <= i < |buckets| ==> buckets[i].elements == map[]
  }

  ghost predicate AllBelow(ms: seq<map<Key, Element>>, sets: nat) {
    forall i, k {:trigger k in ms[i]} :: 0 <= i < |ms| && k in ms[i] ==> ms[i][k].stamp < sets
  }

  predicate Apart(buckets: seq<Bucket>) { forall i, j :: 0 <= i < j < |buckets| ==> buckets[i] != buckets[j] }

  class XCache {
    const n: nat
    const buckets: seq<Bucket>
    var sets: nat                   // how many elements have been set
    ghost var keys: seq<Key>
    ghost var finals: seq<nat>
    ghost var replaced: set<nat>
    ghost var history: seq<Event>   // the calls that have changed something, and the cleanings

    constructor (buckets: seq<Bucket>)
      requires buckets != [] && Apart(buckets) && AllEmpty(buckets)
      ensures Valid() && this.buckets == buckets && State() == Empty(|buckets|) && history == []
    {
      this.buckets, n, sets := buckets, |buckets|, 0;
      keys, finals, replaced, history := [], [], {}, [];
      new;
      assert MapsOf(buckets) == Empty(|buckets|).buckets;
    }

    ghost predicate Sharded()
      reads this, buckets
    {
      n == |buckets| > 0 && Apart(buckets) && |keys| == |finals| == sets && AllBelow(MapsOf(buckets), sets)
    }

    /** The state is what the calls have made of an empty cache. */
    ghost predicate Valid()
      reads this, buckets
    {
      Sharded() && State() == After(Empty(n), HomeOf(n), history)
    }

    /** A call is added to the history. */
    ghost method Record(e: Event, before: Cache)
      requires Sharded() && before == After(Empty(n), HomeOf(n), history) && State() == Do(before, HomeOf(n), e)
      modifies this`history
      ensures Valid() && history == old(history) + [e] && State() == old(State())
    {
      AfterOn(Empty(n), HomeOf(n), history, e);
      history := history + [e];
    }

    ghost function State(): Cache
      reads this, buckets
    {
      Cache(MapsOf(buckets), keys, finals, replaced)
    }

    /** The bucket that the hash of the key chooses. */
    method Choose(k: Key) returns (i: nat)
      requires Sharded()
      ensures i == HomeOf(n)(k) < n
    {
      var h := Fnv32a(k);
      i := h as nat % n;
    }

    method ESet(k: Key, data: int, d: int, now: int)
      requires Valid()
      modifies this, buckets
      ensures Valid() && State() == Do(old(State()), HomeOf(n), Event(Op.Set(k, data, d), now))
      ensures history == old(history) + [Event(Op.Set(k, data, d), now)]
    {
      ghost var before := State();
      SetChosen(k, data, d, now);
      Record(Event(Op.Set(k, data, d), now), before);
    }

    method SetChosen(k: Key, data: int, d: int, now: int)
      requires Sharded()
      modifies this`sets, this`keys, this`finals, this`replaced, buckets
      ensures Sharded() && State() == Do(old(State()), HomeOf(n), Event(Op.Set(k, data, d), now))
    {
      var i := Choose(k);
      ghost var before: seq<map<Key, Element>> := MapsOf(buckets);
      replaced := replaced + if k in before[i] then {before[i][k].stamp} else {};
      buckets[i].Set(k, data, d, now, sets);
      OneChanged(buckets, i, before);
      sets, keys, finals := sets + 1, keys + [k], finals + [0];
    }

    method Set(k: Key, data: int, now: int)
      requires Valid()
      modifies this, buckets
      ensures Valid() && State() == Do(old(State()), HomeOf(n), Event(Op.Set(k, data, 0), now))
      ensures history == old(history) + [Event(Op.Set(k, data, 0), now)]
    {
      ESet(k, data, 0, now);
    }

    /** What the last call to set the key has set, if that has not expired. */
    method Get(k: Key, now: int) returns (r: Option<int>)
      requires Valid()
      ensures r == Answer(Shard(State(), HomeOf(n), k), k, now)
      ensures InOrder(history + [Event(Op.Get(k), now)]) ==> IsAnswer(history, k, now, r)
    {
      HistoryAnswers(n, HomeOf(n), history, k, now);
      var i := Choose(k);
      r := buckets[i].Get(k, now);
    }

    method Del(k: Key, now: int)
      requires Valid()
      modifies this, buckets
      ensures Valid() && State() == Do(old(State()), HomeOf(n), Event(Op.Del(k), now))
      ensures history == old(history) + [Event(Op.Del(k), now)]
    {
      ghost var before := State();
      DelChosen(k, now);
      Record(Event(Op.Del(k), now), before);
    }

    method DelChosen(k: Key, ghost now: int)
      requires Sharded()
      modifies this`finals, buckets
      ensures Sharded() && State() == Do(old(State()), HomeOf(n), Event(Op.Del(k), now))
    {
      var i := Choose(k);
      ghost var before: seq<map<Key, Element>> := MapsOf(buckets);
      var removed := buckets[i].Del(k);
      OneChanged(buckets, i, before);
      if removed.Some? {
        FinalizedNone(finals, before[i]);
        FinalizedMore(finals, before[i], {}, k);
        assert {} + {k} == {k};
        Finalize(Pair(k, removed.value));
      }
    }

    /** The finalizer is called for an element. */
    ghost method Finalize(p: Pair)
      requires p.value.stamp < |finals|
      modifies this`finals
      ensures finals == old(finals)[p.value.stamp := old(finals)[p.value.stamp] + 1]
    {
      finals := finals[p.value.stamp := finals[p.value.stamp] + 1];
    }

    method CleanBucket(i: nat, now: int)
      requires Valid() && i < n
      modifies this, buckets
      ensures Valid() && State() == Do(old(State()), HomeOf(n), Event(Clean(i), now))
      ensures history == old(history) + [Event(Clean(i), now)]
    {
      ghost var before := State();
      CleanChosen(i, now);
      Record(Event(Clean(i), now), before);
    }

    method CleanChosen(i: nat, now: int)
      requires Sharded() && i < n
      modifies this`finals, buckets
      ensures Sharded() && State() == Do(old(State()), HomeOf(n), Event(Clean(i), now))
    {
      ghost var before: seq<map<Key, Element>> := MapsOf(buckets);
      var pairs := buckets[i].Clean(now);
      OneChanged(buckets, i, before);
      FinalizeAll(pairs, before[i]);
    }

    ghost method FinalizeAll(pairs: seq<Pair>, b: map<Key, Element>)
      requires Once(pairs) && |finals| == sets
      requires forall j :: 0 <= j < |pairs| ==>
        pairs[j].key in b && pairs[j].value == b[pairs[j].key] && pairs[j].value.stamp < sets
      modifies this`finals
      ensures finals == Finalized(old(finals), b, KeysOf(pairs))
    {
      var j := 0;
      FinalizedNone(finals, b);
      assert KeysOf(pairs[..0]) == {};
      while j < |pairs|
        invariant j <= |pairs| && |finals| == sets && finals == Finalized(old(finals), b, KeysOf(pairs[..j]))
      {
        assert pairs[..j+1] == pairs[..j] + [pairs[j]];
        KeysMore(pairs[..j], pairs[j]);
        FinalizedMore(old(finals), b, KeysOf(pairs[..j]), pairs[j].key);
        Finalize(pairs[j]);
        j := j + 1;
      }
      assert pairs[..j] == pairs;
    }

    /** All buckets are cleaned, one after the other, each at its own time. */
    method CleanAll(nows: seq<int>)
      requires Valid() && |nows| == n
      modifies this, buckets
      ensures Valid() && State() == After(old(State()), HomeOf(n), Cleans(nows, 0))
      ensures history == old(history) + Cleans(nows, 0)
    {
      var i := 0;
      while i < n
        invariant i <= n && Valid()
        invariant history + Cleans(nows, i) == old(history) + Cleans(nows, 0)
        invariant After(State(), HomeOf(n), Cleans(nows, i)) == After(old(State()), HomeOf(n), Cleans(nows, 0))
      {
        CleansNext(State(), HomeOf(n), history, nows, i);
        CleanBucket(i, nows[i]);
        i := i + 1;
      }
    }
  }

  /** The cleaning of the buckets from the `i`-th on. */
  function Cleans(nows: seq<int>, i: nat): seq<Event>
    requires i <= |nows|
    decreases |nows| - i
  {
    if i == |nows| then [] else [Event(Clean(i), nows[i])] + Cleans(nows, i + 1)
  }

  lemma CleansNext(c: Cache, home: Home, h: seq<Event>, nows: seq<int>, i: nat)
    requires (forall k :: home(k) < |c.buckets|) && i < |nows|
    ensures After(c, home, Cleans(nows, i)) == After(Do(c, home, Event(Clean(i), nows[i])), home, Cleans(nows, i + 1))
    ensures h + Cleans(nows, i) == h + [Event(Clean(i), nows[i])] + Cleans(nows, i + 1)
  {
  }

  /** What the bucket of a key answers, once the calls before are in its history. */
  lemma HistoryAnswers(n: nat, home: Home, es: seq<Event>, k: Key, now: int)
    requires forall l :: home(l) < n
    ensures InOrder(es + [Event(Op.Get(k), now)]) ==>
      IsAnswer(es, k, now, Answer(Shard(After(Empty(n), home, es), home, k), k, now))
  {
    var e := Event(Op.Get(k), now);
    if InOrder(es + [e]) {
      var first := (es + [e])[0].now;
      InTimeLast(es, e, first);
      FoundAfter(n, home, es, k, now, first);
      FoundAnswers(es, k, now, Shard(After(Empty(n), home, es), home, k));
    }
  }

  lemma OneChanged(buckets: seq<Bucket>, i: nat, before: seq<map<Key, Element>>)
    requires i < |buckets| == |before| && forall j :: 0 <= j < |buckets| && j != i ==> buckets[j].elements == before[j]
    ensures MapsOf(buckets) == before[i := buckets[i].elements]
  {
  }
}
