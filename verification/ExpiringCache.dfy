/** A cache of elements that expire, in buckets, and the one map that it stands for. */
module ExpiringCache {
  import opened Options

  type Key = seq<bv8>

  /** `stamp`: the number of the call that stored the element. */
  datatype Element = Element(data: int, expiration: int, stamp: nat)

  predicate Expired(e: Element, now: int) { e.expiration != 0 && now > e.expiration }

  datatype Op = Set(k: Key, data: int, d: int) | Get(k: Key) | Del(k: Key) | Clean(i: nat)

  datatype Event = Event(op: Op, now: int)

  function Made(data: int, d: int, now: int, stamp: nat): Element {
    Element(data, if d > 0 then now + d else 0, stamp)
  }

  function Answer(m: map<Key, Element>, k: Key, now: int): Option<int> {
    if k in m && !Expired(m[k], now) then Some(m[k].data) else None
  }

  /** The elements that have not expired. */
  function Live(m: map<Key, Element>, now: int): map<Key, Element> { map k | k in m && !Expired(m[k], now) :: m[k] }

  // ----- one map

  function DoOne(m: map<Key, Element>, e: Event, stamp: nat): map<Key, Element> {
    match e.op
    case Set(k, data, d) => m[k := Made(data, d, e.now, stamp)]
    case Get(_) => m
    case Del(k) => m - {k}
    case Clean(_) => m
  }

  // ----- buckets

  /**
   The buckets; for every stamp its key and how often its element has been finalized; and the stamps
   that were overwritten.
   */
  datatype Cache = Cache(buckets: seq<map<Key, Element>>, keys: seq<Key>, finals: seq<nat>, replaced: set<nat>)

  /** Which bucket a key belongs to. */
  type Home = Key -> nat

  ghost predicate Fits(c: Cache, home: Home) {
    |c.finals| == |c.keys| && c.buckets != [] && forall k :: home(k) < |c.buckets|
  }

  function Empty(n: nat): Cache { Cache(seq(n, _ => map[]), [], [], {}) }

  function Shard(c: Cache, home: Home, k: Key): map<Key, Element>
    requires home(k) < |c.buckets|
  {
    c.buckets[home(k)]
  }

  function SetIn(c: Cache, home: Home, k: Key, e: Element): Cache
    requires home(k) < |c.buckets|
  {
    var b := Shard(c, home, k);
    var lost := if k in b then {b[k].stamp} else {};
    Cache(c.buckets[home(k) := b[k := e]], c.keys + [k], c.finals + [0], c.replaced + lost)
  }

  function DelIn(c: Cache, home: Home, k: Key): Cache
    requires home(k) < |c.buckets|
  {
    var b := Shard(c, home, k);
    Cache(c.buckets[home(k) := b - {k}], c.keys, if k in b then Finalized(c.finals, b, {k}) else c.finals, c.replaced)
  }

  /** The elements of the keys are finalized. */
  function Finalized(finals: seq<nat>, b: map<Key, Element>, keys: set<Key>): (r: seq<nat>)
    ensures |r| == |finals|
  {
    seq(|finals|, x requires 0 <= x < |finals| => finals[x] + |set k | k in b && b[k].stamp == x && k in keys|)
  }

  function ExpiredKeys(b: map<Key, Element>, now: int): set<Key> { set k | k in b && Expired(b[k], now) }

  function CleanIn(c: Cache, i: nat, now: int): Cache
    requires i < |c.buckets|
  {
    var b := c.buckets[i];
    Cache(c.buckets[i := Live(b, now)], c.keys, Finalized(c.finals, b, ExpiredKeys(b, now)), c.replaced)
  }

  function Do(c: Cache, home: Home, e: Event): Cache
    requires forall k :: home(k) < |c.buckets|
  {
    match e.op
    case Set(k, data, d) => SetIn(c, home, k, Made(data, d, e.now, |c.keys|))
    case Get(_) => c
    case Del(k) => DelIn(c, home, k)
    case Clean(i) => if i < |c.buckets| then CleanIn(c, i, e.now) else c
  }

  // ----- the buckets stand for one map

  /** Every key is in its own bucket, and what has not expired is the same. */
  ghost predicate StandsFor(c: Cache, home: Home, m: map<Key, Element>, now: int)
    requires forall k :: home(k) < |c.buckets|
  {
    forall k {:trigger home(k)} :: SameLive(Shard(c, home, k), m, k, now)
  }

  predicate SameLive(b: map<Key, Element>, m: map<Key, Element>, k: Key, now: int) {
    if k in m && !Expired(m[k], now) then k in b && b[k] == m[k] else k in b ==> Expired(b[k], now)
  }

  lemma StandsLater(c: Cache, home: Home, m: map<Key, Element>, now: int, later: int)
    requires (forall k :: home(k) < |c.buckets|) && StandsFor(c, home, m, now) && now <= later
    ensures StandsFor(c, home, m, later)
  {
    forall k ensures SameLive(Shard(c, home, k), m, k, later) {
      assert SameLive(Shard(c, home, k), m, k, now);
    }
  }

  lemma SameAnswer(c: Cache, home: Home, m: map<Key, Element>, k: Key, now: int)
    requires (forall k :: home(k) < |c.buckets|) && StandsFor(c, home, m, now)
    ensures Answer(Shard(c, home, k), k, now) == Answer(m, k, now)
  {
    assert SameLive(Shard(c, home, k), m, k, now);
  }

  lemma DoStands(c: Cache, home: Home, m: map<Key, Element>, e: Event)
    requires (forall k :: home(k) < |c.buckets|) && StandsFor(c, home, m, e.now)
    ensures |Do(c, home, e).buckets| == |c.buckets|
    ensures StandsFor(Do(c, home, e), home, DoOne(m, e, |c.keys|), e.now)
  {
    var c', m' := Do(c, home, e), DoOne(m, e, |c.keys|);
    forall k ensures SameLive(Shard(c', home, k), m', k, e.now) {
      assert SameLive(Shard(c, home, k), m, k, e.now);
    }
  }

  // ----- runs

  predicate InTime(es: seq<Event>, now: int)
    decreases |es|
  {
    es == [] || (now <= es[0].now && InTime(es[1..], es[0].now))
  }

  function After(c: Cache, home: Home, es: seq<Event>): (d: Cache)
    requires forall k :: home(k) < |c.buckets|
    ensures |d.buckets| == |c.buckets|
    decreases |es|
  {
    if es == [] then c else After(Do(c, home, es[0]), home, es[1..])
  }

  /** What the calls of `Get` in a run answer. */
  function Answers(c: Cache, home: Home, es: seq<Event>): seq<Option<int>>
    requires forall k :: home(k) < |c.buckets|
    decreases |es|
  {
    if es == [] then []
    else
      var answer := if es[0].op.Get? then [Answer(Shard(c, home, es[0].op.k), es[0].op.k, es[0].now)] else [];
      answer + Answers(Do(c, home, es[0]), home, es[1..])
  }

  /** What they answer on one map, from which nothing is ever cleaned; `stamp` counts the calls that set. */
  function AnswersOne(m: map<Key, Element>, es: seq<Event>, stamp: nat): seq<Option<int>>
    decreases |es|
  {
    if es == [] then []
    else
      (if es[0].op.Get? then [Answer(m, es[0].op.k, es[0].now)] else []) +
      AnswersOne(DoOne(m, es[0], stamp), es[1..], if es[0].op.Set? then stamp + 1 else stamp)
  }

  /** Under a clock that does not go back, the buckets answer as the one map does. */
  lemma {:induction false} BucketsAnswerAsOne(c: Cache, home: Home, m: map<Key, Element>, es: seq<Event>, now: int)
    requires (forall k :: home(k) < |c.buckets|) && StandsFor(c, home, m, now) && InTime(es, now)
    ensures Answers(c, home, es) == AnswersOne(m, es, |c.keys|)
    decreases |es|
  {
    if es != [] {
      var e := es[0];
      StandsLater(c, home, m, now, e.now);
      if e.op.Get? { SameAnswer(c, home, m, e.op.k, e.now); }
      DoStands(c, home, m, e);
      BucketsAnswerAsOne(Do(c, home, e), home, DoOne(m, e, |c.keys|), es[1..], e.now);
    }
  }

  function WithoutCleans(es: seq<Event>): seq<Event> {
    if es == [] then [] else (if es[0].op.Clean? then [] else [es[0]]) + WithoutCleans(es[1..])
  }

  lemma {:induction false} CleansIgnored(m: map<Key, Element>, es: seq<Event>, stamp: nat)
    ensures AnswersOne(m, es, stamp) == AnswersOne(m, WithoutCleans(es), stamp)
    decreases |es|
  {
    if es != [] {
      var e := es[0];
      CleansIgnored(DoOne(m, e, stamp), es[1..], if e.op.Set? then stamp + 1 else stamp);
      var rest := WithoutCleans(es[1..]);
      if e.op.Clean? {
        assert [] + rest == rest;
      } else {
        assert ([e] + rest)[0] == e && ([e] + rest)[1..] == rest;
      }
    }
  }

  lemma EmptyStands(n: nat, home: Home, now: int)
    requires forall k :: home(k) < n
    ensures StandsFor(Empty(n), home, map[], now)
  {
    forall k ensures SameLive(Shard(Empty(n), home, k), map[], k, now) {
    }
  }

  /**
   From an empty cache, two runs that differ only in when buckets are cleaned, and in the number of
   buckets, answer alike.
   */
  lemma CleaningIsUnobservable(n: nat, home: Home, p: nat, other: Home, es: seq<Event>, fs: seq<Event>, now: int)
    requires (forall k :: home(k) < n) && (forall k :: other(k) < p) && InTime(es, now) && InTime(fs, now)
    requires WithoutCleans(es) == WithoutCleans(fs)
    ensures Answers(Empty(n), home, es) == Answers(Empty(p), other, fs)
  {
    EmptyStands(n, home, now);
    EmptyStands(p, other, now);
    BucketsAnswerAsOne(Empty(n), home, map[], es, now);
    BucketsAnswerAsOne(Empty(p), other, map[], fs, now);
    CleansIgnored(map[], es, 0);
    CleansIgnored(map[], fs, 0);
  }

  // ----- what `Get` answers, read off the calls before it

  predicate Touches(e: Event, k: Key) { (e.op.Set? || e.op.Del?) && e.op.k == k }

  /** Call `j` is the last one to set or to delete the key. */
  predicate TouchesLast(es: seq<Event>, k: Key, j: int) {
    0 <= j < |es| && Touches(es[j], k) && forall i :: j < i < |es| ==> !Touches(es[i], k)
  }

  /** An element set with a duration is there until that has gone by, unless its end is at the instant zero. */
  predicate Lasts(e: Event, t: int)
    requires e.op.Set?
  {
    e.op.d <= 0 || e.now + e.op.d == 0 || t <= e.now + e.op.d
  }

  /** What `Get` of the key must answer at time `t`, after the calls `es`. */
  ghost predicate IsAnswer(es: seq<Event>, k: Key, t: int, r: Option<int>) {
    && ((forall j :: 0 <= j < |es| ==> !Touches(es[j], k)) ==> r == None)
    && (forall j :: TouchesLast(es, k, j) && es[j].op.Set? ==>
      r == if Lasts(es[j], t) then Some(es[j].op.data) else None)
    && (forall j :: TouchesLast(es, k, j) && es[j].op.Del? ==> r == None)
  }

  /** What the bucket of the key has for it, after the calls `es`. */
  ghost predicate IsFound(es: seq<Event>, k: Key, t: int, b: map<Key, Element>) {
    && (k in b ==> exists j :: TouchesLast(es, k, j) && es[j].op.Set? && IsOf(b[k], es[j]))
    && forall j :: TouchesLast(es, k, j) && es[j].op.Set? && k !in b ==> !Lasts(es[j], t)
  }

  predicate IsOf(x: Element, e: Event)
    requires e.op.Set?
  {
    x.data == e.op.data && x.expiration == if e.op.d > 0 then e.now + e.op.d else 0
  }

  lemma OneLast(es: seq<Event>, k: Key, i: int, j: int)
    requires TouchesLast(es, k, i) && TouchesLast(es, k, j)
    ensures i == j
  {
  }

  lemma FoundAnswers(es: seq<Event>, k: Key, t: int, b: map<Key, Element>)
    requires IsFound(es, k, t, b)
    ensures IsAnswer(es, k, t, Answer(b, k, t))
  {
    if k in b {
      var i :| TouchesLast(es, k, i) && es[i].op.Set? && IsOf(b[k], es[i]);
      forall j | TouchesLast(es, k, j) ensures j == i { OneLast(es, k, i, j); }
    }
  }

  lemma LastBefore(es: seq<Event>, e: Event, k: Key)
    ensures Touches(e, k) ==> forall j :: TouchesLast(es + [e], k, j) <==> j == |es|
    ensures !Touches(e, k) ==> forall j :: TouchesLast(es + [e], k, j) <==> TouchesLast(es, k, j)
    ensures forall j :: TouchesLast(es, k, j) ==> (es + [e])[j] == es[j]
  {
    var fs := es + [e];
    assert forall j :: 0 <= j < |es| ==> fs[j] == es[j];
    assert fs[|es|] == e;
  }

  /** One more call. */
  lemma FoundNext(c: Cache, home: Home, es: seq<Event>, e: Event, k: Key)
    requires (forall l :: home(l) < |c.buckets|) && IsFound(es, k, e.now, Shard(c, home, k))
    ensures |Do(c, home, e).buckets| == |c.buckets| && IsFound(es + [e], k, e.now, Shard(Do(c, home, e), home, k))
  {
    var b, b' := Shard(c, home, k), Shard(Do(c, home, e), home, k);
    LastBefore(es, e, k);
    assert !Touches(e, k) ==> (k in b' ==> k in b && b'[k] == b[k]);
    if Touches(e, k) {
      assert TouchesLast(es + [e], k, |es|) && (es + [e])[|es|] == e;
    } else if k in b {
      var j :| TouchesLast(es, k, j) && es[j].op.Set? && IsOf(b[k], es[j]);
      assert TouchesLast(es + [e], k, j) && (es + [e])[j] == es[j];
      forall i | TouchesLast(es + [e], k, i) ensures i == j { OneLast(es + [e], k, i, j); }
    } else {
      forall j | TouchesLast(es + [e], k, j) ensures TouchesLast(es, k, j) && (es + [e])[j] == es[j] {
      }
    }
  }

  lemma FoundLater(es: seq<Event>, k: Key, t: int, later: int, b: map<Key, Element>)
    requires IsFound(es, k, t, b) && t <= later
    ensures IsFound(es, k, later, b)
  {
  }

  /** The clock does not go back. */
  predicate InOrder(es: seq<Event>) { es == [] || InTime(es, es[0].now) }

  lemma {:induction false} InTimeLast(es: seq<Event>, e: Event, now: int)
    requires InTime(es + [e], now)
    ensures InTime(es, now) && (if es == [] then now else es[|es|-1].now) <= e.now
    decreases |es|
  {
    if es != [] {
      assert (es + [e])[1..] == es[1..] + [e];
      InTimeLast(es[1..], e, es[0].now);
    }
  }

  lemma {:induction false} AfterOn(c: Cache, home: Home, es: seq<Event>, e: Event)
    requires forall k :: home(k) < |c.buckets|
    ensures After(c, home, es + [e]) == Do(After(c, home, es), home, e)
    decreases |es|
  {
    if es == [] {
      assert es + [e] == [e] && [e][1..] == [];
    } else {
      assert (es + [e])[1..] == es[1..] + [e];
      AfterOn(Do(c, home, es[0]), home, es[1..], e);
    }
  }

  lemma {:induction false} FoundAfter(n: nat, home: Home, es: seq<Event>, k: Key, t: int, now: int)
    requires (forall l :: home(l) < n) && InTime(es, now) && (if es == [] then now else es[|es|-1].now) <= t
    ensures IsFound(es, k, t, Shard(After(Empty(n), home, es), home, k))
    decreases |es|
  {
    if es != [] {
      var front, e := es[..|es|-1], es[|es|-1];
      assert es == front + [e];
      InTimeLast(front, e, now);
      FoundAfter(n, home, front, k, e.now, now);
      AfterOn(Empty(n), home, front, e);
      FoundNext(After(Empty(n), home, front), home, front, e, k);
      FoundLater(es, k, e.now, t, Shard(After(Empty(n), home, es), home, k));
    }
  }

  function Gets(es: seq<Event>): nat { if es == [] then 0 else Gets(es[1..]) + if es[0].op.Get? then 1 else 0 }

  lemma {:induction false} AnswersAt(c: Cache, home: Home, es: seq<Event>, i: nat)
    requires (forall k :: home(k) < |c.buckets|) && i < |es| && es[i].op.Get?
    ensures Gets(es[..i]) < |Answers(c, home, es)|
    ensures Answers(c, home, es)[Gets(es[..i])] ==
            Answer(Shard(After(c, home, es[..i]), home, es[i].op.k), es[i].op.k, es[i].now)
    decreases |es|
  {
    if i > 0 {
      assert es[..i][1..] == es[1..][..i-1] && es[..i][0] == es[0];
      AnswersAt(Do(c, home, es[0]), home, es[1..], i - 1);
    }
  }

  lemma {:induction false} InTimePrefix(es: seq<Event>, i: nat, now: int)
    requires InTime(es, now) && i <= |es|
    ensures InTime(es[..i], now)
    decreases |es|
  {
    if i > 0 {
      assert es[..i][1..] == es[1..][..i-1];
      InTimePrefix(es[1..], i - 1, es[0].now);
    }
  }

  /**
   In every run from an empty cache under a clock that does not go back, each call of `Get` answers with what
   the last call before it to set the key has set, if that has not expired, and else with nothing.
   */
  lemma GetAnswers(n: nat, home: Home, es: seq<Event>, now: int, i: nat)
    requires (forall k :: home(k) < n) && InTime(es, now) && i < |es| && es[i].op.Get?
    ensures Gets(es[..i]) < |Answers(Empty(n), home, es)|
    ensures IsAnswer(es[..i], es[i].op.k, es[i].now, Answers(Empty(n), home, es)[Gets(es[..i])])
  {
    var k, t := es[i].op.k, es[i].now;
    AnswersAt(Empty(n), home, es, i);
    assert es[..i+1] == es[..i] + [es[i]];
    InTimePrefix(es, i + 1, now);
    InTimeLast(es[..i], es[i], now);
    FoundAfter(n, home, es[..i], k, t, now);
    FoundAnswers(es[..i], k, t, Shard(After(Empty(n), home, es[..i]), home, k));
  }

  /** The expiration zero is that of elements that never expire: one that should expire just then never does. */
  lemma NeverExpires(n: nat, home: Home, k: Key, t: int)
    requires (forall l :: home(l) < n) && t >= -10
    ensures Answers(Empty(n), home, [Event(Set(k, 7, 10), -10), Event(Get(k), t)]) == [Some(7)]
  {
    var es := [Event(Set(k, 7, 10), -10), Event(Get(k), t)];
    assert es[1..] == [es[1]] && es[1..][1..] == [];
    var c := Do(Empty(n), home, es[0]);
    assert Answers(c, home, es[1..]) == [Answer(Shard(c, home, k), k, t)] + Answers(Do(c, home, es[1]), home, []);
  }

  /** A bucket that has just been cleaned has no element that has expired. */
  lemma CleaningRemoves(n: nat, home: Home, es: seq<Event>, now: int, t: int, k: Key)
    requires (forall l :: home(l) < n) && InTime(es + [Event(Clean(home(k)), t)], now)
    ensures k in Shard(After(Empty(n), home, es + [Event(Clean(home(k)), t)]), home, k) ==>
      exists j :: TouchesLast(es, k, j) && es[j].op.Set? && Lasts(es[j], t)
  {
    var e := Event(Clean(home(k)), t);
    InTimeLast(es, e, now);
    FoundAfter(n, home, es, k, t, now);
    AfterOn(Empty(n), home, es, e);
  }

  // ----- what becomes of every element

  /** The element of a stamp is in the cache. */
  predicate IsStored(c: Cache, home: Home, x: nat)
    requires x < |c.keys| && home(c.keys[x]) < |c.buckets|
  {
    var k := c.keys[x];
    k in Shard(c, home, k) && Shard(c, home, k)[k].stamp == x
  }

  predicate IsKeyOf(c: Cache, x: nat, k: Key) { x < |c.keys| && c.keys[x] == k }

  /** Every element is stored, or has been overwritten, or has been finalized, once. */
  ghost predicate Accounted(c: Cache, home: Home)
    requires forall k :: home(k) < |c.buckets|
  {
    && |c.finals| == |c.keys|
    && (forall i, k {:trigger k in c.buckets[i]} :: 0 <= i < |c.buckets| && k in c.buckets[i] ==>
      home(k) == i && IsKeyOf(c, c.buckets[i][k].stamp, k))
    && forall x {:trigger c.finals[x]} {:trigger IsStored(c, home, x)} :: 0 <= x < |c.keys| ==>
         c.finals[x] == if IsStored(c, home, x) || x in c.replaced then 0 else 1
  }

  lemma AtMostOne(s: set<Key>, k: Key)
    requires forall l :: l in s ==> l == k
    ensures |s| == if k in s then 1 else 0
  {
    if k in s { assert s == {k}; } else { assert s == {}; }
  }

  /** Of the keys of a bucket, at most the one of the stamp counts. */
  lemma FinalizedAt(c: Cache, home: Home, i: nat, keys: set<Key>, x: nat)
    requires (forall k :: home(k) < |c.buckets|) && Accounted(c, home) && i < |c.buckets| && x < |c.keys|
    ensures Finalized(c.finals, c.buckets[i], keys)[x] ==
            c.finals[x] + if c.keys[x] in keys && home(c.keys[x]) == i && IsStored(c, home, x) then 1 else 0
  {
    var b := c.buckets[i];
    var s := set k | k in b && b[k].stamp == x && k in keys;
    forall k | k in s ensures k == c.keys[x] { assert k in c.buckets[i]; }
    AtMostOne(s, c.keys[x]);
  }

  /** A stamp that has been overwritten is not stored. */
  ghost predicate Gone(c: Cache, home: Home)
    requires forall k :: home(k) < |c.buckets|
  {
    forall x :: x in c.replaced ==> x < |c.keys| && !IsStored(c, home, x)
  }

  lemma SetKeeps(c: Cache, home: Home, k: Key, e: Element)
    requires (forall k :: home(k) < |c.buckets|) && Accounted(c, home) && Gone(c, home) && e.stamp == |c.keys|
    ensures Accounted(SetIn(c, home, k, e), home) && Gone(SetIn(c, home, k, e), home)
  {
  }

  lemma DelKeeps(c: Cache, home: Home, k: Key)
    requires (forall k :: home(k) < |c.buckets|) && Accounted(c, home) && Gone(c, home)
    ensures Accounted(DelIn(c, home, k), home) && Gone(DelIn(c, home, k), home)
  {
    var c' := DelIn(c, home, k);
    forall x | 0 <= x < |c.keys| ensures c'.finals[x] == if IsStored(c', home, x) || x in c'.replaced then 0 else 1 {
      FinalizedAt(c, home, home(k), {k}, x);
    }
  }

  lemma CleanKeeps(c: Cache, home: Home, i: nat, now: int)
    requires (forall k :: home(k) < |c.buckets|) && Accounted(c, home) && Gone(c, home) && i < |c.buckets|
    ensures Accounted(CleanIn(c, i, now), home) && Gone(CleanIn(c, i, now), home)
  {
    var c', b := CleanIn(c, i, now), c.buckets[i];
    forall x | 0 <= x < |c.keys| ensures c'.finals[x] == if IsStored(c', home, x) || x in c'.replaced then 0 else 1 {
      FinalizedAt(c, home, i, ExpiredKeys(b, now), x);
    }
  }

  lemma {:induction false} RunKeeps(c: Cache, home: Home, es: seq<Event>)
    requires (forall k :: home(k) < |c.buckets|) && Accounted(c, home) && Gone(c, home)
    ensures Accounted(After(c, home, es), home) && Gone(After(c, home, es), home)
    decreases |es|
  {
    if es != [] {
      match es[0].op {
        case Set(k, data, d) => SetKeeps(c, home, k, Made(data, d, es[0].now, |c.keys|));
        case Get(_) =>
        case Del(k) => DelKeeps(c, home, k);
        case Clean(i) => if i < |c.buckets| { CleanKeeps(c, home, i, es[0].now); }
      }
      RunKeeps(Do(c, home, es[0]), home, es[1..]);
    }
  }

  /**
   After any run from an empty cache: every element ever set is in the cache, or has been
   overwritten and never finalized, or has been removed and finalized exactly once.
   */
  lemma FinalizedOnce(n: nat, home: Home, es: seq<Event>, x: nat)
    requires (forall k :: home(k) < n) && x < |After(Empty(n), home, es).keys|
    ensures var c := After(Empty(n), home, es);
      && x < |c.finals| && (c.finals[x] == 1 <==> !IsStored(c, home, x) && x !in c.replaced)
      && c.finals[x] <= 1 && !(IsStored(c, home, x) && x in c.replaced)
  {
    RunKeeps(Empty(n), home, es);
  }

  lemma FinalizedNone(finals: seq<nat>, b: map<Key, Element>)
    ensures Finalized(finals, b, {}) == finals
  {
    forall x | 0 <= x < |finals| ensures Finalized(finals, b, {})[x] == finals[x] {
      assert (set k | k in b && b[k].stamp == x && k in {}) == {};
    }
  }

  /** One more element is finalized. */
  lemma FinalizedMore(finals: seq<nat>, b: map<Key, Element>, keys: set<Key>, k: Key)
    requires k in b && k !in keys && b[k].stamp < |finals|
    ensures var f := Finalized(finals, b, keys); Finalized(finals, b, keys + {k}) == f[b[k].stamp := f[b[k].stamp] + 1]
  {
    forall x | 0 <= x < |finals|
      ensures Finalized(finals, b, keys + {k})[x] == Finalized(finals, b, keys)[x] + if b[k].stamp == x then 1 else 0
    {
      var before, after := set l | l in b && b[l].stamp == x && l in keys, set l | l in b && b[l].stamp == x &&
        l in keys + {k};
      if b[k].stamp == x { assert after == before + {k}; } else { assert after == before; }
    }
  }
}
