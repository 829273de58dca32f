/** A path as its elements between slashes, and what is left of them when "." and ".." are resolved. */
module PathElements {
  import opened RoutePatterns
  import opened Sequences

  /** An element that names something is put on the stack, ".." takes one off. */
  function Apply(stack: seq<string>, e: string): seq<string> {
    if e == "" || e == "." then stack
    else if e == ".." then (if stack == [] then [] else stack[..|stack|-1])
    else stack + [e]
  }

  function Resolve(stack: seq<string>, els: seq<string>): seq<string>
    decreases |els|
  {
    if els == [] then stack else Resolve(Apply(stack, els[0]), els[1..])
  }

  /** A slash and an element, for all of them. */
  function Rooted(stack: seq<string>): string {
    if stack == [] then "" else "/" + (stack[0] + Rooted(stack[1..]))
  }

  /** The path of a stack, "/" for the empty one. */
  function PathOf(stack: seq<string>): (s: string)
    ensures s != ""
  {
    if stack == [] then "/" else Rooted(stack)
  }

  /** A slash at the end is kept, but for paths of two bytes, and one is added after a last ".". */
  predicate Trailing(p: string) { (|p| > 2 && p[|p|-1] == '/') || Last(Segments(p)) == "." }

  /** The path with its elements resolved. */
  function Cleaned(p: string): string {
    var stack := Resolve([], Segments(p));
    PathOf(stack) + if Trailing(p) && stack != [] then "/" else ""
  }

  // ----- what the stack holds

  predicate IsName(e: string) { e != "" && e != "." && e != ".." && '/' !in e }

  predicate AreElements(els: seq<string>) { forall k :: 0 <= k < |els| ==> '/' !in els[k] }

  predicate Names(stack: seq<string>) { forall k :: 0 <= k < |stack| ==> IsName(stack[k]) }

  lemma {:induction false} ElementsHaveNoSlash(p: string)
    ensures AreElements(Segments(p))
    decreases |p|
  {
    SegEndPrefix(p);
    if SegEnd(p) < |p| {
      var els := Segments(p[SegEnd(p)+1..]);
      ElementsHaveNoSlash(p[SegEnd(p)+1..]);
      RestOf(p[..SegEnd(p)], els);
    } else {
      assert p[..SegEnd(p)] == p;
    }
  }

  /** What comes before the first slash has none. */
  lemma SegEndPrefix(p: string)
    ensures '/' !in p[..SegEnd(p)]
  {
  }

  lemma {:induction false} ResolvesToNames(stack: seq<string>, els: seq<string>)
    requires Names(stack) && AreElements(els)
    ensures Names(Resolve(stack, els))
    decreases |els|
  {
    if els != [] {
      ResolvesToNames(Apply(stack, els[0]), els[1..]);
    }
  }

  lemma {:induction false} RootedMore(stack: seq<string>, e: string)
    ensures Rooted(stack + [e]) == Rooted(stack) + ("/" + e)
  {
    if stack == [] {
      assert [] + [e] == [e] && [e][1..] == [];
    } else {
      var tail := stack[1..];
      assert (stack + [e])[1..] == tail + [e];
      RootedMore(tail, e);
      Regroup("/", stack[0], Rooted(tail), "/" + e);
    }
  }

  // ----- elements and path

  lemma Regroup(a: string, b: string, c: string, d: string)
    ensures a + (b + (c + d)) == (a + (b + c)) + d
  {
  }

  lemma FirstSlash(a: string, s: string)
    requires '/' !in a
    ensures Segments(a + ("/" + s)) == [a] + Segments(s)
  {
    SegEndIs(a, s);
    Parts(a, s);
  }

  lemma Parts(a: string, s: string)
    ensures (a + ("/" + s))[..|a|] == a && (a + ("/" + s))[|a|+1..] == s
  {
  }

  lemma SegEndIs(a: string, s: string)
    requires '/' !in a
    ensures SegEnd(a + ("/" + s)) == |a| < |a + ("/" + s)|
  {
    SegEndLiteral(a, "/" + s);
  }

  lemma NoSlashAlone(a: string)
    requires '/' !in a
    ensures Segments(a) == [a]
  {
  }

  lemma {:induction false} AtSlash(p: string)
    requires SegEnd(p) < |p|
    ensures p == p[..SegEnd(p)] + ("/" + p[SegEnd(p)+1..])
  {
    var e := SegEnd(p);
    assert p[e..] == "/" + p[e+1..];
  }

  lemma RestOf<T>(x: T, els: seq<T>)
    ensures ([x] + els)[0] == x && ([x] + els)[1..] == els
  {
  }

  /** The elements, joined by slashes, are the path. */
  lemma {:induction false} ElementsJoin(p: string)
    ensures p == Segments(p)[0] + Rooted(Segments(p)[1..])
    decreases |p|
  {
    if SegEnd(p) < |p| {
      var s := p[SegEnd(p)+1..];
      ElementsJoin(s);
      AtSlash(p);
      RestOf(p[..SegEnd(p)], Segments(s));
    } else {
      assert [p][1..] == [];
    }
  }

  /** The elements of a path put together from elements. */
  lemma {:induction false} ElementsOfRooted(a: string, els: seq<string>)
    requires '/' !in a && AreElements(els)
    ensures Segments(a + Rooted(els)) == [a] + els
    decreases |els|
  {
    if els == [] {
      assert a + "" == a;
      NoSlashAlone(a);
    } else {
      ElementsOfRooted(els[0], els[1..]);
      FirstSlash(a, els[0] + Rooted(els[1..]));
      assert [els[0]] + els[1..] == els;
    }
  }

  lemma {:induction false} ResolveNames(stack: seq<string>, names: seq<string>, rest: seq<string>)
    requires Names(names)
    ensures Resolve(stack, names + rest) == Resolve(stack + names, rest)
    decreases |names|
  {
    if names == [] {
      assert [] + rest == rest && stack + [] == stack;
    } else {
      assert IsName(names[0]);
      assert (names + rest)[1..] == names[1..] + rest;
      ResolveNames(stack + [names[0]], names[1..], rest);
      assert stack + [names[0]] + names[1..] == stack + names;
    }
  }

  /** A name at the end, or nothing after a slash. */
  function Ended(names: seq<string>, slash: bool): (els: seq<string>) { if slash then names + [""] else names }

  lemma EndedPath(names: seq<string>, slash: bool)
    requires Names(names)
    ensures AreElements(Ended(names, slash)) && Segments(Rooted(Ended(names, slash))) == [""] + Ended(names, slash)
    ensures Rooted(Ended(names, slash)) == Rooted(names) + if slash then "/" else ""
  {
    forall k | 0 <= k < |names| ensures '/' !in names[k] { assert IsName(names[k]); }
    ElementsOfRooted("", Ended(names, slash));
    assert "" + Rooted(Ended(names, slash)) == Rooted(Ended(names, slash));
    RootedMore(names, "");
    assert "/" + "" == "/" && Rooted(names) + "" == Rooted(names);
  }

  /** A path of names, with or without a slash at the end, is cleaned already. */
  lemma NamesStay(names: seq<string>, slash: bool)
    requires Names(names) && names != []
    ensures Cleaned(Rooted(Ended(names, slash))) == Rooted(Ended(names, slash))
  {
    EndedPath(names, slash);
    EndedResolves(names, slash);
    EndedTrails(names, slash);
  }

  lemma EndedResolves(names: seq<string>, slash: bool)
    requires Names(names)
    ensures Resolve([], [""] + Ended(names, slash)) == names
  {
    RestOf("", Ended(names, slash));
    ResolveNames([], names, if slash then [""] else []);
    assert [] + names == names && names + [] == names;
    assert [""][1..] == [];
  }

  lemma EndedTrails(names: seq<string>, slash: bool)
    requires Names(names) && names != [] && Segments(Rooted(Ended(names, slash))) == [""] + Ended(names, slash)
    requires Rooted(Ended(names, slash)) == Rooted(names) + if slash then "/" else ""
    ensures Trailing(Rooted(Ended(names, slash))) == slash
  {
    LastOfRooted(names);
    assert IsName(Last(names));
  }

  lemma LastOfRooted(names: seq<string>)
    requires names != [] && Names(names)
    ensures |Rooted(names)| >= 2 && Rooted(names)[|Rooted(names)|-1] != '/'
  {
    var front, e := names[..|names|-1], Last(names);
    assert names == front + [e];
    RootedMore(front, e);
    assert IsName(e);
  }

  /** A cleaned path is "/", or names with or without a slash at the end. */
  lemma CleanedShape(p: string) returns (names: seq<string>, slash: bool)
    ensures Names(names) && (names == [] ==> slash) && Cleaned(p) == Rooted(Ended(names, slash))
  {
    ElementsHaveNoSlash(p);
    ResolvesToNames([], Segments(p));
    names := Resolve([], Segments(p));
    slash := Trailing(p) || names == [];
    EndedPath(names, slash);
  }

  lemma SlashStays()
    ensures Cleaned("/") == "/" == Rooted(Ended([], true))
  {
    assert Segments("/") == ["", ""];
    assert ["", ""][1..] == [""] && [""][1..] == [];
  }

  /** Cleaning twice is cleaning once. */
  lemma CleanedOnce(p: string)
    ensures Cleaned(Cleaned(p)) == Cleaned(p)
  {
    var names, slash := CleanedShape(p);
    if names == [] { SlashStays(); } else { NamesStay(names, slash); }
  }

  // ----- which paths are clean

  /** No element of the path is ".", ".." or, but for the first and the last one, empty. */
  predicate IsCanonical(p: string) {
    var els := Segments(p);
    && els[0] == "" && |els| > 1 && (Last(els) == "" || IsName(Last(els)))
    && forall k :: 0 < k < |els| - 1 ==> IsName(els[k])
  }

  /** Exactly the canonical paths stay as they are. */
  lemma CleanIffCanonical(p: string)
    ensures Cleaned(p) == p <==> IsCanonical(p)
  {
    if IsCanonical(p) {
      var names, slash := CanonicalShape(p);
      if names == [] { SlashStays(); } else { NamesStay(names, slash); }
    }
    if Cleaned(p) == p {
      var names, slash := CleanedShape(p);
      EndedIsCanonical(names, slash);
    }
  }

  lemma CanonicalShape(p: string) returns (names: seq<string>, slash: bool)
    requires IsCanonical(p)
    ensures Names(names) && (names == [] ==> slash) && p == Rooted(Ended(names, slash))
  {
    ElementsJoin(p);
    var els := Segments(p)[1..];
    assert "" + Rooted(els) == Rooted(els);
    slash := Last(els) == "";
    names := if slash then els[..|els|-1] else els;
    SplitLast(els);
    CanonicalNames(Segments(p), names);
  }

  lemma SplitLast(els: seq<string>)
    requires els != []
    ensures els == els[..|els|-1] + [Last(els)]
  {
  }

  lemma CanonicalNames(els: seq<string>, names: seq<string>)
    requires |els| > 1 && (Last(els) == "" || IsName(Last(els))) && forall k :: 0 < k < |els| - 1 ==> IsName(els[k])
    requires names == if Last(els) == "" then els[1..][..|els|-2] else els[1..]
    ensures Names(names)
  {
    forall k | 0 <= k < |names| ensures IsName(names[k]) { assert names[k] == els[k+1]; }
  }

  lemma EndedIsCanonical(names: seq<string>, slash: bool)
    requires Names(names) && (names == [] ==> slash)
    ensures IsCanonical(Rooted(Ended(names, slash)))
  {
    EndedPath(names, slash);
    var els := [""] + Ended(names, slash);
    forall k | 0 < k < |els| - 1 ensures IsName(els[k]) { assert els[k] == names[k-1]; }
    if !slash { assert Last(els) == names[|names|-1]; }
  }

  predicate InnerFull(els: seq<string>) { forall k :: 0 < k < |els| - 1 ==> els[k] != "" }

  /** A path has no double slash exactly if no element but the first and the last is empty. */
  lemma {:induction false} NoDoubleSlashIff(p: string)
    ensures NoDoubleSlash(p) <==> InnerFull(Segments(p))
    decreases |p|
  {
    var e := SegEnd(p);
    if e < |p| {
      var s := p[e+1..];
      var els := Segments(s);
      NoDoubleSlashIff(s);
      DoubleSlashFirst(p, e);
      RestOf(p[..e], els);
      FirstEmpty(s);
      InnerFirst(p[..e], els);
    } else {
      BeforeSegEnd(p);
    }
  }

  lemma FirstEmpty(s: string)
    ensures (s != "" && s[0] == '/') <==> (Segments(s)[0] == "" && |Segments(s)| > 1)
  {
  }

  lemma InnerFirst(a: string, els: seq<string>)
    requires els != []
    ensures InnerFull([a] + els) <==> (|els| > 1 ==> els[0] != "") && InnerFull(els)
  {
    var all := [a] + els;
    assert forall k :: 0 <= k < |els| ==> all[k+1] == els[k];
    if InnerFull(all) {
      forall k | 0 <= k < |els| - 1 ensures els[k] != "" { assert all[k+1] != ""; }
    }
  }

  lemma DoubleSlashFirst(p: string, e: nat)
    requires e == SegEnd(p) < |p|
    ensures var s := p[e+1..]; NoDoubleSlash(p) <==> NoDoubleSlash(s) && !(s != "" && s[0] == '/')
  {
    var s := p[e+1..];
    if NoDoubleSlash(p) {
      forall k | 0 <= k < |s| - 1
        ensures !(s[k] == '/' && s[k+1] == '/')
      {
        assert s[k] == p[e+1+k] && s[k+1] == p[e+2+k];
      }
      if s != "" { assert !(p[e] == '/' && p[e+1] == '/'); }
    } else {
      var k :| 0 <= k < |p| - 1 && p[k] == '/' && p[k+1] == '/';
      BeforeSegEnd(p);
      assert k >= e;
      if k > e { assert s[k-e-1] == p[k] && s[k-e] == p[k+1]; }
    }
  }

  /** A cleaned path is a request that the router may be asked for. */
  lemma CleanedIsCleanRequest(p: string)
    ensures IsCleanRequest(Cleaned(p))
  {
    var names, slash := CleanedShape(p);
    EndedIsCanonical(names, slash);
    CanonicalIsCleanRequest(Cleaned(p));
  }

  lemma CanonicalIsCleanRequest(p: string)
    requires IsCanonical(p)
    ensures IsCleanRequest(p)
  {
    NoDoubleSlashIff(p);
    FirstEmpty(p);
    assert forall k :: 0 < k < |Segments(p)| - 1 ==> IsName(Segments(p)[k]);
  }
}

/** The rewriting of a path in one pass, with a buffer that is made only when it is needed. */
module CleanPath {
  import opened RoutePatterns
  import opened Sequences
  import opened PathElements

  /** The first `w` bytes written: those of the path itself as long as there is no buffer. */
  function Text(buf: array?<char>, p: string, w: nat): string
    requires if buf == null then w <= |p| else w <= buf.Length
    reads buf
  {
    if buf == null then p[..w] else buf[..w]
  }

  method BufApp(buf: array?<char>, s: string, w: nat, c: char) returns (b: array?<char>)
    requires if buf == null then w < |s| else w < buf.Length
    modifies buf
    ensures if b == null then w < |s| else w < b.Length
    ensures Text(b, s, w + 1) == old(Text(buf, s, w)) + [c]
    ensures buf != null ==> b == buf
    ensures buf == null ==> (b == null <==> s[w] == c) && (b != null ==> fresh(b) && b.Length == |s|)
  {
    b := buf;
    if b == null {
      if s[w] == c { return; }
      b := new char[|s|];
      forall k | 0 <= k < w { b[k] := s[k]; }
    }
    b[w] := c;
  }

  /** Back to the slash before the last element, but not before the first byte. */
  method Back(buf: array?<char>, p: string, w: nat, ghost stack: seq<string>) returns (v: nat)
    requires if buf == null then w <= |p| else w <= buf.Length
    requires stack != [] && Names(stack) && Text(buf, p, w) == PathOf(stack)
    ensures 0 < v < w && Text(buf, p, v) == PathOf(stack[..|stack|-1])
  {
    ghost var front, e := stack[..|stack|-1], Last(stack);
    LastElement(stack);
    v := w - 1;
    if buf == null {
      while v > 1 && p[v] != '/'
        invariant 0 < v < w && v >= |Rooted(front)|
      {
        v := v - 1;
      }
    } else {
      while v > 1 && buf[v] != '/'
        invariant 0 < v < w && v >= |Rooted(front)|
      {
        v := v - 1;
      }
    }
  }

  lemma LastElement(stack: seq<string>)
    requires stack != [] && Names(stack)
    ensures var f, s := Rooted(stack[..|stack|-1]), PathOf(stack);
      && |s| >= |f| + 2 && s[..|f|] == f && s[|f|] == '/' && (forall k :: |f| < k < |s| ==> s[k] != '/')
      && (|stack| == 1 ==> f == "") && (|stack| > 1 ==> |f| >= 2) && s[0] == '/'
  {
    var front, e := stack[..|stack|-1], Last(stack);
    assert stack == front + [e];
    RootedMore(front, e);
    assert IsName(e);
    if |stack| > 1 {
      assert Names(front);
      LastOfRooted(front);
    }
  }

  /** An element of the path, in front of what comes after it. */
  lemma Consume(p: string, r: nat, q: nat, stack: seq<string>)
    requires r <= q <= |p| && '/' !in p[r..q] && (q < |p| ==> p[q] == '/')
    ensures Resolve(stack, Segments(p[r..])) == Resolve(Apply(stack, p[r..q]), Segments(p[q..]))
    ensures Last(Segments(p[r..])) == if q < |p| then Last(Segments(p[q..])) else p[r..q]
  {
    var a := p[r..q];
    if q == |p| {
      assert p[r..] == a && p[q..] == "";
      ConsumeLast(a, stack);
    } else {
      var s := p[q+1..];
      assert p[r..] == a + ("/" + s) && p[q..] == "/" + s;
      ConsumeInner(a, s, stack);
    }
  }

  lemma ConsumeLast(a: string, stack: seq<string>)
    requires '/' !in a
    ensures Segments(a) == [a] && Resolve(stack, [a]) == Apply(stack, a) == Resolve(Apply(stack, a), Segments(""))
  {
    NoSlashAlone(a);
    assert [a][1..] == [] && [""][1..] == [];
  }

  lemma ConsumeInner(a: string, s: string, stack: seq<string>)
    requires '/' !in a
    ensures Resolve(stack, Segments(a + ("/" + s))) == Resolve(Apply(stack, a), Segments("/" + s))
    ensures Last(Segments(a + ("/" + s))) == Last(Segments("/" + s))
  {
    FirstSlash(a, s);
    FirstSlash("", s);
    assert "" + ("/" + s) == "/" + s;
    RestOf(a, Segments(s));
    RestOf("", Segments(s));
  }

  lemma Skip(p: string, r: nat, stack: seq<string>)
    requires r < |p| && p[r] == '/'
    ensures Resolve(stack, Segments(p[r..])) == Resolve(stack, Segments(p[r+1..]))
    ensures Last(Segments(p[r..])) == Last(Segments(p[r+1..]))
  {
    var s := p[r+1..];
    assert p[r..] == "" + ("/" + s);
    FirstSlash("", s);
    RestOf("", Segments(s));
  }

  // ----- what holds between two elements

  /** One byte more is written than read if the path does not start with a slash. */
  function Off(p: string): nat
    requires p != ""
  {
    if p[0] == '/' then 0 else 1
  }

  predicate EndsInSlash(p: string) { |p| > 2 && p[|p|-1] == '/' }

  /** The read index is at the start of an element. */
  predicate Starts(p: string, r: nat)
    requires r <= |p|
  {
    r == 0 || p[r-1] == '/'
  }

  /**
   The write index is not ahead, and behind by one where an element starts; with a buffer for a
   rooted path it is behind by one more, and so the result will be shorter than the path.
   */
  predicate Sized(p: string, r: nat, w: nat, made: bool, trailing: bool)
    requires p != "" && r <= |p|
  {
    && 1 <= w <= r + Off(p)
    && (w > 1 && Starts(p, r) ==> w < r + Off(p))
    && (made && Off(p) == 0 ==> w < r && (w > 1 && Starts(p, r) ==> w + 1 < r))
    && (!made ==> Off(p) == 0)
    && (trailing && !EndsInSlash(p) ==> r == |p| && (w > 1 ==> w + 2 <= |p| + Off(p)))
  }

  /** What is written is the path of the stack, and the rest of the path is still to be resolved. */
  ghost predicate Between(p: string, r: nat, trailing: bool, stack: seq<string>)
    requires p != "" && r <= |p|
  {
    && (Starts(p, r) || r == |p| || p[r] == '/') && Names(stack)
    && Resolve(stack, Segments(p[r..])) == Resolve([], Segments(p))
    && (r < |p| ==> trailing == EndsInSlash(p) && Last(Segments(p[r..])) == Last(Segments(p)))
    && (r == |p| ==> trailing == Trailing(p))
  }

  predicate Fits(buf: array?<char>, p: string, w: nat)
    requires p != ""
  {
    if buf == null then w <= |p| else w <= buf.Length == |p| + Off(p)
  }

  lemma AfterSlash(p: string, r: nat, trailing: bool, stack: seq<string>)
    requires r < |p| && p[r] == '/' && Between(p, r, trailing, stack)
    ensures Between(p, r + 1, trailing, stack)
  {
    Skip(p, r, stack);
    if r + 1 == |p| { assert p[r+1..] == ""; }
  }

  /** After an element, with what it does to the stack; a "." at the end is a trailing slash. */
  lemma AfterElement(p: string, r: nat, q: nat, e: string, trailing: bool, stack: seq<string>)
    requires r < q <= |p| && e == p[r..q] && '/' !in e && (q < |p| ==> p[q] == '/') && Between(p, r, trailing, stack)
    ensures Between(p, q, trailing || (q == |p| && e == "."), Apply(stack, e))
  {
    Consume(p, r, q, stack);
    if q == |p| { assert p[q..] == ""; }
    AppliedNames(stack, e);
  }

  lemma AppliedNames(stack: seq<string>, e: string)
    requires Names(stack) && '/' !in e
    ensures Names(Apply(stack, e))
  {
  }

  /** Inside an element: the write index is not ahead, and behind once there is a buffer for a rooted path. */
  predicate Room(p: string, q: nat, v: nat, made: bool)
    requires p != ""
  {
    1 <= v <= q + Off(p) && (made && Off(p) == 0 ==> v < q) && (!made ==> Off(p) == 0)
  }

  /** What is written before another element. */
  function Before(stack: seq<string>): string { if stack == [] then "/" else PathOf(stack) + "/" }

  /** A slash in front of the element at `r`, unless it is the first one. */
  method Open(p: string, r: nat, w: nat, buf: array?<char>, ghost stack: seq<string>) returns (v: nat, b: array?<char>)
    requires r < |p| && Starts(p, r) && p[r] != '/' && Sized(p, r, w, buf != null, EndsInSlash(p)) && Fits(buf, p, w)
    requires Text(buf, p, w) == PathOf(stack) && Names(stack)
    modifies buf
    ensures (b == buf || (buf == null && fresh(b))) && Fits(b, p, v) && Room(p, r, v, b != null)
    ensures Text(b, p, v) == Before(stack)
  {
    v, b := w, buf;
    PathBefore(stack);
    if v > 1 {
      b := BufApp(b, p, v, '/');
      v := v + 1;
    }
  }

  /** Copies the bytes up to the next slash. */
  method CopyBytes(p: string, r: nat, w: nat, buf: array?<char>, ghost before: string)
    returns (q: nat, v: nat, b: array?<char>, ghost e: string)
    requires p != "" && r < |p| && Fits(buf, p, w) && Room(p, r, w, buf != null) && Text(buf, p, w) == before
    modifies buf
    ensures r <= q <= |p| && e == p[r..q] && '/' !in e && (q < |p| ==> p[q] == '/')
    ensures (b == buf || (buf == null && fresh(b))) && Fits(b, p, v) && Room(p, q, v, b != null)
    ensures Text(b, p, v) == before + e
  {
    q, v, b, e := r, w, buf, "";
    while q < |p| && p[q] != '/'
      invariant r <= q <= |p| && e == p[r..q] && '/' !in e
      invariant b == buf || (buf == null && fresh(b))
      invariant Fits(b, p, v) && Room(p, q, v, b != null)
      invariant Text(b, p, v) == before + e
    {
      b := BufApp(b, p, v, p[q]);
      More(p, r, q, before, e);
      e, v, q := e + [p[q]], v + 1, q + 1;
    }
  }

  /** Copies the element at `r`, with a slash in front of it unless it is the first one. */
  method Copy(p: string, r: nat, w: nat, buf: array?<char>, ghost stack: seq<string>)
    returns (q: nat, v: nat, b: array?<char>, ghost e: string)
    requires r < |p| && Starts(p, r) && p[r] != '/' && Sized(p, r, w, buf != null, EndsInSlash(p)) && Fits(buf, p, w)
    requires Text(buf, p, w) == PathOf(stack) && Names(stack)
    modifies buf
    ensures r < q <= |p| && e == p[r..q] && '/' !in e && (q < |p| ==> p[q] == '/')
    ensures (b == buf || (buf == null && fresh(b))) && Fits(b, p, v) && Text(b, p, v) == PathOf(stack + [e])
    ensures Sized(p, q, v, b != null, EndsInSlash(p))
  {
    v, b := Open(p, r, w, buf, stack);
    q, v, b, e := CopyBytes(p, r, v, b, Before(stack));
    assert q > r;
    assert p[q-1] == e[q-1-r];
    PathWith(stack, e);
  }

  lemma PathBefore(stack: seq<string>)
    ensures stack != [] && Names(stack) ==> |PathOf(stack)| > 1
  {
    if stack != [] && Names(stack) { LastOfRooted(stack); }
  }

  lemma PathWith(stack: seq<string>, e: string)
    ensures PathOf(stack + [e]) == Before(stack) + e
  {
    RootedMore(stack, e);
    Assoc(Rooted(stack), "/", e);
  }

  lemma Assoc(a: string, b: string, c: string)
    ensures a + (b + c) == a + b + c
  {
  }

  lemma More(p: string, r: nat, q: nat, before: string, e: string)
    requires r <= q < |p| && e == p[r..q]
    ensures e + [p[q]] == p[r..q+1] && before + (e + [p[q]]) == before + e + [p[q]]
  {
  }

  /** A "." or ".." element: it is passed over, and ".." takes back what was written last. */
  method Dots(p: string, r: nat, w: nat, buf: array?<char>, trailing: bool, ghost stack: seq<string>)
    returns (q: nat, v: nat, t: bool, ghost after: seq<string>)
    requires r < |p| && Starts(p, r) && Fits(buf, p, w) && Text(buf, p, w) == PathOf(stack)
    requires Sized(p, r, w, buf != null, trailing) && Between(p, r, trailing, stack)
    requires IsDots(p, r)
    ensures r < q <= |p| && Fits(buf, p, v) && Text(buf, p, v) == PathOf(after)
    ensures Sized(p, q, v, buf != null, t) && Between(p, q, t, after)
  {
    q, v, t, after := r + 1, w, trailing, stack;
    if r + 1 == |p| {
      AfterElement(p, r, q, ".", trailing, stack);
      t := true;
    } else if p[r+1] == '/' {
      AfterElement(p, r, q, ".", trailing, stack);
    } else {
      q := r + 2;
      AfterElement(p, r, q, "..", trailing, stack);
      PathBefore(stack);
      if w > 1 { v := Back(buf, p, w, stack); }
      after := Apply(stack, "..");
    }
  }

  predicate IsDots(p: string, r: nat)
    requires r < |p|
  {
    p[r] == '.' && (r + 1 == |p| || p[r+1] == '/' || (p[r+1] == '.' && (r + 2 == |p| || p[r+2] == '/')))
  }

  lemma NotDots(p: string, r: nat, q: nat, e: string)
    requires r < q <= |p| && e == p[r..q] && '/' !in e && (q < |p| ==> p[q] == '/') && !IsDots(p, r)
    ensures IsName(e)
  {
    assert e[0] == p[r];
    if |e| > 1 { assert e[1] == p[r+1]; }
  }

  /** Any other element is written. */
  method Name(p: string, r: nat, w: nat, buf: array?<char>, trailing: bool, ghost stack: seq<string>)
    returns (q: nat, v: nat, b: array?<char>, ghost after: seq<string>)
    requires r < |p| && p[r] != '/' && !IsDots(p, r) && Fits(buf, p, w) && Text(buf, p, w) == PathOf(stack)
    requires Sized(p, r, w, buf != null, trailing) && Between(p, r, trailing, stack)
    modifies buf
    ensures r < q <= |p| && (b == buf || (buf == null && fresh(b))) && Fits(b, p, v) && Text(b, p, v) == PathOf(after)
    ensures Sized(p, q, v, b != null, trailing) && Between(p, q, trailing, after)
  {
    ghost var e;
    q, v, b, e := Copy(p, r, w, buf, stack);
    NotDots(p, r, q, e);
    AfterElement(p, r, q, e, trailing, stack);
    after := stack + [e];
  }

  /** Up to the next slash or the end. */
  method Next(p: string, r: nat, w: nat, buf: array?<char>, trailing: bool, ghost stack: seq<string>)
    returns (q: nat, v: nat, b: array?<char>, t: bool, ghost after: seq<string>)
    requires r < |p| && Fits(buf, p, w) && Text(buf, p, w) == PathOf(stack)
    requires Sized(p, r, w, buf != null, trailing) && Between(p, r, trailing, stack)
    modifies buf
    ensures r < q <= |p| && (b == buf || (buf == null && fresh(b))) && Fits(b, p, v) && Text(b, p, v) == PathOf(after)
    ensures Sized(p, q, v, b != null, t) && Between(p, q, t, after)
  {
    q, v, b, t, after := r + 1, w, buf, trailing, stack;
    if p[r] == '/' {
      AfterSlash(p, r, trailing, stack);
    } else if IsDots(p, r) {
      q, v, t, after := Dots(p, r, w, buf, trailing, stack);
    } else {
      q, v, b, after := Name(p, r, w, buf, trailing, stack);
    }
  }

  /** The cleaned path, and whether a buffer was made for it: never for a path that is clean already. */
  method CleanPath(p: string) returns (path: string, made: bool)
    ensures path == Cleaned(p)
    ensures !made ==> path == "/" || path <= p
    ensures made ==> path != p
  {
    if p == "" {
      EmptyCleans();
      return "/", false;
    }
    var n := |p|;
    var buf: array?<char> := null;
    var r, w := 1, 1;
    if p[0] != '/' {
      r := 0;
      buf := new char[n + 1];
      buf[0] := '/';
    }
    var trailing := n > 2 && p[n-1] == '/';
    ghost var stack: seq<string> := [];
    Begins(p, r);
    while r < n
      invariant r <= n && Fits(buf, p, w) && (buf != null ==> fresh(buf)) && Text(buf, p, w) == PathOf(stack)
      invariant Sized(p, r, w, buf != null, trailing) && Between(p, r, trailing, stack)
      decreases n - r
    {
      r, w, buf, trailing, stack := Next(p, r, w, buf, trailing, stack);
    }
    path, made := Finish(p, w, buf, trailing, stack);
  }

  /** A last slash if there is to be one. */
  method Finish(p: string, w: nat, buf: array?<char>, trailing: bool, ghost stack: seq<string>)
    returns (path: string, made: bool)
    requires p != "" && Fits(buf, p, w) && Text(buf, p, w) == PathOf(stack)
    requires Sized(p, |p|, w, buf != null, trailing) && Between(p, |p|, trailing, stack)
    modifies buf
    ensures path == Cleaned(p) && (!made ==> path <= p) && (made ==> path != p)
  {
    var b, v := buf, w;
    PathBefore(stack);
    assert p[|p|..] == "" && [""][1..] == [];
    if trailing && w > 1 {
      b := BufApp(b, p, v, '/');
      v := v + 1;
    }
    made := b != null;
    path := if b == null then p[..v] else b[..v];
    CleanedStartsWithSlash(p);
  }

  lemma CleanedStartsWithSlash(p: string)
    ensures Cleaned(p) != "" && Cleaned(p)[0] == '/'
  {
  }

  lemma EmptyCleans()
    ensures Cleaned("") == "/"
  {
    assert Segments("") == [""] && [""][1..] == [];
  }

  /** Before the first element. */
  lemma Begins(p: string, r: nat)
    requires p != "" && r == if p[0] == '/' then 1 else 0
    ensures Between(p, r, EndsInSlash(p), [])
  {
    if p[0] == '/' {
      assert p[0..] == p;
      Skip(p, 0, []);
      if |p| == 1 { assert p[1..] == ""; }
    } else {
      assert p[0..] == p;
    }
  }
}
