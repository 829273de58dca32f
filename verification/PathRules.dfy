/**
 The rules by which a path is cleaned, one element at a time, and that they leave no choice: only one
 function obeys them.
 */
module PathRules {
  import opened RoutePatterns
  import opened Sequences
  import opened PathElements

  // ----- cleaning a rooted path, read off its elements

  predicate KeepsSlash(els: seq<string>)
    requires els != []
  {
    Last(els) == "" || Last(els) == "."
  }

  lemma {:induction false} CleanedRooted(els: seq<string>)
    requires AreElements(els) && els != []
    ensures var stack := Resolve([], els);
      Cleaned(Rooted(els)) == PathOf(stack) + if stack != [] && KeepsSlash(els) then "/" else ""
  {
    ElementsOfRooted("", els);
    assert "" + Rooted(els) == Rooted(els);
    RestOf("", els);
    assert Resolve([], [""] + els) == Resolve([], els);
    LastOfElements(els);
    if Last(els) == "" && |Rooted(els)| <= 2 { ShortResolves(els); }
  }

  lemma {:induction false} LastOfElements(els: seq<string>)
    requires AreElements(els) && els != []
    ensures Rooted(els) == Rooted(els[..|els|-1]) + ("/" + Last(els)) && Last([""] + els) == Last(els)
    ensures Rooted(els)[|Rooted(els)|-1] == '/' <==> Last(els) == ""
  {
    assert els == els[..|els|-1] + [Last(els)];
    RootedMore(els[..|els|-1], Last(els));
  }

  /** A path of at most two bytes with a slash at the end has no name. */
  lemma {:induction false} ShortResolves(els: seq<string>)
    requires AreElements(els) && els != [] && Last(els) == "" && |Rooted(els)| <= 2
    ensures Resolve([], els) == []
  {
    if |els| == 1 {
      assert els == [""] && els[1..] == [];
    } else {
      RootedLong(els);
      assert els == ["", ""] && els[1..] == [""] && [""][1..] == [];
      assert Resolve([], els) == Resolve(Apply([], ""), [""]) == Resolve(Apply([], ""), []) == [];
    }
  }

  lemma {:induction false} RootedLong(els: seq<string>)
    requires |els| > 1 && |Rooted(els)| <= 2
    ensures |els| == 2 && els[0] == ""
  {
    RootedLength(els[1..]);
    assert |Rooted(els)| == 1 + |els[0]| + |Rooted(els[1..])|;
  }

  lemma {:induction false} RootedLength(els: seq<string>)
    ensures |Rooted(els)| >= |els|
  {
    if els != [] { RootedLength(els[1..]); }
  }

  lemma {:induction false} ResolveOn(stack: seq<string>, a: seq<string>, b: seq<string>)
    ensures Resolve(stack, a + b) == Resolve(Resolve(stack, a), b)
    decreases |a|
  {
    if a == [] {
      assert a + b == b;
    } else {
      assert (a + b)[1..] == a[1..] + b;
      ResolveOn(Apply(stack, a[0]), a[1..], b);
    }
  }

  // ----- the rules

  /**
   Elements that have no effect behind the elements `a`: an empty one, ".", a name and "..", and ".." at the
   beginning of a rooted path.
   */
  predicate IsIdle(a: seq<string>, x: seq<string>) {
    || x == [""] || x == ["."]
    || (|x| == 2 && IsName(x[0]) && x[1] == "..")
    || (a == [] && x == [".."])
  }

  ghost predicate Eliminates(f: string -> string, a: seq<string>, x: seq<string>, b: seq<string>) {
    f(Rooted(a + x + b)) == f(Rooted(a + b))
  }

  ghost predicate EndsInDot(f: string -> string, a: seq<string>) { f(Rooted(a + ["."])) == f(Rooted(a + [""])) }

  ghost predicate EndsInDots(f: string -> string, a: seq<string>, e: string) {
    f(Rooted(a + [e, ".."])) == f(PathOf(a))
  }

  ghost predicate Roots(f: string -> string, p: string) {
    f(p) == f(if |p| == 2 && p[1] == '/' then "/" + p[..1] else "/" + p)
  }

  /**
   Canonical paths stay; idle elements in front of others are eliminated; at the end, "." leaves its slash and
   ".." takes the name before it and the slash; and a path is rooted, without its slash if that is all
   that follows one byte.
   */
  ghost predicate ObeysRules(f: string -> string) {
    && (forall p {:trigger IsCanonical(p)} :: IsCanonical(p) ==> f(p) == p)
    && (forall a, x, b {:trigger Eliminates(f, a, x, b)} ::
      AreElements(a) && IsIdle(a, x) && AreElements(b) && b != [] ==> Eliminates(f, a, x, b))
    && (forall a {:trigger EndsInDot(f, a)} :: AreElements(a) ==> EndsInDot(f, a))
    && (forall a, e {:trigger EndsInDots(f, a, e)} :: Names(a) && IsName(e) ==> EndsInDots(f, a, e))
    && (forall p {:trigger Roots(f, p)} :: p == "" || p[0] != '/' ==> Roots(f, p)) && f("/..") == f("/")
  }

  // ----- cleaning obeys them

  lemma {:induction false} IdleResolves(a: seq<string>, x: seq<string>, b: seq<string>)
    requires IsIdle(a, x)
    ensures Resolve([], a + x + b) == Resolve([], a + b)
  {
    var stack := Resolve([], a);
    ResolveOn([], a + x, b);
    ResolveOn([], a, x);
    ResolveOn([], a, b);
    IdleApplied(a, x, stack);
  }

  lemma {:induction false} IdleApplied(a: seq<string>, x: seq<string>, stack: seq<string>)
    requires IsIdle(a, x) && (a == [] ==> stack == [])
    ensures Resolve(stack, x) == stack
  {
    if |x| == 1 {
      assert x[1..] == [];
    } else {
      var more := stack + [x[0]];
      assert Apply(stack, x[0]) == more && Apply(more, x[1]) == stack by { assert more[..|stack|] == stack; }
      assert x[1..] == [x[1]] && x[1..][1..] == [];
      assert Resolve(stack, x) == Resolve(more, x[1..]);
    }
  }

  lemma {:induction false} NoSlashInName(a: seq<string>, e: string)
    requires Names(a) && IsName(e)
    ensures AreElements(a) && AreElements([e]) && AreElements(a + [e, ".."])
  {
    forall k | 0 <= k < |a| ensures '/' !in a[k] { assert IsName(a[k]); }
  }

  lemma {:induction false} CleanedEliminates(a: seq<string>, x: seq<string>, b: seq<string>)
    requires AreElements(a) && IsIdle(a, x) && AreElements(b) && b != []
    ensures Eliminates(Cleaned, a, x, b)
  {
    IdleResolves(a, x, b);
    CleanedRooted(a + x + b);
    CleanedRooted(a + b);
  }

  lemma {:induction false} CleanedEndsInDot(a: seq<string>)
    requires AreElements(a)
    ensures EndsInDot(Cleaned, a)
  {
    ResolveOn([], a, ["."]);
    ResolveOn([], a, [""]);
    assert ["."][1..] == [] && [""][1..] == [];
    CleanedRooted(a + ["."]);
    CleanedRooted(a + [""]);
  }

  lemma {:induction false} CleanedEndsInDots(a: seq<string>, e: string)
    requires Names(a) && IsName(e)
    ensures EndsInDots(Cleaned, a, e)
  {
    NoSlashInName(a, e);
    IdleResolves(a, [e, ".."], []);
    assert a + [e, ".."] + [] == a + [e, ".."] && a + [] == a;
    CleanedRooted(a + [e, ".."]);
    ResolveNames([], a, []);
    assert [] + a == a;
    if a == [] { SlashStays(); } else { NamesStay(a, false); }
  }

  lemma {:induction false} CleanedParent()
    ensures Cleaned("/..") == Cleaned("/") == "/"
  {
    assert Rooted([".."]) == "/.." by { assert [".."][1..] == []; }
    CleanedRooted([".."]);
    assert [".."][1..] == [];
    SlashStays();
  }

  lemma {:induction false} CleanedRoots(p: string)
    requires p == "" || p[0] != '/'
    ensures Roots(Cleaned, p)
  {
    var q := if |p| == 2 && p[1] == '/' then "/" + p[..1] else "/" + p;
    ElementsHaveNoSlash(p);
    FirstSlash("", p);
    assert "" + ("/" + p) == "/" + p;
    RestOf("", Segments(p));
    if |p| == 2 && p[1] == '/' { OneByte(p, q); } else { SameTrail(p, q); }
  }

  lemma {:induction false} SameTrail(p: string, q: string)
    requires q == "/" + p && Segments(q) == [""] + Segments(p) && !(|p| == 2 && p[1] == '/')
    requires p == "" || p[0] != '/'
    ensures Cleaned(p) == Cleaned(q)
  {
    RestOf("", Segments(p));
    assert Last(Segments(q)) == Last(Segments(p));
    assert Resolve([], Segments(q)) == Resolve([], Segments(p));
    if p != "" { assert q[|q|-1] == p[|p|-1]; }
  }

  /** One byte and a slash. */
  lemma {:induction false} OneByte(p: string, q: string)
    requires |p| == 2 && p[0] != '/' && p[1] == '/' && q == "/" + p[..1]
    ensures Cleaned(p) == Cleaned(q)
  {
    var c := p[..1];
    assert '/' !in c;
    FirstSlash(c, "");
    FirstSlash("", c);
    NoSlashAlone(c);
    NoSlashAlone("");
    assert p == c + ("/" + "") && q == "" + ("/" + c);
    assert Segments(p) == [c, ""] && Segments(q) == ["", c];
    assert [c, ""][1..] == [""] && [""][1..] == [] && ["", c][1..] == [c] && [c][1..] == [];
    var stack := Apply([], c);
    assert Resolve([], [c, ""]) == Resolve(stack, [""]) == Resolve(Apply(stack, ""), []) == stack;
    assert Resolve([], ["", c]) == Resolve([], [c]) && Resolve([], [c]) == Resolve(stack, []) == stack;
  }

  /** Cleaning a path obeys the rules. */
  lemma {:induction false} CleanedObeys()
    ensures ObeysRules(Cleaned)
  {
    forall p | IsCanonical(p) ensures Cleaned(p) == p { CleanIffCanonical(p); }
    forall a, x, b | AreElements(a) && IsIdle(a, x) && AreElements(b) && b != [] ensures Eliminates(Cleaned, a, x, b) {
      CleanedEliminates(a, x, b);
    }
    forall a | AreElements(a) ensures EndsInDot(Cleaned, a) { CleanedEndsInDot(a); }
    forall a, e | Names(a) && IsName(e) ensures EndsInDots(Cleaned, a, e) { CleanedEndsInDots(a, e); }
    CleanedParent();
    forall p | p == "" || p[0] != '/' ensures Roots(Cleaned, p) { CleanedRoots(p); }
  }

  // ----- and nothing else does

  /** What can be eliminated in front of the last element, if that is not behind names only. */
  lemma {:induction false} FindIdle(els: seq<string>, k: nat) returns (a: seq<string>, x: seq<string>, b: seq<string>)
    requires AreElements(els) && k < |els| - 1 && Names(els[..k]) && !IsName(els[k])
    ensures els == a + x + b && AreElements(a) && AreElements(b) && b != [] && x != [] && IsIdle(a, x)
  {
    if els[k] == ".." && k > 0 {
      assert IsName(els[..k][k-1]);
      a, x, b := els[..k-1], els[k-1..k+1], els[k+1..];
    } else {
      a, x, b := els[..k], [els[k]], els[k+1..];
      assert '/' !in els[k];
    }
  }

  /** The first element that is no name, or the last element. */
  lemma {:induction false} FirstNoName(els: seq<string>, i: nat) returns (k: nat)
    requires i < |els| && Names(els[..i])
    ensures k < |els| && Names(els[..k]) && (k < |els| - 1 ==> !IsName(els[k]))
    decreases |els| - i
  {
    k := i;
    if i < |els| - 1 && IsName(els[i]) {
      assert els[..i+1] == els[..i] + [els[i]];
      k := FirstNoName(els, i + 1);
    }
  }

  lemma {:induction false} SameOnRooted(f: string -> string, g: string -> string, els: seq<string>)
    requires ObeysRules(f) && ObeysRules(g) && AreElements(els) && els != []
    ensures f(Rooted(els)) == g(Rooted(els))
    decreases |els|
  {
    var k := FirstNoName(els, 0);
    if k < |els| - 1 {
      var a, x, b := FindIdle(els, k);
      assert |a + b| < |els|;
      SameOnRooted(f, g, a + b);
      SameBefore(f, g, a, x, b);
    } else {
      assert els == els[..k] + [els[k]];
      SameAtEnd(f, g, els[..k], els[k]);
    }
  }

  lemma {:induction false} SameBefore(f: string -> string, g: string -> string, a: seq<string>, x: seq<string>,
                                      b: seq<string>)
    requires ObeysRules(f) && ObeysRules(g) && AreElements(a) && IsIdle(a, x) && AreElements(b) && b != []
    requires f(Rooted(a + b)) == g(Rooted(a + b))
    ensures f(Rooted(a + x + b)) == g(Rooted(a + x + b))
  {
    Eliminated(f, a, x, b);
    Eliminated(g, a, x, b);
  }

  lemma {:induction false} Eliminated(f: string -> string, a: seq<string>, x: seq<string>, b: seq<string>)
    requires ObeysRules(f) && AreElements(a) && IsIdle(a, x) && AreElements(b) && b != []
    ensures f(Rooted(a + x + b)) == f(Rooted(a + b))
  {
    assert Eliminates(f, a, x, b);
  }

  lemma {:induction false} DotsEliminated(f: string -> string, a: seq<string>, e: string)
    requires ObeysRules(f) && Names(a) && IsName(e)
    ensures f(Rooted(a + [e, ".."])) == PathOf(a)
  {
    assert EndsInDots(f, a, e);
    if a == [] { SlashIsCanonical(); } else { EndedIsCanonical(a, false); }
  }

  lemma {:induction false} SameAtEnd(f: string -> string, g: string -> string, names: seq<string>, e: string)
    requires ObeysRules(f) && ObeysRules(g) && Names(names) && '/' !in e
    ensures f(Rooted(names + [e])) == g(Rooted(names + [e]))
  {
    if e == ".." {
      SameAtDots(f, g, names);
    } else {
      if e == "." {
        NamesAreElements(names);
        assert EndsInDot(f, names) && EndsInDot(g, names);
      }
      var slash := e == "." || e == "";
      EndedIsCanonical(if slash then names else names + [e], slash);
    }
  }

  lemma {:induction false} NamesAreElements(names: seq<string>)
    requires Names(names)
    ensures AreElements(names)
  {
    forall k | 0 <= k < |names| ensures '/' !in names[k] { assert IsName(names[k]); }
  }

  lemma {:induction false} SlashIsCanonical()
    ensures IsCanonical("/")
  {
    CleanIffCanonical("/");
    SlashStays();
  }

  lemma {:induction false} SameAtDots(f: string -> string, g: string -> string, names: seq<string>)
    requires ObeysRules(f) && ObeysRules(g) && Names(names)
    ensures f(Rooted(names + [".."])) == g(Rooted(names + [".."]))
  {
    if names == [] {
      SlashIsCanonical();
      assert [] + [".."] == [".."] && [".."][1..] == [] && Rooted([".."]) == "/..";
    } else {
      var a, e := names[..|names|-1], Last(names);
      assert names + [".."] == a + [e, ".."] && IsName(e);
      DotsEliminated(f, a, e);
      DotsEliminated(g, a, e);
    }
  }

  /** Cleaning is the only function that obeys the rules. */
  lemma {:induction false} RulesDetermine(f: string -> string, p: string)
    requires ObeysRules(f)
    ensures f(p) == Cleaned(p)
  {
    CleanedObeys();
    if p != "" && p[0] == '/' {
      SameFromSlash(f, p);
    } else {
      assert Roots(f, p) && Roots(Cleaned, p);
      SameFromSlash(f, if |p| == 2 && p[1] == '/' then "/" + p[..1] else "/" + p);
    }
  }

  lemma {:induction false} SameFromSlash(f: string -> string, p: string)
    requires ObeysRules(f) && ObeysRules(Cleaned) && p != "" && p[0] == '/'
    ensures f(p) == Cleaned(p)
  {
    ElementsJoin(p);
    ElementsHaveNoSlash(p);
    var els := Segments(p)[1..];
    assert Segments(p)[0] == "" && "" + Rooted(els) == Rooted(els);
    SameOnRooted(f, Cleaned, els);
  }
}
