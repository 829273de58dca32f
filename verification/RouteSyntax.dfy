/** Which strings can be made into nodes at all, whatever is registered. */
module RouteSyntax {
  import opened Options
  import opened RoutePatterns
  import opened RouteTree
  import opened RouteShape
  import opened RouteAdd

  /** The wildcard at `k` has a name up to the next slash, not empty and without wildcards; '*name' is at the end. */
  predicate NamedAt(p: string, k: nat)
    requires k < |p|
  {
    var e := k + 1 + SegEnd(p[k+1..]);
    e > k + 1 && NoWild(p[k+1..e]) && (p[k] == '*' ==> e == |p|)
  }

  /** Unlike in a pattern, a wildcard may start inside a segment. */
  predicate WellNamed(p: string) { forall k {:trigger NamedAt(p, k)} :: 0 <= k < |p| && IsWild(p[k]) ==> NamedAt(p, k) }

  lemma NamedShift(p: string, i: nat, k: nat)
    requires i <= k < |p|
    ensures NamedAt(p, k) == NamedAt(p[i..], k - i) && p[i..][k-i] == p[k]
  {
    var e := k + 1 + SegEnd(p[k+1..]);
    assert p[k+1..] == p[i..][k-i+1..];
    assert p[k+1..e] == p[i..][k-i+1..e-i];
  }

  lemma WellNamedSkip(p: string, i: nat)
    requires i <= |p| && NoWild(p[..i])
    ensures WellNamed(p) <==> WellNamed(p[i..])
  {
    forall k: nat | k < |p| ensures IsWild(p[k]) ==> k >= i {
      assert k < i ==> p[..i][k] == p[k];
    }
    if WellNamed(p) {
      forall k | 0 <= k < |p[i..]| && IsWild(p[i..][k]) ensures NamedAt(p[i..], k) { NamedShift(p, i, k + i); }
    }
    if WellNamed(p[i..]) {
      forall k | 0 <= k < |p| && IsWild(p[k]) ensures NamedAt(p, k) { NamedShift(p, i, k); }
    }
  }

  lemma WellNamedFirst(p: string, e: nat)
    requires 0 < e <= |p| && IsWild(p[0]) && NoWild(p[1..e])
    ensures WellNamed(p) <==> NamedAt(p, 0) && WellNamed(p[e..])
  {
    var q := p[1..];
    assert q[..e-1] == p[1..e] && q[e-1..] == p[e..];
    WellNamedSkip(q, e - 1);
    WellNamedTail(p, q);
  }

  lemma WellNamedTail(p: string, q: string)
    requires p != "" && q == p[1..] && IsWild(p[0])
    ensures WellNamed(p) <==> NamedAt(p, 0) && WellNamed(q)
  {
    if WellNamed(p) {
      forall k | 0 <= k < |q| && IsWild(q[k]) ensures NamedAt(q, k) { NamedShift(p, 1, k + 1); }
    }
    if NamedAt(p, 0) && WellNamed(q) {
      forall k | 0 <= k < |p| && IsWild(p[k]) ensures NamedAt(p, k) { if k > 0 { NamedShift(p, 1, k); } }
    }
  }

  lemma {:induction false} SegEndIs(s: string, e: nat)
    requires e <= |s| && (e < |s| ==> s[e] == '/') && forall k :: 0 <= k < e ==> s[k] != '/'
    ensures SegEnd(s) == e
  {
    if e > 0 { SegEndIs(s[1..], e - 1); }
  }

  /** The name of the wildcard at the start, by the first character that can end it. */
  lemma NameIff(p: string, j: int)
    requires p != "" && IsWild(p[0]) && j == IndexAny(p[1..], ":*/")
    ensures NamedAt(p, 0) <==> (if j == -1 then |p| > 1 else j > 0 && p[0] == ':' && p[j+1] == '/')
    ensures NoWild(p[1..if j == -1 then |p| else j + 1])
  {
    var e := if j == -1 then |p| - 1 else j;
    BeforeSegEnd(p[1..]);
    assert forall k :: 0 <= k < e ==> p[1..][k] !in ":*/";
    assert p[1..1+e] == p[1..][..e];
    forall k | 0 <= k < e ensures p[1..][k] != '/' && !IsWild(p[1..1+e][k]) { assert p[1..][k] !in ":*/"; }
    if j == -1 || p[j+1] == '/' {
      SegEndIs(p[1..], e);
    } else {
      assert p[1..][j] in ":*/" && IsWild(p[1..][j]);
      assert SegEnd(p[1..]) > j;
      assert p[1..1+SegEnd(p[1..])][j] == p[1..][j];
    }
  }

  /** Nodes can be made for a string exactly if its wildcards are named. */
  lemma {:induction false} ConstructIff(p: string, handle: Handle)
    requires p != ""
    ensures Construct(p, handle).Some? <==> WellNamed(p)
    decreases |p|
  {
    if IsWild(p[0]) {
      var j := IndexAny(p[1..], ":*/");
      NameIff(p, j);
      WellNamedFirst(p, if j == -1 then |p| else j + 1);
      if p[0] == ':' && j > 0 && p[j+1] == '/' {
        assert p[j+1..][..1] == "/" && p[j+1..][1..] == p[j+2..];
        WellNamedSkip(p[j+1..], 1);
        if j + 2 < |p| { ConstructIff(p[j+2..], handle); }
      }
    } else {
      var i := IndexAny(p, ":*");
      WellNamedSkip(p, if i == -1 then |p| else i);
      if i != -1 { ConstructIff(p[i..], handle); }
    }
  }

  /** What an empty tree accepts, pattern or not. */
  lemma FirstAddIff(p: string, handle: Handle)
    ensures Add(EMPTY_NODE, p, handle).ok <==> p != "" && WellNamed(p)
  {
    if p != "" { ConstructIff(p, handle); }
  }

  /** Every pattern is well named. */
  lemma PatternIsWellNamed(p: string)
    requires IsPattern(p)
    ensures WellNamed(p)
  {
    var c := ConstructCorrect(p, Mid, Handle(0));
    ConstructIff(p, Handle(0));
  }
}
