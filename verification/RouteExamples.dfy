/** Concrete inputs on which `add` and the trailing-slash advice miss what they promise. */
module RouteExamples {
  import opened Options
  import opened RoutePatterns
  import opened RouteTree
  import opened RouteShape
  import opened RouteAdd
  import opened RouteGet
  import opened RouteAdvice
  import opened RouteStray
  import opened RouteLoose
  import opened RouteAccepts
  import opened RouteRuns
  import opened RouteSyntax

  /** With "/:id" registered, `Add` accepts "/:idx", which conflicts with it. */
  lemma {:induction false} LongerNameAccepted(h: Handle, g: Handle)
    ensures var n := Add(EMPTY_NODE, "/:id", h).node;
      Conflict("/:idx", "/:id") && Add(n, "/:idx", g).ok
  {
    var t: Table := map[];
    assert ":id"[1..] == "id" && "id"[1..] == "d" && "d"[1..] == "";
    assert SegEnd(":id") == 3;
    assert ":idx"[1..] == "idx" && "idx"[1..] == "dx" && "dx"[1..] == "x" && "x"[1..] == "";
    assert SegEnd(":idx") == 4;
    assert "/:id"[1..] == ":id" && "/:idx"[1..] == ":idx";
    assert ":id"[3..] == "" && ":idx"[4..] == "";
    assert PatternFrom(":id", AfterSlash) && PatternFrom(":idx", AfterSlash);
    assert ":idx"[..3] == ":id" == ":id"[..3] && |":idx"[..4]| == 4;
    assert Overlooked(":idx", ":id") && Conflict(":idx", ":id");
    EmptyHolds();
    AddRefinesTable(EMPTY_NODE, t, "/:id", h);
    PatternAcceptedIff(EMPTY_NODE, t, "/:id", h);
    PatternIsLiteral(EMPTY_NODE, t, "/:id", h);
    assert "/:id" in t["/:id" := h] && Overlooked("/:idx", "/:id");
    AddRefinesTable(Add(EMPTY_NODE, "/:id", h).node, t["/:id" := h], "/:idx", g);
    PatternAcceptedIff(Add(EMPTY_NODE, "/:id", h).node, t["/:id" := h], "/:idx", g);
  }

  /**
   With "/:id/x" registered, `Add` of "/:id" with anything behind that does not begin with '/', as in "/:idx"
   or "/:id::", is accepted, and registers "/:id".
   */
  lemma {:induction false} RestDropped(rest: string, h: Handle, g: Handle)
    requires rest != "" && rest[0] != '/'
    ensures var n := Add(EMPTY_NODE, "/:id/x", h).node;
      var r := Add(n, "/:id" + rest, g);
      r.ok && Holds(r.node, map["/:id/x" := h, "/:id" := g])
  {
    NamedPattern();
    CutBehindName("/:id", "/:id" + rest, "/:id/x", rest);
    AddsCut("/:id", "/:id" + rest, "/:id/x", h, g);
  }

  lemma {:induction false} AddsCut(a: string, p: string, q: string, h: Handle, g: Handle)
    requires IsPattern(q) && |a| > 0 && |a| < |p| && |a| < |q| && Agreement(p, q) == |a| && p[..|a|] == a && p != q
    requires After(a, Mid) == AfterName && !IsWild(q[|a|]) && p[0] == '/'
    ensures var r := Add(Add(EMPTY_NODE, q, h).node, p, g);
      r.ok && Holds(r.node, map[q := h, a := g])
  {
    var n, t: Table := Add(EMPTY_NODE, q, h).node, map[q := h];
    OneHeld(q, h, t);
    OnlyCut(Patterns(t), a, p, q);
    AddRefinesTable(n, t, p, g);
    assert a != q;
    assert t[a := g] == map[q := h, a := g];
  }

  lemma {:induction false} NamedPattern()
    ensures IsPattern("/:id/x") && After("/:id", Mid) == AfterName
  {
    assert ":id/x"[1..] == "id/x" && "id/x"[1..] == "d/x" && "d/x"[1..] == "/x";
    assert SegEnd(":id/x") == 3 && ":id/x"[3..] == "/x" && "/x"[1..] == "x" && "x"[1..] == "";
    assert ":id/x"[1..3] == "id";
    assert "/:id/x"[1..] == ":id/x";
    assert PatternFrom("x", AfterNameSlash);
    assert PatternFrom("/x", AfterName);
    assert ":id"[1..] == "id" && "id"[1..] == "d" && "d"[1..] == "" && SegEnd(":id") == 3 && ":id"[3..] == "";
    assert "/:id"[1..] == ":id";
  }

  /** On the empty tree, a pattern is registered as it is. */
  lemma {:induction false} OneHeld(p: string, h: Handle, t: Table)
    requires IsPattern(p) && t == map[p := h]
    ensures var n := Add(EMPTY_NODE, p, h).node; RootOk(n) && Holds(n, t)
  {
    EmptyHolds();
    AddRefinesTable(EMPTY_NODE, map[], p, h);
    PatternAcceptedIff(EMPTY_NODE, map[], p, h);
    PatternIsLiteral(EMPTY_NODE, map[], p, h);
    assert map[][p := h] == t;
  }

  /** What goes on behind the name other than with a '/' agrees with the pattern up to the name. */
  lemma {:induction false} CutBehindName(a: string, p: string, q: string, rest: string)
    requires a == "/:id" && p == a + rest && q == "/:id/x" && rest != "" && rest[0] != '/'
    ensures Agreement(p, q) == |a| && p[..|a|] == a && p != q && q[|a|] == '/' && p[0] == '/'
  {
    assert ":id/x"[1..] == "id/x" && "id/x"[1..] == "d/x" && "d/x"[1..] == "/x";
    assert SegEnd(":id/x") == 3 && ":id/x"[3..] == "/x" && ":id/x"[..3] == ":id" && q[1..] == ":id/x";
    assert p[1..] == ":id" + rest && p[1..][3..] == rest && p[4] == rest[0];
    assert Agreement(rest, "/x") == 0;
  }

  lemma {:induction false} OnlyCut(reg: iset<string>, a: string, p: string, q: string)
    requires reg == iset{q} && a != "" && |a| < |p| && |a| < |q| && Agreement(p, q) == |a| && p[..|a|] == a && p != q
    requires After(a, Mid) == AfterName && !IsWild(q[|a|])
    ensures Accepts(reg, Mid, p) && LiteralOf(reg, Mid, p) == a
  {
    OnlyLongest(reg, p, q);
    assert a !in reg;
    assert CutsOff(reg, Mid, p);
    NoClash(reg, a, p, q);
  }

  lemma {:induction false} OnlyLongest(reg: iset<string>, p: string, q: string)
    requires reg == iset{q}
    ensures Longest(reg, p) == Agreement(p, q)
  {
    LongestIs(reg, p, Agreement(p, q));
  }

  lemma {:induction false} NoClash(reg: iset<string>, a: string, p: string, q: string)
    requires a !in reg && |a| > 0 && |a| < |p| && |a| < |q| && Agreement(p, q) == |a| && p[..|a|] == a
    requires After(a, Mid) == AfterName && !IsWild(q[|a|])
    ensures !Clashes(reg, Mid, p, q)
  {
  }

  /**
   Once something has been accepted that a canonical tree could not hold, no condition on the table says what
   `Add` accepts: two trees that hold "/:idx" only, of which one refuses "/:idy" and the other, where "/:id"
   has been registered in between, accepts it.
   */
  lemma {:induction false} OneTableTwoTrees(p: string, q: string, r: string, h: Handle, g: Handle, f: Handle)
    requires p == ":id" && q == ":idx" && r == ":idy"
    ensures var n := Add(EMPTY_NODE, "/" + q, g).node;
      var m := Remove(Add(Add(EMPTY_NODE, "/" + p, h).node, "/" + q, g).node, "/" + p).node;
      && Holds(n, map["/" + q := g]) && Holds(m, map["/" + q := g])
      && !Add(n, "/" + r, f).ok && Add(m, "/" + r, f).ok
  {
    var x := Node("x", 0, 'x', Static, 1, [], Some(g));
    var name := Node(q, 1, NO_INDEX, Param, 1, [], Some(g));
    var id := Node(p, 1, NO_INDEX, Param, 1, [], Some(h));
    NamesMade(name, id, h, g);
    NameRefuses(name, f);
    NameGrows(id, x, g);
    NameGoes(id.(children := [x], priority := 2), x, g);
    NameAccepts(id.(children := [x], handle := None), x, g, f);
    LongerTwoTrees(p, q, r, name, id, x, h, g, f);
  }

  lemma {:induction false} LongerTwoTrees(p: string, q: string, r: string, name: Node, id: Node, x: Node, h: Handle,
                                          g: Handle, f: Handle)
    requires p != "" && q != "" && r != "" && IsWild(p[0]) && IsWild(q[0]) && IsWild(r[0]) && p != q
    requires name == Node(q, 1, NO_INDEX, Param, 1, [], Some(g)) && Construct(q, g) == Some(name)
    requires id == Node(p, 1, NO_INDEX, Param, 1, [], Some(h)) && Construct(p, h) == Some(id)
    requires Add(id, q, g) == Outcome(id.(children := [x], priority := 2), true) && Registered(id, q) == q
    requires Remove(id.(children := [x], priority := 2), p) == Outcome(id.(children := [x], handle := None), true)
    requires !Add(name, r, f).ok && Add(id.(children := [x], handle := None), r, f).ok
    ensures var n := Add(EMPTY_NODE, "/" + q, g).node;
      var m := Remove(Add(Add(EMPTY_NODE, "/" + p, h).node, "/" + q, g).node, "/" + p).node;
      && Holds(n, map["/" + q := g]) && Holds(m, map["/" + q := g])
      && !Add(n, "/" + r, f).ok && Add(m, "/" + r, f).ok
  {
    RootBelow(q, name, g);
    RefusedBelow(r, name, f);
    RootBelow(p, id, h);
    GrowsBelow(q, id, id.(children := [x], priority := 2), g);
    ShrinksBelow(p, id.(children := [x], priority := 2), id.(children := [x], handle := None));
    AcceptedBelow(r, id.(children := [x], handle := None), f);
    FirstHeld("/" + q, g);
    assert p == ("/" + p)[1..] && q == ("/" + q)[1..];
    OtherHeld("/" + p, "/" + q, h, g);
  }

  function Slash(c: Node, p: nat): Node { Node("/", 1, '/', Static, p, [c], None) }

  lemma {:induction false} Alone(c: Node)
    ensures Resort([c]) == [c] && MaxParams([c]) == c.maxParams
  {
    assert [c][1..] == [] && [c] + [] == [c];
  }

  lemma {:induction false} NamesMade(name: Node, id: Node, h: Handle, g: Handle)
    requires name == Node(":idx", 1, NO_INDEX, Param, 1, [], Some(g))
    requires id == Node(":id", 1, NO_INDEX, Param, 1, [], Some(h))
    ensures Construct(":idx", g) == Some(name) && Construct(":id", h) == Some(id)
  {
    assert ":idx"[1..] == "idx" && ":id"[1..] == "id" && IndexAny("idx", ":*/") == -1 && IndexAny("id", ":*/") == -1;
  }

  lemma {:induction false} NameRefuses(name: Node, f: Handle)
    requires name.path == ":idx" && name.kind == Param
    ensures !Add(name, ":idy", f).ok
  {
    LcpAt(":idy", ":idx", 3);
  }

  lemma {:induction false} NameGrows(id: Node, x: Node, g: Handle)
    requires id.path == ":id" && id.kind == Param && id.priority == 1 && id.maxParams == 1 && id.children == []
    requires x == Node("x", 0, 'x', Static, 1, [], Some(g))
    ensures Add(id, ":idx", g) == Outcome(id.(children := [x], priority := 2), true) && Registered(id, ":idx") == ":idx"
  {
    LcpAt(":idx", ":id", 3);
    assert ":idx"[3..] == "x" && IndexAny("x", ":*") == -1;
    assert Construct("x", g) == Some(x);
    Alone(x);
    assert [] + [x] == [x];
  }

  lemma {:induction false} NameGoes(id: Node, x: Node, g: Handle)
    requires id.path == ":id" && id.kind == Param && id.priority == 2 && id.handle.Some? && id.children == [x]
    requires x == Node("x", 0, 'x', Static, 1, [], Some(g))
    ensures Remove(id, ":id") == Outcome(id.(priority := 1, handle := None), true)
  {
    LcpAt(":id", ":id", 3);
  }

  lemma {:induction false} NameAccepts(id: Node, x: Node, g: Handle, f: Handle)
    requires id.path == ":id" && id.kind == Param && id.children == [x]
    requires x == Node("x", 0, 'x', Static, 1, [], Some(g))
    ensures Add(id, ":idy", f).ok
  {
    LcpAt(":idy", ":id", 3);
    assert ":idy"[3..] == "y" && IndexAny("y", ":*") == -1;
    assert Construct("y", f).Some?;
  }

  lemma {:induction false} RootBelow(q: string, c: Node, h: Handle)
    requires q != "" && IsWild(q[0]) && Construct(q, h) == Some(c) && c.maxParams == 1
    ensures Add(EMPTY_NODE, "/" + q, h) == Outcome(Slash(c, 1), true)
  {
    assert ("/" + q)[1..] == q && IndexAny("/" + q, ":*") == 1 && ("/" + q)[..1] == "/";
  }

  lemma {:induction false} RefusedBelow(q: string, c: Node, h: Handle)
    requires q != "" && IsWild(q[0]) && c.kind == Param && !Add(c, q, h).ok
    ensures !Add(Slash(c, 1), "/" + q, h).ok
  {
    LcpAt("/" + q, "/", 1);
    assert ("/" + q)[1..] == q;
  }

  lemma {:induction false} AcceptedBelow(q: string, c: Node, h: Handle)
    requires q != "" && c.kind == Param && Add(c, q, h).ok
    ensures Add(Slash(c, 1), "/" + q, h).ok
  {
    LcpAt("/" + q, "/", 1);
    assert ("/" + q)[1..] == q && ChildIndex(Slash(c, 1).children, q[0]) == 0;
  }

  lemma {:induction false} GrowsBelow(q: string, c: Node, d: Node, h: Handle)
    requires q != "" && c.kind == Param && Add(c, q, h) == Outcome(d, true) && d.maxParams == 1
    ensures Add(Slash(c, 1), "/" + q, h) == Outcome(Slash(d, 2), true)
    ensures Registered(Slash(c, 1), "/" + q) == "/" + Registered(c, q)
  {
    var n := Slash(c, 1);
    LcpAt("/" + q, "/", 1);
    assert ("/" + q)[1..] == q && ChildIndex(n.children, q[0]) == 0;
    Alone(d);
    assert n.children[0 := d] == [d];
  }

  lemma {:induction false} ShrinksBelow(q: string, c: Node, d: Node)
    requires q != "" && Head(c) == q[0] && Remove(c, q) == Outcome(d, true)
    requires d.maxParams == 1 && d.priority == 1 && d.kind == Param
    ensures Remove(Slash(c, 2), "/" + q) == Outcome(Slash(d, 1), true)
  {
    var n := Slash(c, 2);
    LcpAt("/", "/" + q, 1);
    assert ("/" + q)[1..] == q && HeadIndex(n.children, q[0]) == 0;
    Alone(d);
    assert n.children[0 := d] == [d];
  }

  /** What the two trees hold. */
  lemma {:induction false} FirstHeld(p: string, h: Handle)
    requires IsRooted(p) && Add(EMPTY_NODE, p, h).ok
    ensures RootLoose(Add(EMPTY_NODE, p, h).node) && Holds(Add(EMPTY_NODE, p, h).node, map[p := h])
  {
    EmptyHolds();
    StepHolds(EMPTY_NODE, map[], Op.Register(p, h));
    assert map[][p := h] == map[p := h];
  }

  lemma {:induction false} OtherHeld(p: string, q: string, h: Handle, g: Handle)
    requires IsRooted(p) && IsRooted(q) && p != q && Add(EMPTY_NODE, p, h).ok
    requires Add(Add(EMPTY_NODE, p, h).node, q, g).ok && Registered(Add(EMPTY_NODE, p, h).node, q) == q
    ensures Holds(Remove(Add(Add(EMPTY_NODE, p, h).node, q, g).node, p).node, map[q := g])
  {
    var n := Add(EMPTY_NODE, p, h).node;
    FirstHeld(p, h);
    StepHolds(n, map[p := h], Op.Register(q, g));
    StepHolds(Add(n, q, g).node, map[p := h][q := g], Op.Unregister(p));
    assert map[p := h][q := g] - {p} == map[q := g];
  }

  /**
   A '*name' behind the literal `a` matches what the request goes on with behind `a`, if it goes on, and
   the value has no '/' in front.
   */
  lemma {:induction false} CatchAllServes(n: Node, t: Table, a: string, name: string, rest: string)
    requires RootOk(n) && Holds(n, t) && NoWild(a) && a + "*" + name in t
    requires rest != "" && IsCleanRequest(a + rest)
    ensures var s := Get(n, a + rest, true);
      s.handle == Some(t[a + "*" + name]) && s.bindings == [Binding(name, rest)]
  {
    MatchCatchAll(a, name, rest);
    GetRefinesTable(n, t, a + rest, true);
  }

  lemma {:induction false} MatchCatchAll(a: string, name: string, rest: string)
    requires NoWild(a)
    ensures Match(a + "*" + name, a + rest) == if rest == "" then None else Some([Binding(name, rest)])
  {
    assert a + "*" + name == a + ("*" + name) && ("*" + name)[1..] == name && (a + rest)[|a|..] == rest;
    MatchLiteral(a, "*" + name, a + rest);
  }

  /** If nothing else is registered, neither `b + "/"` nor `b` is answered, and no slash is advised for `b`. */
  lemma {:induction false} CatchAllAlone(n: Node, t: Table, b: string, name: string, h: Handle)
    requires RootOk(n) && Holds(n, t) && t == map[b + "/*" + name := h]
    requires IsPattern(b + "/*" + name) && NoWild(b) && b != "" && IsCleanRequest(b + "/")
    ensures Get(n, b + "/", true).handle == None
    ensures Get(n, b, true).handle == None && Get(n, b, true).redirect != AddSlash
  {
    var p, a := b + "/*" + name, b + "/";
    assert p == a + "*" + name && NoWild(a) && a + "" == a;
    MatchCatchAll(a, name, "");
    assert a + ("*" + name) == p;
    MatchLiteral(a, "*" + name, b);
    GetRefinesTable(n, t, a, true);
    CleanPrefix(b, Mid);
    GetRefinesTable(n, t, b, true);
    AddSlashIff(n, t, b);
    CatchAllEnds(a, "*" + name, p);
    assert !Stray(Patterns(t), Mid, b);
  }

  /** The name of a pattern's '*name' is not empty, and has no '/'. */
  lemma {:induction false} CatchAllEnds(a: string, rest: string, p: string)
    requires IsPattern(p) && p == a + rest && NoWild(a) && rest != "" && rest[0] == '*'
    ensures LastChar(p) != '/'
  {
    PatternLiteral(a, rest, Mid);
    BeforeSegEnd(rest);
  }

  /** A wildcard inside a segment makes no pattern, but is accepted. */
  lemma {:induction false} WildcardInSegment(h: Handle)
    ensures Add(EMPTY_NODE, "/a:b", h).ok && !IsPattern("/a:b")
  {
    NamedInSegment();
    FirstAddIff("/a:b", h);
    NoPatternInSegment();
  }

  lemma {:induction false} NoPatternInSegment()
    ensures !IsPattern("/a:b")
  {
    assert "/a:b"[1..] == "a:b" && "a:b"[1..] == ":b";
  }

  lemma {:induction false} NamedInSegment()
    ensures WellNamed("/a:b")
  {
    var p := "/a:b";
    assert p[3..] == "b" && SegEnd("b") == 1 && p[3..4] == "b";
    assert NamedAt(p, 2);
  }

  /** With "/:a" registered, `Add` accepts "/:a:b", which it refuses on an empty tree. */
  lemma {:induction false} WildcardBehindName(h: Handle, g: Handle)
    ensures var n := Add(EMPTY_NODE, "/:a", h).node;
      !Add(EMPTY_NODE, "/:a:b", g).ok && Add(n, "/:a:b", g).ok
  {
    NotNamed(g);
    AcceptedBehindName(h, g);
  }

  lemma {:induction false} AcceptedBehindName(h: Handle, g: Handle)
    ensures Add(Add(EMPTY_NODE, "/:a", h).node, "/:a:b", g).ok
  {
    var a := Node(":a", 1, NO_INDEX, Param, 1, [], Some(h));
    NameNode(a, h);
    NameGoesOn(a, h, g);
    var q, r := ":a", ":a:b";
    BelowSlash(q, r, a, h, g);
    assert "/" + q == "/:a" && "/" + r == "/:a:b";
  }

  lemma {:induction false} NameNode(a: Node, h: Handle)
    requires a == Node(":a", 1, NO_INDEX, Param, 1, [], Some(h))
    ensures Construct(":a", h) == Some(a)
  {
    assert ":a"[1..] == "a" && "a"[1..] == "" && IndexAny("a", ":*/") == -1;
  }

  lemma {:induction false} NameGoesOn(a: Node, h: Handle, g: Handle)
    requires a == Node(":a", 1, NO_INDEX, Param, 1, [], Some(h))
    ensures Add(a, ":a:b", g).ok
  {
    LcpAt(":a:b", ":a", 2);
    assert ":a:b"[2..] == ":b" && ":b"[1..] == "b" && "b"[1..] == "" && IndexAny("b", ":*/") == -1;
    assert Construct(":b", g).Some?;
    assert Next(a, 2, ":a:b", g).ok;
  }

  lemma {:induction false} BelowSlash(q: string, r: string, a: Node, h: Handle, g: Handle)
    requires q != "" && r != "" && IsWild(q[0]) && a.kind == Param && Construct(q, h) == Some(a) && Add(a, r, g).ok
    ensures Add(Add(EMPTY_NODE, "/" + q, h).node, "/" + r, g).ok
  {
    var n := Node("/", a.maxParams, '/', Static, 1, [a], None);
    assert ("/" + q)[1..] == q && IndexAny("/" + q, ":*") == 1 && ("/" + q)[..1] == "/";
    assert Add(EMPTY_NODE, "/" + q, h).node == n;
    LcpAt("/" + r, "/", 1);
    assert ("/" + r)[1..] == r && ChildIndex(n.children, r[0]) == 0;
    assert Next(n, 1, "/" + r, g).ok;
  }

  lemma {:induction false} NotNamed(g: Handle)
    ensures !WellNamed("/:a:b") && !Add(EMPTY_NODE, "/:a:b", g).ok
  {
    var p := "/:a:b";
    assert p[2..] == "a:b" && p[2..][1..] == ":b" && ":b"[1..] == "b" && SegEnd("b") == 1 && SegEnd(":b") == 2 &&
      SegEnd("a:b") == 3;
    assert p[2..5][1] == ':';
    assert !NamedAt(p, 1);
    ConstructIff(p, g);
  }

  /** With "/a/" and "/ab" registered, "/ac" is answered with the advice to add a slash; "/ac/" is not registered. */
  lemma {:induction false} AddSlashAdviceUnsound(h: Handle, g: Handle)
    ensures var n := Add(Add(EMPTY_NODE, "/a/", h).node, "/ab", g).node;
      Get(n, "/ac", true).redirect == AddSlash && Get(n, "/ac/", true).handle == None
  {
    var slash := Node("/", 0, '/', Static, 1, [], Some(h));
    var b := Node("b", 0, 'b', Static, 1, [], Some(g));
    TwoBelow(slash, b, h, g);
    Strays(Node("/a", 0, '/', Static, 2, [slash, b], None), slash, b);
  }

  lemma {:induction false} TwoBelow(slash: Node, b: Node, h: Handle, g: Handle)
    requires slash == Node("/", 0, '/', Static, 1, [], Some(h)) && b == Node("b", 0, 'b', Static, 1, [], Some(g))
    ensures Add(Add(EMPTY_NODE, "/a/", h).node, "/ab", g).node == Node("/a", 0, '/', Static, 2, [slash, b], None)
  {
    var leaf := Node("/a/", 0, '/', Static, 1, [], Some(h));
    assert IndexAny("/a/", ":*") == -1;
    assert Add(EMPTY_NODE, "/a/", h).node == leaf;
    LcpAt("/ab", "/a/", 2);
    var m := Node("/a", 0, '/', Static, 1, [slash], None);
    assert "/a/"[2..] == "/" && "/a/"[..2] == "/a" && "/ab"[2..] == "b";
    assert Split(leaf, 2, None) == m;
    BehindSlash(m, slash, b, g);
    assert Add(leaf, "/ab", g).node == Node("/a", 0, '/', Static, 2, [slash, b], None);
  }

  lemma {:induction false} BehindSlash(m: Node, slash: Node, b: Node, g: Handle)
    requires m == Node("/a", 0, '/', Static, 1, [slash], None) && slash.index == '/' && slash.maxParams == 0
    requires slash.kind == Static && slash.priority == 1 && b == Node("b", 0, 'b', Static, 1, [], Some(g))
    ensures Next(m, 2, "/ab", g) == Outcome(Node("/a", 0, '/', Static, 2, [slash, b], None), true)
  {
    assert "/ab"[2..] == "b" && IndexAny("b", ":*") == -1;
    assert Construct("b", g) == Some(b);
    assert ChildIndex([slash], 'b') == 1;
    assert [slash] + [b] == [slash, b];
    assert Resort([slash, b]) == [slash, b] by {
      assert [slash, b][1..] == [b];
      Alone(b);
      assert '/' < 'b';
      assert Insert(slash, [b]) == [slash] + [b];
    }
  }

  lemma {:induction false} Strays(n: Node, slash: Node, b: Node)
    requires n == Node("/a", 0, '/', Static, 2, [slash, b], None) && slash.path == "/" && slash.handle.Some?
    requires slash.kind == Static && slash.index == '/' && b.kind == Static && b.index == 'b'
    ensures Get(n, "/ac", true).redirect == AddSlash && Get(n, "/ac/", true).handle == None
  {
    LcpAt("/a", "/ac", 2);
    LcpAt("/a", "/ac/", 2);
    assert [slash, b][1..] == [b] && [b][1..] == [];
    assert ChildIndex(n.children, 'c') == 2;
    assert n.children[0].path == "/" && HasSlashChild(n);
  }

  lemma {:induction false} LcpAt(a: string, b: string, i: nat)
    requires i <= |a| && i <= |b| && a[..i] == b[..i] && (i == |a| || i == |b| || a[i] != b[i])
    ensures Lcp(a, b) == i
  {
    assert forall k :: 0 <= k < i ==> a[k] == a[..i][k] && b[k] == b[..i][k];
    var j := Lcp(a, b);
    assert forall k :: 0 <= k < j ==> a[k] == a[..j][k] && b[k] == b[..j][k];
  }
}
