/**
 The radix tree on values: a node of the tree and what every operation of the tree computes,
 branch by branch.  `RouteNodes` contains the operations that update nodes in place and proves
 them against the functions of this module.
 */
module RouteTree {
  import opened Options
  import opened RoutePatterns

  datatype Handle = Handle(id: nat)

  datatype Kind = Static | Param | CatchAll

  datatype Node = Node(path: string, maxParams: nat, index: char, kind: Kind, priority: nat,
                       children: seq<Node>, handle: Option<Handle>)

  const NO_INDEX := 0 as char

  const EMPTY_NODE := Node("", 0, NO_INDEX, Static, 0, [], None)

  /** The node an operation leaves behind, and whether it succeeded. */
  datatype Outcome = Outcome(node: Node, ok: bool)

  // ----- auxiliary functions of the tree

  /** Length of the longest common prefix. */
  function Lcp(a: string, b: string): (i: nat)
    ensures i <= |a| && i <= |b| && a[..i] == b[..i]
    ensures i < |a| && i < |b| ==> a[i] != b[i]
  {
    if a == "" || b == "" || a[0] != b[0] then 0
    else
      assert a == [a[0]] + a[1..] && b == [b[0]] + b[1..];
      1 + Lcp(a[1..], b[1..])
  }

  /** Index of the first character of `s` that is in `chars`, or -1. */
  function IndexAny(s: string, chars: string): (i: int)
    ensures -1 <= i < |s|
    ensures i >= 0 ==> s[i] in chars && forall k :: 0 <= k < i ==> s[k] !in chars
    ensures i == -1 ==> forall k :: 0 <= k < |s| ==> s[k] !in chars
  {
    if s == "" then -1
    else if s[0] in chars then 0
    else var i := IndexAny(s[1..], chars); if i == -1 then -1 else i + 1
  }

  function Max(a: nat, b: nat): nat { if a >= b then a else b }

  function LastChar(s: string): char { if s == "" then NO_INDEX else s[|s|-1] }

  function Head(n: Node): char { if n.path == "" then NO_INDEX else n.path[0] }

  /** Position of the first child whose path starts with `b`, or the number of children. */
  function HeadIndex(cs: seq<Node>, b: char): (k: nat)
    ensures k <= |cs|
    ensures k < |cs| ==> Head(cs[k]) == b
    ensures forall j :: 0 <= j < k ==> Head(cs[j]) != b
  {
    if cs == [] || Head(cs[0]) == b then 0 else 1 + HeadIndex(cs[1..], b)
  }

  /** Position of the child to descend to for `b`, or the number of children. */
  function ChildIndex(cs: seq<Node>, b: char): (k: nat)
    ensures k <= |cs|
    ensures k < |cs| ==> cs[k].kind != Static || cs[k].index == b
    ensures forall j :: 0 <= j < k ==> cs[j].kind == Static && cs[j].index != b
  {
    if cs == [] || cs[0].kind != Static || cs[0].index == b then 0 else 1 + ChildIndex(cs[1..], b)
  }

  predicate Less(a: Node, b: Node) {
    a.priority > b.priority || (a.priority == b.priority && a.index < b.index)
  }

  function Insert(n: Node, cs: seq<Node>): seq<Node> {
    if cs == [] || Less(n, cs[0]) then [n] + cs else [cs[0]] + Insert(n, cs[1..])
  }

  /** The children in the order of `Less`. */
  function Resort(cs: seq<Node>): seq<Node> {
    if cs == [] then [] else Insert(cs[0], Resort(cs[1..]))
  }

  function MaxParams(cs: seq<Node>): nat {
    if cs == [] then 0 else Max(cs[0].maxParams, MaxParams(cs[1..]))
  }

  // ----- reshaping one node

  function Concat(n: Node): Node
    requires n.children != []
  {
    var child := n.children[0];
    if child.kind != Static then n
    else if n.kind == Static || (n.kind == Param && child.path == "/") then
      n.(path := n.path + child.path, children := child.children, handle := child.handle)
    else if n.kind == Param && child.index == '/' && |child.path| > 1 then
      n.(path := n.path + "/", children := [child.(path := child.path[1..], index := child.path[1])] + n.children[1..])
    else n
  }

  function Split(n: Node, i: nat, handle: Option<Handle>): Node
    requires i < |n.path|
  {
    if i == 0 then n
    else
      var cut := n.(path := n.path[i..], index := n.path[i]);
      var left := if n.maxParams == 0 then 0 else n.maxParams - 1;
      var child := if n.kind == Param then cut.(kind := Static, maxParams := left) else cut;
      n.(path := n.path[..i], children := [child], handle := handle,
         priority := if handle.Some? then n.priority + 1 else n.priority)
  }

  /** The inverse of `Split`, applied when the operation that split the node has failed. */
  function Combine(n: Node): Node
    requires n.children != []
  {
    var child := n.children[0];
    n.(path := n.path + child.path, children := child.children, handle := child.handle,
       priority := if n.handle.Some? && n.priority > 0 then n.priority - 1 else n.priority)
  }

  // ----- add

  /** The chain of nodes for `path`, or None if `path` is malformed. */
  function Construct(path: string, handle: Handle): Option<Node>
    requires path != ""
    decreases |path|
  {
    if path[0] == ':' then
      var j := IndexAny(path[1..], ":*/");
      if j > 0 then
        if path[j+1] != '/' then None
        else if j + 2 < |path| then
          match Construct(path[j+2..], handle)
          case None => None
          case Some(child) => Some(Node(path[..j+2], 1 + child.maxParams, NO_INDEX, Param, 1, [child], None))
        else Some(Node(path[..j+2], 1, NO_INDEX, Param, 1, [], Some(handle)))
      else if j == -1 && |path| > 1 then Some(Node(path, 1, NO_INDEX, Param, 1, [], Some(handle)))
      else None
    else if path[0] == '*' then
      if IndexAny(path[1..], ":*/") != -1 || |path| == 1 then None
      else Some(Node(path, 1, NO_INDEX, CatchAll, 1, [], Some(handle)))
    else
      var i := IndexAny(path, ":*");
      if i != -1 then
        match Construct(path[i..], handle)
        case None => None
        case Some(child) => Some(Node(path[..i], child.maxParams, path[0], Static, 1, [child], None))
      else Some(Node(path, 0, path[0], Static, 1, [], Some(handle)))
  }

  function Add(n: Node, path: string, handle: Handle): Outcome
    decreases |path|, n, 1
  {
    if path == "" then Outcome(n, false)
    else if n.path == "" then
      match Construct(path, handle)
      case None => Outcome(EMPTY_NODE, false)
      case Some(c) => Outcome(c, true)
    else
      var i := Lcp(path, n.path);
      match n.kind
      case Static =>
        if i < |path| then
          if i == 0 && IsWild(path[0]) then Outcome(n, false)
          else if i < |n.path| then
            var r := Next(Split(n, i, None), i, path, handle);
            if !r.ok && r.node.children != [] then Outcome(Combine(r.node), false) else r
          else Next(n, i, path, handle)
        else if i < |n.path| then Outcome(Split(n, i, Some(handle)), true)
        else Register(n, handle)
      case Param =>
        if i == |n.path| then
          if i < |path| then Next(n, i, path, handle) else Register(n, handle)
        else if i == |n.path| - 1 && LastChar(n.path) == '/' then Outcome(SplitSlash(n, handle), true)
        else Outcome(n, false)
      case CatchAll => Outcome(n, false)
  }

  function Register(n: Node, handle: Handle): Outcome {
    if n.handle.None? then Outcome(n.(handle := Some(handle), priority := n.priority + 1), true)
    else Outcome(n, false)
  }

  /** Splits ':name/' into ':name' with the new handle and '/', joined with its only child if it can be. */
  function SplitSlash(n: Node, handle: Handle): Node
    requires |n.path| > 0
  {
    var m := Split(n, |n.path| - 1, Some(handle));
    if m.children == [] then m
    else
      var child := m.children[0];
      if child.handle.None? && |child.children| == 1 then m.(children := [Concat(child)] + m.children[1..]) else m
  }

  /** Continues an `Add` with `path[i..]` in the children of `n`. */
  function Next(n: Node, i: nat, path: string, handle: Handle): Outcome
    requires i < |path|
    decreases |path| - i, n, 0
  {
    if n.children != [] && IsWild(path[i]) && n.children[0].kind == Static then
      var r := Add(n.children[0], path[i..], handle);
      Outcome(n.(children := n.children[0 := r.node]), r.ok)
    else
      var k := ChildIndex(n.children, path[i]);
      if k < |n.children| then
        var r := Add(n.children[k], path[i..], handle);
        var cs := n.children[k := r.node];
        if r.ok then Outcome(Grown(n, cs, r.node), true) else Outcome(n.(children := cs), false)
      else
        match Construct(path[i..], handle)
        case None => Outcome(n, false)
        case Some(c) => Outcome(Grown(n, n.children + [c], c), true)
  }

  /** `n` with children `cs`, after its child `c` has gained a handle. */
  function Grown(n: Node, cs: seq<Node>, c: Node): Node {
    n.(children := Resort(cs), priority := n.priority + 1,
       maxParams := Max(n.maxParams, if n.kind == Static then c.maxParams else c.maxParams + 1))
  }

  // ----- remove

  function Remove(n: Node, path: string): Outcome
    decreases n, 1
  {
    var i := Lcp(n.path, path);
    Cleared(
      if i == |n.path| && i == |path| then Unregister(n)
      else if i == |n.path| && i < |path| then RemoveBelow(n, i, path)
      else Outcome(n, false))
  }

  /** A node without any handle below it loses its path. */
  function Cleared(r: Outcome): Outcome {
    if r.node.priority == 0 then Outcome(r.node.(path := "", index := NO_INDEX), r.ok) else r
  }

  function Unregister(n: Node): Outcome {
    if n.handle.Some? && n.priority > 0 then Outcome(Joined(n.(priority := n.priority - 1, handle := None)), true)
    else Outcome(n, false)
  }

  /** Continues a `Remove` with `path[i..]` in the children of `n`. */
  function RemoveBelow(n: Node, i: nat, path: string): Outcome
    requires i < |path|
    decreases n, 0
  {
    var k := HeadIndex(n.children, path[i]);
    if k == |n.children| then Outcome(n, false)
    else
      var s := Remove(n.children[k], path[i..]);
      if s.ok && n.priority > 0 then Outcome(Shrunk(n, k, s.node), true)
      else Outcome(n.(children := n.children[k := s.node]), false)
  }

  /** `n` after its child `k` has lost a handle and become `c`. */
  function Shrunk(n: Node, k: nat, c: Node): Node
    requires k < |n.children| && n.priority > 0
  {
    Joined(Reduced(n, if c.priority == 0 then n.children[..k] + n.children[k+1..] else n.children[k := c]))
  }

  /** `n` with children `cs`, after one of them has lost a handle. */
  function Reduced(n: Node, cs: seq<Node>): Node
    requires n.priority > 0
  {
    n.(children := Resort(cs), priority := n.priority - 1,
       maxParams := if n.kind == Static then MaxParams(cs) else MaxParams(cs) + 1)
  }

  /** `n` joined with its only child, unless it has a handle of its own. */
  function Joined(n: Node): Node {
    if |n.children| == 1 && n.handle.None? then Concat(n) else n
  }

  // ----- get

  /** Where a walk down the tree stops: the locals of `get` when its loop ends. */
  datatype Stop = Stop(parent: Option<Node>, node: Node, rest: string, i: nat, handle: Option<Handle>,
    bindings: seq<Binding>)

  function Walk(parent: Option<Node>, n: Node, path: string, bindings: seq<Binding>): Stop
    decreases n
  {
    if path == "" then Stop(parent, n, path, 0, None, bindings)
    else if n.kind == Param && LastChar(n.path) == '/' && SegEnd(path) == |path| then
      Stop(parent, n, path, |path|, None, bindings)
    else
      var (i, bs) := Consume(n, path);
      if n.kind == Static && i < |n.path| then Stop(parent, n, path, i, None, bindings + bs)
      else if i < |path| then
        var k := ChildIndex(n.children, path[i]);
        if k < |n.children| then Walk(Some(n), n.children[k], path[i..], bindings + bs)
        else Stop(parent, n, path, i, None, bindings + bs)
      else Stop(parent, n, path, i, n.handle, bindings + bs)
  }

  /** How much of `path` the node itself consumes, and what it binds. */
  function Consume(n: Node, path: string): (r: (nat, seq<Binding>))
    requires path != ""
    requires n.kind == Param && LastChar(n.path) == '/' ==> SegEnd(path) < |path|
    ensures r.0 <= |path|
  {
    match n.kind
    case Static => (Lcp(n.path, path), [])
    case Param =>
      var i := SegEnd(path);
      if i == 0 || n.path == "" then (i, [])
      else if LastChar(n.path) == '/' && |n.path| > 1 then (i + 1, [Binding(n.path[1..|n.path|-1], path[..i])])
      else (i, [Binding(n.path[1..], path[..i])])
    case CatchAll => (|path|, if n.path == "" then [] else [Binding(n.path[1..], path)])
  }

  datatype Redirect = NotRedirect | RemoveSlash | AddSlash

  predicate HasSlashChild(n: Node) {
    exists k :: 0 <= k < |n.children| && n.children[k].path == "/" && n.children[k].handle.Some?
  }

  predicate HandledParent(s: Stop) { s.parent.Some? && s.parent.value.handle.Some? }

  function Advice(s: Stop): Redirect {
    if LastChar(s.rest) != '/' then
      match s.node.kind
      case Static =>
        if (s.node.handle.Some? && s.i == |s.rest| && s.i == |s.node.path| - 1 && s.node.path[s.i] == '/') ||
           (s.i == |s.node.path| && HasSlashChild(s.node)) then AddSlash else NotRedirect
      case Param =>
        if (s.node.handle.Some? && LastChar(s.node.path) == '/') || HasSlashChild(s.node) then AddSlash else NotRedirect
      case CatchAll => NotRedirect
    else
      match s.node.kind
      case Static =>
        if s.i == |s.rest| - 1 then
          if (s.i == |s.node.path| && s.node.handle.Some?) || (s.i == 0 && HandledParent(s)) then RemoveSlash
          else NotRedirect
        else if s.rest == "/" && HandledParent(s) then RemoveSlash else NotRedirect
      case Param => if s.i == |s.rest| - 1 && s.node.handle.Some? then RemoveSlash else NotRedirect
      case CatchAll => NotRedirect
  }

  datatype Answer = Answer(handle: Option<Handle>, bindings: seq<Binding>, redirect: Redirect)

  function Get(n: Node, path: string, advise: bool): Answer {
    var s := Walk(None, n, path, []);
    Answer(s.handle, s.bindings, if s.handle.None? && advise then Advice(s) else NotRedirect)
  }
}
