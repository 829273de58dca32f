/**
 The nodes of the tree as objects that are updated in place.  Every method is proved against
 the function of `RouteTree` with the same name: `value` is the tree a node stands for.
 */
module RouteNodes {
  import opened Options
  import opened RoutePatterns
  import opened RouteTree

  class TreeNode {
    var path: string
    var maxParams: nat
    var index: char
    var kind: Kind
    var priority: nat
    var children: seq<TreeNode>
    var handle: Option<Handle>

    ghost var value: Node
    ghost var repr: set<object>

    ghost predicate Valid()
      reads this, repr
      decreases repr
    {
      && this in repr
      && ChildrenValid(this, children, repr)
      && (forall k :: 0 <= k < |children| ==> children[k].Valid())
      && FieldsMatch()
      && ValuesMatch(children, value.children)
    }

    /** The fields of the node are those of its value. */
    ghost predicate FieldsMatch()
      reads this
    {
      && value.path == path && value.maxParams == maxParams && value.index == index && value.kind == kind
      && value.priority == priority && value.handle == handle
    }

    /** The children of `n` own disjoint parts of `repr`, and none of them owns `n`. */
    static ghost predicate ChildrenValid(n: TreeNode, cs: seq<TreeNode>, repr: set<object>)
      reads repr
    {
      && (forall k :: 0 <= k < |cs| ==> cs[k] in repr && cs[k].repr < repr && n !in cs[k].repr)
      && (forall j, k :: 0 <= j < k < |cs| ==> cs[j].repr !! cs[k].repr)
    }

    static ghost predicate ValuesMatch(cs: seq<TreeNode>, vs: seq<Node>)
      reads cs
    {
      |vs| == |cs| && forall k :: 0 <= k < |cs| ==> cs[k].value == vs[k]
    }

    constructor ()
      ensures Valid() && repr == {this} && value == EMPTY_NODE
    {
      path, maxParams, index, kind, priority, children, handle := "", 0, NO_INDEX, Static, 0, [], None;
      value, repr := EMPTY_NODE, {this};
    }

    /** The part of `n` behind the first `i` characters of its path. */
    constructor Lower(n: TreeNode, i: nat)
      requires n.Valid() && 0 < i < |n.path|
      ensures Valid() && fresh(this) && repr == n.repr - {n} + {this}
      ensures [value] == RouteTree.Split(n.value, i, None).children
    {
      path, index, priority, children, handle := n.path[i..], n.path[i], n.priority, n.children, n.handle;
      kind := if n.kind == Param then Static else n.kind;
      maxParams := if n.kind == Param && n.maxParams > 0 then n.maxParams - 1 else n.maxParams;
      value := RouteTree.Split(n.value, i, None).children[0];
      repr := n.repr - {n} + {this};
    }

    // ----- reshaping one node

    method Concat()
      requires Valid() && children != []
      modifies repr
      ensures Valid() && repr == old(repr) && value == RouteTree.Concat(old(value))
    {
      var child := children[0];
      if child.kind == Static {
        if kind == Static || (kind == Param && child.path == "/") {
          Absorb();
        } else if kind == Param && child.index == '/' && |child.path| > 1 {
          TakeSlash();
        }
      }
    }

    /** Takes over the first character of the first child. */
    method TakeSlash()
      requires Valid() && children != [] && |children[0].path| > 1
      requires kind == Param && children[0].kind == Static && children[0].index == '/'
      modifies repr
      ensures Valid() && repr == old(repr) && value == RouteTree.Concat(old(value))
    {
      ConcatTakes(value);
      children[0].DropFirst();
      Refresh(0);
      Rename(path + "/");
    }

    static lemma ConcatTakes(n: Node)
      requires n.children != [] && |n.children[0].path| > 1
      requires n.kind == Param && n.children[0].kind == Static && n.children[0].index == '/'
      ensures var c := n.children[0];
        RouteTree.Concat(n) == n.(path := n.path + "/",
          children := n.children[0 := c.(path := c.path[1..], index := c.path[1])])
    {
      var d := n.children[0].(path := n.children[0].path[1..], index := n.children[0].path[1]);
      assert [d] + n.children[1..] == n.children[0 := d];
      assert n.children[0].path != "/";
    }

    method Rename(p: string)
      requires Valid()
      modifies this`path, this`value
      ensures Valid() && value == old(value).(path := p)
    {
      path := p;
      value := value.(path := p);
    }

    /** Every child but `k` is as it was, and `k` is valid again. */
    ghost predicate ValidBut(k: nat)
      reads this, repr, children
      reads set c, o | c in children && o in c.repr :: o
    {
      && k < |children| && |value.children| == |children| && this in repr && FieldsMatch()
      && (forall j :: 0 <= j < |children| ==> this !in children[j].repr && children[j].Valid())
      && (forall j :: 0 <= j < |children| && j != k ==>
        children[j] in repr && children[j].repr < repr && children[j].value == value.children[j])
      && forall i, j :: 0 <= i < j < |children| ==> children[i].repr !! children[j].repr
    }

    /** Child `k` has changed. */
    method Refresh(k: nat)
      requires ValidBut(k)
      modifies this`value, this`repr
      ensures Valid() && repr == old(repr) + children[k].repr
      ensures value == old(value).(children := old(value).children[k := children[k].value])
    {
      value := value.(children := value.children[k := children[k].value]);
      repr := repr + children[k].repr;
    }

    method Absorb()
      requires Valid() && children != [] && children[0].kind == Static
      requires kind == Static || (kind == Param && children[0].path == "/")
      modifies this
      ensures Valid() && repr == old(repr) && value == RouteTree.Concat(old(value))
    {
      var child := children[0];
      path := path + child.path;
      children, handle := child.children, child.handle;
      value := RouteTree.Concat(value);
    }

    method DropFirst()
      requires Valid() && |path| > 1
      modifies this
      ensures Valid() && repr == old(repr) && value == old(value).(path := old(path)[1..], index := old(path)[1])
    {
      path, index := path[1..], path[1];
      value := value.(path := path, index := index);
    }

    method Split(i: nat, newHandle: Option<Handle>)
      requires Valid() && i < |path|
      modifies this
      ensures Valid() && fresh(repr - old(repr)) && value == RouteTree.Split(old(value), i, newHandle)
    {
      if i > 0 {
        var child := new TreeNode.Lower(this, i);
        Lift(path[..i], child, newHandle, RouteTree.Split(value, i, newHandle));
      }
    }

    /** Becomes a node with path `p` above `child`. */
    method Lift(p: string, child: TreeNode, newHandle: Option<Handle>, ghost v: Node)
      requires child.Valid() && this !in child.repr
      requires v ==
        Node(p, maxParams, index, kind, if newHandle.Some? then priority + 1 else priority, [child.value], newHandle)
      modifies this
      ensures Valid() && repr == {this} + child.repr && value == v
    {
      path, children := p, [child];
      if newHandle.Some? {
        priority := priority + 1;
      }
      handle := newHandle;
      value, repr := v, {this} + child.repr;
    }

    /** The inverse of `Split`, after the operation that split the node has failed. */
    method Combine()
      requires Valid() && children != []
      modifies this
      ensures Valid() && repr == old(repr) && value == RouteTree.Combine(old(value))
    {
      var child := children[0];
      path, children := path + child.path, child.children;
      if handle.Some? && priority > 0 {
        priority := priority - 1;
      }
      handle := child.handle;
      value := RouteTree.Combine(value);
    }

    // ----- children

    method HeadIndex(b: char) returns (k: nat)
      requires Valid()
      ensures k == RouteTree.HeadIndex(value.children, b)
    {
      k := 0;
      while k < |children|
        invariant k <= |children|
        invariant RouteTree.HeadIndex(value.children, b) == k + RouteTree.HeadIndex(value.children[k..], b)
      {
        if (if children[k].path == "" then NO_INDEX else children[k].path[0]) == b { return; }
        assert value.children[k..][1..] == value.children[k+1..];
        k := k + 1;
      }
    }

    method ChildIndex(b: char) returns (k: nat)
      requires Valid()
      ensures k == RouteTree.ChildIndex(value.children, b)
    {
      k := 0;
      while k < |children|
        invariant k <= |children|
        invariant RouteTree.ChildIndex(value.children, b) == k + RouteTree.ChildIndex(value.children[k..], b)
      {
        if children[k].kind != Static || children[k].index == b { return; }
        assert value.children[k..][1..] == value.children[k+1..];
        k := k + 1;
      }
    }

    method LargestMaxParams() returns (most: nat)
      requires Valid()
      ensures most == MaxParams(value.children)
    {
      most := 0;
      var k := |children|;
      while k > 0
        invariant 0 <= k <= |children|
        invariant most == MaxParams(value.children[k..])
      {
        k := k - 1;
        assert value.children[k..][1..] == value.children[k+1..];
        if children[k].maxParams > most { most := children[k].maxParams; }
      }
      assert value.children[0..] == value.children;
    }

    /** Puts the children in the order of `Less`. */
    method Resort()
      requires Valid()
      modifies this
      ensures Valid() && repr == old(repr) && value == old(value).(children := RouteTree.Resort(old(value).children))
    {
      var sorted;
      ghost var vs;
      sorted, vs := SortedChildren();
      AllOwned(sorted);
      children := sorted;
      value := value.(children := vs);
    }

    lemma AllOwned(cs: seq<TreeNode>)
      requires Valid() && forall c :: c in cs ==> c in children
      ensures forall k :: 0 <= k < |cs| ==> cs[k] in repr && cs[k].repr < repr && this !in cs[k].repr && cs[k].Valid()
    {
      forall k | 0 <= k < |cs| ensures cs[k] in repr && cs[k].repr < repr && this !in cs[k].repr && cs[k].Valid() {
        assert cs[k] in children;
      }
    }

    method SortedChildren() returns (sorted: seq<TreeNode>, ghost vs: seq<Node>)
      requires Valid()
      ensures Sequenced(sorted, vs) && vs == RouteTree.Resort(value.children)
      ensures forall c :: c in sorted ==> c in children
    {
      var k := |children|;
      sorted, vs := [], [];
      while k > 0
        invariant 0 <= k <= |children| == |value.children|
        invariant Sequenced(sorted, vs) && vs == RouteTree.Resort(value.children[k..])
        invariant forall c :: c in sorted ==> c in children[k..]
      {
        k := k - 1;
        assert value.children[k..][1..] == value.children[k+1..];
        var n := children[k];
        assert n.Valid();
        forall c | c in sorted ensures c.repr !! n.repr {
          var j :| k < j < |children| && children[j] == c;
        }
        assert children[k..] == [n] + children[k+1..];
        sorted, vs := InsertChild(n, sorted, vs);
      }
      assert value.children[0..] == value.children && children[0..] == children;
    }

    /** Nodes with disjoint parts whose fields and values are `vs`. */
    static ghost predicate Sequenced(cs: seq<TreeNode>, vs: seq<Node>)
      reads cs
    {
      && ValuesMatch(cs, vs)
      && (forall c :: c in cs ==> c.FieldsMatch())
      && forall i, j :: 0 <= i < j < |cs| ==> cs[i].repr !! cs[j].repr
    }

    static method InsertChild(n: TreeNode, cs: seq<TreeNode>, ghost vs: seq<Node>)
      returns (r: seq<TreeNode>, ghost rs: seq<Node>)
      requires Sequenced(cs, vs) && n.FieldsMatch() && forall c :: c in cs ==> c.repr !! n.repr
      ensures Sequenced(r, rs) && rs == Insert(n.value, vs)
      ensures forall c :: c in r <==> c == n || c in cs
    {
      var p := InsertPosition(n, cs, vs);
      InsertDisjoint(n, cs, p);
      r, rs := cs[..p] + [n] + cs[p..], vs[..p] + [n.value] + vs[p..];
    }

    static method InsertPosition(n: TreeNode, cs: seq<TreeNode>, ghost vs: seq<Node>) returns (k: nat)
      requires ValuesMatch(cs, vs) && n.FieldsMatch() && forall c :: c in cs ==> c.FieldsMatch()
      ensures k <= |cs| && Insert(n.value, vs) == vs[..k] + [n.value] + vs[k..]
    {
      k := 0;
      while k < |cs| && !(n.priority > cs[k].priority || (n.priority == cs[k].priority && n.index < cs[k].index))
        invariant 0 <= k <= |cs|
        invariant forall j :: 0 <= j < k ==> !Less(n.value, vs[j])
      {
        assert cs[k] in cs;
        k := k + 1;
      }
      if k < |cs| { assert cs[k] in cs; }
      InsertAt(n.value, vs, k);
    }

    static lemma {:induction false} InsertAt(n: Node, vs: seq<Node>, k: nat)
      requires k <= |vs| && (forall j :: 0 <= j < k ==> !Less(n, vs[j])) && (k < |vs| ==> Less(n, vs[k]))
      ensures Insert(n, vs) == vs[..k] + [n] + vs[k..]
    {
      if k > 0 {
        InsertAt(n, vs[1..], k - 1);
        assert [vs[0]] + (vs[1..][..k-1] + [n] + vs[1..][k-1..]) == vs[..k] + [n] + vs[k..];
      } else if vs != [] {
        assert [n] + vs == vs[..0] + [n] + vs[0..];
      }
    }

    static lemma InsertDisjoint(n: TreeNode, cs: seq<TreeNode>, p: nat)
      requires p <= |cs| && forall c :: c in cs ==> c.repr !! n.repr
      requires forall i, j :: 0 <= i < j < |cs| ==> cs[i].repr !! cs[j].repr
      ensures var r := cs[..p] + [n] + cs[p..];
        && (forall i, j :: 0 <= i < j < |r| ==> r[i].repr !! r[j].repr)
        && forall c :: c in r <==> c == n || c in cs
    {
      var r := cs[..p] + [n] + cs[p..];
      assert forall i :: 0 <= i < |r| ==> r[i] == if i < p then cs[i] else if i == p then n else cs[i-1];
      forall c ensures c in r <==> c == n || c in cs {
        assert cs == cs[..p] + cs[p..];
      }
    }

    // ----- add

    /** Fills an empty node, and the chain of nodes below it. */
    method Construct(p: string, h: Handle) returns (ok: bool)
      requires Valid() && repr == {this} && value == EMPTY_NODE && p != ""
      modifies this
      ensures ok <==> RouteTree.Construct(p, h).Some?
      ensures ok ==> Valid() && fresh(repr - {this}) && Some(value) == RouteTree.Construct(p, h)
      decreases |p|, 1
    {
      priority := 1;
      if p[0] == ':' {
        kind := Param;
        ok := ConstructParam(p, h);
      } else if p[0] == '*' {
        kind := CatchAll;
        if IndexAny(p[1..], ":*/") != -1 || |p| == 1 { return false; }
        Fill(p, 1, h, RouteTree.Construct(p, h).value);
        ok := true;
      } else {
        ok := ConstructStatic(p, h);
      }
    }

    method ConstructParam(p: string, h: Handle) returns (ok: bool)
      requires IsBlank() && index == NO_INDEX && kind == Param && p != "" && p[0] == ':'
      modifies this
      ensures ok <==> RouteTree.Construct(p, h).Some?
      ensures ok ==> Valid() && fresh(repr - {this}) && Some(value) == RouteTree.Construct(p, h)
      decreases |p|, 0, 1
    {
      var j := IndexAny(p[1..], ":*/");
      if j > 0 && p[j+1] == '/' && j + 2 < |p| {
        SlashedName(p, j, h);
        ok := ConstructAbove(p, j + 2, 1, h);
      } else {
        ok := ConstructLeaf(p, j, h);
      }
    }

    static lemma SlashedName(p: string, j: int, h: Handle)
      requires p != "" && p[0] == ':' && j == IndexAny(p[1..], ":*/") && 0 < j && j + 2 < |p| && p[j+1] == '/'
      ensures RouteTree.Construct(p, h) ==
        match RouteTree.Construct(p[j+2..], h)
        case None => None
        case Some(c) => Some(Node(p[..j+2], 1 + c.maxParams, NO_INDEX, Param, 1, [c], None))
    {
    }

    /** Takes `p[..i]` and a chain of nodes for `p[i..]` below it. */
    method ConstructAbove(p: string, i: nat, params: nat, h: Handle) returns (ok: bool)
      requires IsBlank() && 0 < i < |p|
      modifies this
      ensures ok <==> RouteTree.Construct(p[i..], h).Some?
      ensures ok ==> Valid() && fresh(repr - {this})
      ensures ok ==> var c := RouteTree.Construct(p[i..], h).value;
        value == Node(p[..i], params + c.maxParams, old(index), old(kind), 1, [c], None)
      decreases |p|, 0, 0
    {
      var child := new TreeNode();
      ok := child.Construct(p[i..], h);
      if ok {
        Adopt(p[..i], child, params + child.maxParams,
          Node(p[..i], params + child.value.maxParams, index, kind, 1, [child.value], None));
      }
    }

    method ConstructLeaf(p: string, j: int, h: Handle) returns (ok: bool)
      requires IsBlank() && index == NO_INDEX && kind == Param && p != "" && p[0] == ':'
      requires j == IndexAny(p[1..], ":*/") && (j > 0 && p[j+1] == '/' ==> j + 2 >= |p|)
      modifies this
      ensures ok <==> RouteTree.Construct(p, h).Some?
      ensures ok ==> Valid() && repr == {this} && Some(value) == RouteTree.Construct(p, h)
    {
      ok := if j > 0 then p[j+1] == '/' else j == -1 && |p| > 1;
      if ok {
        Fill(if j > 0 then p[..j+2] else p, 1, h, RouteTree.Construct(p, h).value);
      }
    }

    method ConstructStatic(p: string, h: Handle) returns (ok: bool)
      requires IsBlank() && kind == Static && p != "" && p[0] != ':' && p[0] != '*'
      modifies this
      ensures ok <==> RouteTree.Construct(p, h).Some?
      ensures ok ==> Valid() && fresh(repr - {this}) && Some(value) == RouteTree.Construct(p, h)
      decreases |p|, 0, 1
    {
      index := p[0];
      var i := IndexAny(p, ":*");
      if i != -1 {
        ok := ConstructAbove(p, i, 0, h);
      } else {
        Fill(p, 0, h, RouteTree.Construct(p, h).value);
        ok := true;
      }
    }

    /** A node under construction. */
    ghost predicate IsBlank()
      reads this
    {
      priority == 1 && maxParams == 0 && children == [] && handle == None && repr == {this}
    }

    method Fill(p: string, params: nat, h: Handle, ghost v: Node)
      requires IsBlank() && v == Node(p, params, index, kind, 1, [], Some(h))
      modifies this
      ensures Valid() && repr == {this} && value == v
    {
      path, maxParams, handle := p, params, Some(h);
      value := v;
    }

    /** Takes path `p`, and makes `child` the only child. */
    method Adopt(p: string, child: TreeNode, params: nat, ghost v: Node)
      requires IsBlank() && child.Valid() && this !in child.repr
      requires v == Node(p, params, index, kind, 1, [child.value], None)
      modifies this
      ensures Valid() && repr == {this} + child.repr && value == v
    {
      path, children, maxParams := p, [child], params;
      value, repr := v, {this} + child.repr;
    }

    method Add(p: string, h: Handle) returns (ok: bool)
      requires Valid()
      modifies repr
      ensures Valid() && fresh(repr - old(repr))
      ensures Outcome(value, ok) == RouteTree.Add(old(value), p, h)
      decreases |p|, value, 4
    {
      if p == "" { return false; }
      if path == "" {
        ok := AddToEmpty(p, h);
        return;
      }
      match kind
      case Static => ok := AddToStatic(p, h);
      case Param => ok := AddToParam(p, h);
      case CatchAll => ok := false;
    }

    method AddToStatic(p: string, h: Handle) returns (ok: bool)
      requires Valid() && kind == Static && path != "" && p != ""
      modifies repr
      ensures Valid() && fresh(repr - old(repr))
      ensures Outcome(value, ok) == RouteTree.Add(old(value), p, h)
      decreases |p|, value, 3
    {
      var i := CommonPrefix(p, path);
      if i < |p| {
        if i == 0 && IsWild(p[0]) {
          ok := false;
        } else if i < |path| {
          Split(i, None);
          ok := Next(i, p, h);
          if !ok && children != [] { Combine(); }
        } else {
          ok := Next(i, p, h);
        }
      } else if i < |path| {
        Split(i, Some(h));
        ok := true;
      } else {
        ok := Register(h);
      }
    }

    method AddToParam(p: string, h: Handle) returns (ok: bool)
      requires Valid() && kind == Param && path != "" && p != ""
      modifies repr
      ensures Valid() && fresh(repr - old(repr))
      ensures Outcome(value, ok) == RouteTree.Add(old(value), p, h)
      decreases |p|, value, 3
    {
      var i := CommonPrefix(p, path);
      if i == |path| {
        if i < |p| { ok := Next(i, p, h); } else { ok := Register(h); }
      } else if i == |path| - 1 && path[|path|-1] == '/' {
        SplitSlash(h);
        ok := true;
      } else {
        ok := false;
      }
    }

    /** The node of an empty tree is filled; if that fails it is made empty again. */
    method AddToEmpty(p: string, h: Handle) returns (ok: bool)
      requires Valid() && path == "" && p != ""
      modifies this
      ensures Valid() && fresh(repr - old(repr))
      ensures Outcome(value, ok) == RouteTree.Add(old(value), p, h)
    {
      Reset();
      ok := Construct(p, h);
      if !ok { Reset(); }
    }

    method Reset()
      modifies this
      ensures Valid() && repr == {this} && value == EMPTY_NODE
    {
      path, maxParams, index, kind, priority, children, handle := "", 0, NO_INDEX, Static, 0, [], None;
      value, repr := EMPTY_NODE, {this};
    }

    method Register(h: Handle) returns (ok: bool)
      requires Valid()
      modifies this
      ensures Valid() && repr == old(repr) && Outcome(value, ok) == RouteTree.Register(old(value), h)
    {
      ok := handle == None;
      if ok {
        handle, priority := Some(h), priority + 1;
        value := RouteTree.Register(value, h).node;
      }
    }

    method SplitSlash(h: Handle)
      requires Valid() && |path| > 0
      modifies repr
      ensures Valid() && fresh(repr - old(repr)) && value == RouteTree.SplitSlash(old(value), h)
    {
      Split(|path| - 1, Some(h));
      if children != [] && children[0].handle == None && |children[0].children| == 1 {
        assert children[0].Valid();
        ConcatFirst();
      }
    }

    /** Joins the first child with its only child. */
    method ConcatFirst()
      requires Valid() && children != [] && |value.children[0].children| == 1
      modifies repr - {this}, this`value, this`repr
      ensures Valid() && repr == old(repr)
      ensures value == old(value).(children := [RouteTree.Concat(old(value).children[0])] + old(value).children[1..])
    {
      children[0].Concat();
      ghost var vs := value.children;
      Refresh(0);
      assert vs[0 := children[0].value] == [children[0].value] + vs[1..];
    }

    method Next(i: nat, p: string, h: Handle) returns (ok: bool)
      requires Valid() && i < |p|
      modifies repr
      ensures Valid() && fresh(repr - old(repr))
      ensures Outcome(value, ok) == RouteTree.Next(old(value), i, p, h)
      decreases |p| - i, value, 2
    {
      if children != [] && IsWild(p[i]) && children[0].kind == Static {
        ok := AddToChild(0, p[i..], h);
      } else {
        var k := ChildIndex(p[i]);
        if k < |children| {
          ok := AddBelow(k, p[i..], h);
        } else {
          ok := AddChild(p[i..], h);
        }
      }
    }

    method AddBelow(k: nat, p: string, h: Handle) returns (ok: bool)
      requires Valid() && k < |children|
      modifies repr
      ensures Valid() && fresh(repr - old(repr))
      ensures var r := RouteTree.Add(old(value).children[k], p, h);
        var cs := old(value).children[k := r.node];
        ok == r.ok && value == if ok then RouteTree.Grown(old(value), cs, r.node) else old(value).(children := cs)
      decreases |p|, value, 1
    {
      var child := children[k];
      ok := AddToChild(k, p, h);
      if ok { Grow(child.maxParams); }
    }

    /** A new child for `p`, if it is well-formed. */
    method AddChild(p: string, h: Handle) returns (ok: bool)
      requires Valid() && p != ""
      modifies this
      ensures Valid() && fresh(repr - old(repr))
      ensures ok <==> RouteTree.Construct(p, h).Some?
      ensures value ==
        if !ok then old(value)
        else var c := RouteTree.Construct(p, h).value; RouteTree.Grown(old(value), old(value).children + [c], c)
    {
      var child := new TreeNode();
      ok := child.Construct(p, h);
      if ok {
        GrownAppended(value, child.value);
        var params := child.maxParams;
        Append(child);
        Grow(params);
      }
    }

    static lemma GrownAppended(n: Node, c: Node)
      ensures var m := n.(children := n.children + [c]);
        RouteTree.Grown(n, n.children + [c], c) ==
          m.(children := RouteTree.Resort(m.children), priority := m.priority + 1,
             maxParams := Max(m.maxParams, if m.kind == Static then c.maxParams else c.maxParams + 1))
    {
    }

    method AddToChild(k: nat, p: string, h: Handle) returns (ok: bool)
      requires Valid() && k < |children|
      modifies repr
      ensures Valid() && fresh(repr - old(repr)) && children == old(children)
      ensures children[k].maxParams == children[k].value.maxParams
      ensures Outcome(children[k].value, ok) == RouteTree.Add(old(value).children[k], p, h)
      ensures value == old(value).(children := old(value).children[k := children[k].value])
      decreases |p|, value, 0
    {
      ok := children[k].Add(p, h);
      Refresh(k);
    }

    method Append(child: TreeNode)
      requires Valid() && child.Valid() && child.repr !! repr
      modifies this
      ensures Valid() && repr == old(repr) + child.repr
      ensures value == old(value).(children := old(value).children + [child.value])
    {
      children := children + [child];
      value := value.(children := value.children + [child.value]);
      repr := repr + child.repr;
    }

    /** A child whose `maxParams` is now `params` has gained a handle. */
    method Grow(params: nat)
      requires Valid()
      modifies this
      ensures Valid() && repr == old(repr)
      ensures value ==
        old(value).(children := RouteTree.Resort(old(value).children), priority := old(value).priority + 1,
                    maxParams := Max(old(value).maxParams, if old(value).kind == Static then params else params + 1))
    {
      Resort();
      var most := if kind == Static then params else params + 1;
      if most > maxParams { maxParams := most; }
      priority := priority + 1;
      value := value.(priority := priority, maxParams := maxParams);
    }

    // ----- remove

    method Remove(p: string) returns (ok: bool)
      requires Valid()
      modifies repr
      ensures Valid() && repr == old(repr)
      ensures Outcome(value, ok) == RouteTree.Remove(old(value), p)
      decreases value, 2
    {
      var i := CommonPrefix(path, p);
      if i == |path| && i == |p| {
        ok := Unregister();
      } else if i == |path| && i < |p| {
        ok := RemoveBelow(i, p);
      } else {
        ok := false;
      }
      if priority == 0 { Clear(); }
    }

    method Clear()
      requires Valid()
      modifies this
      ensures Valid() && repr == old(repr) && value == old(value).(path := "", index := NO_INDEX)
    {
      path, index := "", NO_INDEX;
      value := value.(path := "", index := NO_INDEX);
    }

    method Unregister() returns (ok: bool)
      requires Valid()
      modifies repr
      ensures Valid() && repr == old(repr) && Outcome(value, ok) == RouteTree.Unregister(old(value))
    {
      ok := handle.Some? && priority > 0;
      if ok {
        priority, handle := priority - 1, None;
        value := value.(priority := priority, handle := None);
        if |children| == 1 { Concat(); }
      }
    }

    method RemoveBelow(i: nat, p: string) returns (ok: bool)
      requires Valid() && i < |p|
      modifies repr
      ensures Valid() && repr == old(repr) && Outcome(value, ok) == RouteTree.RemoveBelow(old(value), i, p)
      decreases value, 1
    {
      var k := HeadIndex(p[i]);
      if k == |children| { return false; }
      ok := RemoveFromChild(k, p[i..]);
      ok := ok && priority > 0;
      if ok {
        ShrunkUpdated(old(value), k, children[k].value);
        Shrink(k);
      }
    }

    static lemma ShrunkUpdated(n: Node, k: nat, c: Node)
      requires k < |n.children| && n.priority > 0
      ensures RouteTree.Shrunk(n.(children := n.children[k := c]), k, c) == RouteTree.Shrunk(n, k, c)
    {
      var cs := n.children[k := c];
      assert cs[k := c] == cs;
      assert cs[..k] + cs[k+1..] == n.children[..k] + n.children[k+1..];
    }

    method RemoveFromChild(k: nat, p: string) returns (ok: bool)
      requires Valid() && k < |children|
      modifies repr
      ensures Valid() && repr == old(repr) && children == old(children)
      ensures Outcome(children[k].value, ok) == RouteTree.Remove(old(value).children[k], p)
      ensures value == old(value).(children := old(value).children[k := children[k].value])
      decreases value, 0
    {
      ok := children[k].Remove(p);
      Refresh(k);
    }

    /** Child `k` has lost a handle. */
    method Shrink(k: nat)
      requires Valid() && k < |children| && priority > 0
      modifies repr
      ensures Valid() && repr == old(repr)
      ensures value == RouteTree.Shrunk(old(value), k, old(value).children[k])
    {
      ghost var v := value;
      assert v.children[k := v.children[k]] == v.children;
      if children[k].priority == 0 { Drop(k); }
      Recount();
      if |children| == 1 && handle == None { Concat(); }
    }

    method Drop(k: nat)
      requires Valid() && k < |children|
      modifies this
      ensures Valid() && repr == old(repr)
      ensures value == old(value).(children := old(value).children[..k] + old(value).children[k+1..])
    {
      children := children[..k] + children[k+1..];
      value := value.(children := value.children[..k] + value.children[k+1..]);
    }

    method Recount()
      requires Valid() && priority > 0
      modifies this
      ensures Valid() && repr == old(repr) && value == RouteTree.Reduced(old(value), old(value).children)
    {
      var most := LargestMaxParams();
      priority, maxParams := priority - 1, if kind == Static then most else most + 1;
      value := value.(priority := priority, maxParams := maxParams);
      Resort();
    }

    // ----- get

    /** The value of a possibly absent parent. */
    static ghost function ValueOf(n: TreeNode?): Option<Node>
      reads n
    {
      if n == null then None else Some(n.value)
    }

    method Get(p: string, advise: bool) returns (answer: Answer)
      requires Valid()
      ensures answer == RouteTree.Get(value, p, advise)
      ensures !advise || answer.handle.Some? ==> answer.redirect == NotRedirect
    {
      var parent, n, rest, i, h, bindings := Descend(p);
      var redirect := NotRedirect;
      if h == None && advise { redirect := n.CanRedirect(parent, rest, i, bindings); }
      answer := Answer(h, bindings, redirect);
    }

    /** The loop of `get`: goes down the tree as far as the request leads. */
    method Descend(p: string)
      returns (parent: TreeNode?, n: TreeNode, rest: string, i: nat, h: Option<Handle>, bindings: seq<Binding>)
      requires Valid()
      ensures n.Valid() && (parent != null ==> parent.FieldsMatch())
      ensures Stop(ValueOf(parent), n.value, rest, i, h, bindings) == Walk(None, value, p, [])
    {
      parent, n, rest, i, h, bindings := null, this, p, 0, None, [];
      while rest != ""
        invariant n.Valid() && (parent != null ==> parent.FieldsMatch())
        invariant h == None && Walk(ValueOf(parent), n.value, rest, bindings) == Walk(None, value, p, [])
        invariant rest == "" ==> i == 0
        decreases n.value
      {
        var stuck, bs;
        i, bs, stuck := n.Advance(rest);
        if stuck { break; }
        bindings := bindings + bs;
        if n.kind != Static || i == |n.path| {
          if i < |rest| {
            var child := n.Child(rest[i]);
            if child != null {
              parent, n, rest, i := n, child, rest[i..], 0;
              continue;
            }
          } else {
            h := n.handle;
          }
        }
        break;
      }
    }

    /** The child to descend to for `b`, if there is one. */
    method Child(b: char) returns (child: TreeNode?)
      requires Valid()
      ensures var k := RouteTree.ChildIndex(value.children, b);
        if k == |value.children| then child == null
        else child != null && child.Valid() && child.value == value.children[k]
    {
      var k := ChildIndex(b);
      if k < |children| { child := children[k]; } else { child := null; }
    }

    /** How far the node itself goes in the request; `stuck` at a parameter that lacks its '/'. */
    method Advance(rest: string) returns (i: nat, bs: seq<Binding>, stuck: bool)
      requires Valid() && rest != ""
      ensures stuck <==> value.kind == Param && LastChar(value.path) == '/' && SegEnd(rest) == |rest|
      ensures if stuck then i == |rest| else (i, bs) == Consume(value, rest)
    {
      bs, stuck := [], false;
      match kind
      case Static =>
        i := CommonPrefix(path, rest);
      case Param =>
        i := SegmentEnd(rest);
        if i > 0 && path != "" {
          if path[|path|-1] == '/' {
            if i == |rest| { return i, [], true; }
            if |path| > 1 {
              bs := [Binding(path[1..|path|-1], rest[..i])];
              i := i + 1;
            } else {
              bs := [Binding(path[1..], rest[..i])];
            }
          } else {
            bs := [Binding(path[1..], rest[..i])];
          }
        }
      case CatchAll =>
        if path != "" { bs := [Binding(path[1..], rest)]; }
        i := |rest|;
    }

    method CanRedirect(parent: TreeNode?, rest: string, i: nat, ghost bs: seq<Binding>) returns (r: Redirect)
      requires Valid() && (parent != null ==> parent.FieldsMatch())
      ensures r == Advice(Stop(ValueOf(parent), value, rest, i, None, bs))
    {
      var parentHandled := parent != null && parent.handle.Some?;
      var slashChild := HasSlashChild();
      if rest == "" || rest[|rest|-1] != '/' {
        match kind {
          case Static =>
            if (handle.Some? && i == |rest| && i == |path| - 1 && path[i] == '/') ||
              (i == |path| && slashChild) { return AddSlash; }
          case Param =>
            if (handle.Some? && path != "" && path[|path|-1] == '/') || slashChild { return AddSlash; }
          case CatchAll =>
        }
      } else {
        match kind {
          case Static =>
            if i < |rest| && i == |rest| - 1 {
              if (i == |path| && handle.Some?) || (i == 0 && parentHandled) { return RemoveSlash; }
            } else if rest == "/" && parentHandled {
              return RemoveSlash;
            }
          case Param =>
            if i == |rest| - 1 && handle.Some? { return RemoveSlash; }
          case CatchAll =>
        }
      }
      r := NotRedirect;
    }

    method HasSlashChild() returns (found: bool)
      requires Valid()
      ensures found == RouteTree.HasSlashChild(value)
    {
      for k := 0 to |children|
        invariant forall j :: 0 <= j < k ==> !(value.children[j].path == "/" && value.children[j].handle.Some?)
      {
        assert children[k].Valid();
        if children[k].path == "/" && children[k].handle.Some? {
          assert value.children[k].path == "/";
          return true;
        }
      }
      found := false;
    }
  }

  method SegmentEnd(s: string) returns (i: nat)
    ensures i == SegEnd(s)
  {
    i := 0;
    while i < |s| && s[i] != '/'
      invariant i <= |s| && SegEnd(s) == i + SegEnd(s[i..])
    {
      assert s[i..][1..] == s[i+1..];
      i := i + 1;
    }
  }

  method CommonPrefix(a: string, b: string) returns (i: nat)
    ensures i == Lcp(a, b)
  {
    i := 0;
    while i < |a| && i < |b| && a[i] == b[i]
      invariant i <= |a| && i <= |b|
      invariant Lcp(a, b) == i + Lcp(a[i..], b[i..])
    {
      assert a[i..][1..] == a[i+1..] && b[i..][1..] == b[i+1..];
      i := i + 1;
    }
  }
}
