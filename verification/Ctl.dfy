/** Resolution of mallctl names and MIBs (jemalloc/src/ctl.c): dotted names are looked up
    element by element in an immutable tree, leaving a MIB of positions that can be looked
    up again. */
module Ctl {
  import opened Options

  const UINTMAX: nat := 0xffff_ffff_ffff_ffff

  type Node = nat

  datatype Children = Named(nodes: seq<Node>) | Indexed

  /** A node is terminal when it has a control function. */
  datatype Info = Info(name: string, terminal: bool, children: Children)

  /** The static tree, its index functions (which consult nothing but the index) and the
      reading of an element as a number. */
  datatype Tree = Tree(nodes: seq<Info>, index: (Node, nat) -> Option<Node>, number: string -> nat)

  ghost predicate Valid(t: Tree) {
    && |t.nodes| > 0
    && (forall n :: 0 <= n < |t.nodes| ==> ValidChildren(t, n))
    && (forall n: nat, i: nat :: n < |t.nodes| ==>
          match t.index(n, i) case Some(c) => c < |t.nodes| case None => true)
    && t.number("") == UINTMAX
  }

  /** Only children found by name must have one: the root and the nodes index functions
      answer are nameless. */
  ghost predicate ValidChildren(t: Tree, n: Node)
    requires n < |t.nodes|
  {
    t.nodes[n].children.Named? ==>
      var cs := t.nodes[n].children.nodes;
      && (!t.nodes[n].terminal ==> |cs| > 0)
      && forall j :: 0 <= j < |cs| ==> cs[j] < |t.nodes| && cs[j] != n && t.nodes[cs[j]].name != ""
  }

  // ----- what a name and a MIB denote

  /** The end of the first element of a name. */
  function Dot(s: string): (d: nat)
    ensures d <= |s| && (d < |s| ==> s[d] == '.') && forall k :: 0 <= k < d ==> s[k] != '.'
  {
    if s == "" || s[0] == '.' then 0 else 1 + Dot(s[1..])
  }

  /** The first child from j on that has a name. */
  function ChildNamed(t: Tree, cs: seq<Node>, elem: string, j: nat): (r: nat)
    requires j <= |cs| && forall k :: 0 <= k < |cs| ==> cs[k] < |t.nodes|
    ensures j <= r <= |cs| && (r < |cs| ==> t.nodes[cs[r]].name == elem)
    ensures forall k :: j <= k < r ==> t.nodes[cs[k]].name != elem
    decreases |cs| - j
  {
    if j == |cs| || t.nodes[cs[j]].name == elem then j else ChildNamed(t, cs, elem, j + 1)
  }

  /** The position an element selects below a node. */
  function Position(t: Tree, n: Node, elem: string): Option<nat>
    requires Valid(t) && n < |t.nodes|
  {
    assert ValidChildren(t, n);
    match t.nodes[n].children
    case Named(cs) =>
      var j := ChildNamed(t, cs, elem, 0);
      if j < |cs| then Some(j) else None
    case Indexed => if t.number(elem) >= UINTMAX then None else Some(t.number(elem))
  }

  function ChildAt(t: Tree, n: Node, i: nat): (c: Option<Node>)
    requires Valid(t) && n < |t.nodes|
    ensures c.Some? ==> c.value < |t.nodes|
  {
    assert ValidChildren(t, n);
    match t.nodes[n].children
    case Named(cs) => if i < |cs| then Some(cs[i]) else None
    case Indexed => t.index(n, i)
  }

  /** The position an element selects and the child there. */
  function Next(t: Tree, n: Node, elem: string): (r: Option<(nat, Node)>)
    requires Valid(t) && n < |t.nodes|
    ensures r.Some? ==> r.value.1 < |t.nodes| && ChildAt(t, n, r.value.0) == Some(r.value.1)
  {
    var i := Position(t, n, elem);
    if i.None? then None
    else
      var c := ChildAt(t, n, i.value);
      if c.None? then None else Some((i.value, c.value))
  }

  datatype Outcome = NotFound | Found(node: Node, mib: seq<nat>)

  function Under(mib: seq<nat>, o: Outcome): Outcome {
    if o.Found? then Found(o.node, mib + o.mib) else NotFound
  }

  /** What a name denotes below a node, descending no further than the depth. */
  function Resolve(t: Tree, n: Node, s: string, depth: nat): (o: Outcome)
    requires Valid(t) && n < |t.nodes|
    ensures o.Found? ==> o.node < |t.nodes| && |o.mib| <= depth
    decreases depth
  {
    if depth == 0 then Found(n, [])
    else
      var dot := Dot(s);
      match Next(t, n, s[..dot])
      case None => NotFound
      case Some((i, c)) =>
        if t.nodes[c].terminal || dot == |s| then
          if dot != |s| then NotFound else Found(c, [i])
        else Under([i], Resolve(t, c, s[dot + 1..], depth - 1))
  }

  function ByName(t: Tree, n: Node, s: string, depth: nat): Outcome
    requires Valid(t) && n < |t.nodes|
  {
    if Dot(s) == 0 then NotFound else Resolve(t, n, s, depth)
  }

  /** No terminal node is reached before the MIB ends. */
  ghost predicate Descends(t: Tree, n: Node, mib: seq<nat>)
    requires Valid(t) && n < |t.nodes|
    decreases |mib|
  {
    mib != [] ==>
      && !t.nodes[n].terminal
      && var c := ChildAt(t, n, mib[0]);
         c.Some? ==> Descends(t, c.value, mib[1..])
  }

  /** The node at the end of a MIB. */
  function ByMib(t: Tree, n: Node, mib: seq<nat>): (c: Option<Node>)
    requires Valid(t) && n < |t.nodes|
    ensures c.Some? ==> c.value < |t.nodes|
    decreases |mib|
  {
    if mib == [] then Some(n)
    else
      var c := ChildAt(t, n, mib[0]);
      if c.None? then None else ByMib(t, c.value, mib[1..])
  }

  /** The node a name denotes is the node its MIB denotes. */
  lemma {:induction false} ResolveThenByMib(t: Tree, n: Node, s: string, depth: nat)
    requires Valid(t) && n < |t.nodes| && (depth > 0 ==> !t.nodes[n].terminal)
    ensures var o := Resolve(t, n, s, depth);
            o.Found? ==> |o.mib| <= depth && Descends(t, n, o.mib) && ByMib(t, n, o.mib) == Some(o.node)
    decreases depth
  {
    hide Next, ChildAt, Valid;
    var o, dot := Resolve(t, n, s, depth), Dot(s);
    if o.Found? && depth > 0 {
      var (i, c) := Next(t, n, s[..dot]).value;
      if !t.nodes[c].terminal && dot < |s| {
        ResolveThenByMib(t, c, s[dot + 1..], depth - 1);
        assert o.mib[1..] == Resolve(t, c, s[dot + 1..], depth - 1).mib;
      } else {
        assert o.mib[1..] == [];
      }
    }
  }

  /** Looking up a name and then the MIB it left reaches the same node. */
  lemma NameThenMib(t: Tree, name: string, depth: nat)
    requires Valid(t) && !t.nodes[0].terminal
    ensures var o := ByName(t, 0, name, depth);
            o.Found? ==> |o.mib| <= depth && Descends(t, 0, o.mib) && ByMib(t, 0, o.mib) == Some(o.node)
  {
    ResolveThenByMib(t, 0, name, depth);
  }

  // ----- a prefix and then the rest

  /** Looking up the rest of a name below the node of a MIB. */
  function ByMibName(t: Tree, mib: seq<nat>, name: string, depth: nat): Outcome
    requires Valid(t) && |mib| <= depth
  {
    var n := ByMib(t, 0, mib);
    if n.None? || t.nodes[n.value].terminal then NotFound
    else Under(mib, ByName(t, n.value, name, depth - |mib|))
  }

  lemma {:induction false} DotOfJoin(p: string, q: string)
    ensures Dot(p + "." + q) == Dot(p)
    decreases |p|
  {
    var s := p + "." + q;
    if p != "" && p[0] != '.' {
      assert s[1..] == p[1..] + "." + q;
      DotOfJoin(p[1..], q);
    }
  }

  /** A rest that begins with an empty element is not found, unless the depth is used up. */
  lemma EmptyElement(t: Tree, n: Node, q: string, depth: nat)
    requires Valid(t) && n < |t.nodes| && Dot(q) == 0 && depth > 0
    ensures Resolve(t, n, q, depth) == NotFound
  {
    assert ValidChildren(t, n);
    assert q[..0] == "";
  }

  /** Going on with the rest of a name from where a prefix ended. */
  function Then(t: Tree, o: Outcome, q: string, depth: nat): Outcome
    requires Valid(t) && (o.Found? ==> o.node < |t.nodes| && |o.mib| <= depth)
  {
    if o.NotFound? || t.nodes[o.node].terminal then NotFound
    else Under(o.mib, Resolve(t, o.node, q, depth - |o.mib|))
  }

  lemma ThenUnder(t: Tree, i: nat, o: Outcome, q: string, depth: nat)
    requires Valid(t) && depth > 0 && (o.Found? ==> o.node < |t.nodes| && |o.mib| <= depth - 1)
    ensures Under([i], Then(t, o, q, depth - 1)) == Then(t, Under([i], o), q, depth)
  {
  }

  lemma ResolveIs(t: Tree, n: Node, s: string, depth: nat)
    requires Valid(t) && n < |t.nodes| && depth > 0
    ensures var dot := Dot(s);
            Resolve(t, n, s, depth) ==
            match Next(t, n, s[..dot])
            case None => NotFound
            case Some((i, c)) =>
              if t.nodes[c].terminal || dot == |s| then
                if dot != |s| then NotFound else Found(c, [i])
              else Under([i], Resolve(t, c, s[dot + 1..], depth - 1))
  {
  }

  /** The whole name against its prefix, from any node and with any depth. */
  lemma {:induction false} ResolveJoin(t: Tree, n: Node, p: string, q: string, depth: nat)
    requires Valid(t) && n < |t.nodes| && (depth == 0 ==> !t.nodes[n].terminal)
    ensures Resolve(t, n, p + "." + q, depth) == Then(t, Resolve(t, n, p, depth), q, depth)
    decreases depth
  {
    hide Resolve, Next, Valid, Dot;
    var s, dot := p + "." + q, Dot(p);
    if depth == 0 {
      NoDepth(t, n, p);
      NoDepth(t, n, q);
      NoDepth(t, n, s);
      return;
    }
    DotOfJoin(p, q);
    assert s[..dot] == p[..dot];
    ResolveIs(t, n, p, depth);
    ResolveIs(t, n, s, depth);
    var next := Next(t, n, p[..dot]);
    if next.Some? {
      var (i, c) := next.value;
      if !t.nodes[c].terminal {
        if dot < |p| {
          assert s[dot + 1..] == p[dot + 1..] + "." + q;
          ResolveJoin(t, c, p[dot + 1..], q, depth - 1);
          ThenUnder(t, i, Resolve(t, c, p[dot + 1..], depth - 1), q, depth);
        } else {
          assert s[dot + 1..] == q;
        }
      }
    }
  }

  /** Resolving a prefix to a MIB and the rest of the name below it is resolving the whole
      name, also where the depth cuts the prefix short; the one exception is a rest that
      begins with an empty element when the prefix has used the depth up. */
  lemma PrefixThenRest(t: Tree, p: string, q: string, depth: nat)
    requires Valid(t) && !t.nodes[0].terminal
    ensures var o, whole := ByName(t, 0, p, depth), ByName(t, 0, p + "." + q, depth);
            && (o.NotFound? ==> whole.NotFound?)
            && (o.Found? ==>
                  |o.mib| <= depth &&
                  (ByMibName(t, o.mib, q, depth) == whole <==>
                     !(Dot(q) == 0 && |o.mib| == depth && !t.nodes[o.node].terminal)))
  {
    assert |t.nodes| > 0;
    hide Resolve, Valid, Dot, ByMib, Descends, ByMibName, Then;
    DotOfJoin(p, q);
    var o := ByName(t, 0, p, depth);
    NameThenMib(t, p, depth);
    ResolveJoin(t, 0, p, q, depth);
    if o.Found? {
      RestBelow(t, o, q, depth);
    } else {
      NothingBelow(t, q, depth);
    }
  }

  lemma NothingBelow(t: Tree, q: string, depth: nat)
    requires Valid(t)
    ensures Then(t, NotFound, q, depth) == NotFound
  {
  }

  lemma RestBelow(t: Tree, o: Outcome, q: string, depth: nat)
    requires Valid(t) && o.Found? && o.node < |t.nodes| && |o.mib| <= depth && ByMib(t, 0, o.mib) == Some(o.node)
    ensures ByMibName(t, o.mib, q, depth) == Then(t, o, q, depth)
            <==> !(Dot(q) == 0 && |o.mib| == depth && !t.nodes[o.node].terminal)
  {
    hide Resolve, Valid, Dot, ByMib;
    if Dot(q) == 0 {
      if |o.mib| < depth {
        EmptyElement(t, o.node, q, depth - |o.mib|);
      } else {
        NoDepth(t, o.node, q);
      }
    }
  }

  lemma NoDepth(t: Tree, n: Node, q: string)
    requires Valid(t) && n < |t.nodes|
    ensures Resolve(t, n, q, 0) == Found(n, [])
  {
  }

  // ----- names and the paths they spell

  /** An element selects a child at a position: the first with that name, or the one an index
      function answers for the number the element stands for. */
  ghost predicate Selects(t: Tree, n: Node, elem: string, i: nat, c: Node)
    requires n < |t.nodes|
  {
    match t.nodes[n].children
    case Named(cs) =>
      && i < |cs| && cs[i] == c < |t.nodes| && t.nodes[c].name == elem
      && forall k :: 0 <= k < i ==> cs[k] < |t.nodes| && t.nodes[cs[k]].name != elem
    case Indexed => t.number(elem) == i < UINTMAX && t.index(n, i) == Some(c) && c < |t.nodes|
  }

  /** A way down the tree, element by element, with no terminal node on it before its end. */
  ghost predicate IsPath(t: Tree, path: seq<Node>, elems: seq<string>, mib: seq<nat>) {
    && |path| == |mib| + 1 && |elems| == |mib|
    && (forall k :: 0 <= k < |path| ==> path[k] < |t.nodes|)
    && (forall k :: 0 <= k < |mib| ==> Selects(t, path[k], elems[k], mib[k], path[k + 1]) && '.' !in elems[k])
    && forall k :: 0 < k < |mib| ==> !t.nodes[path[k]].terminal
  }

  function Join(elems: seq<string>): string
    requires elems != []
  {
    if |elems| == 1 then elems[0] else elems[0] + "." + Join(elems[1..])
  }

  lemma JoinCons(elem: string, elems: seq<string>)
    requires elems != []
    ensures Join([elem] + elems) == elem + "." + Join(elems)
  {
    assert ([elem] + elems)[1..] == elems;
  }

  lemma NextIff(t: Tree, n: Node, elem: string, i: nat, c: Node)
    requires Valid(t) && n < |t.nodes|
    ensures Next(t, n, elem) == Some((i, c)) <==> Selects(t, n, elem, i, c)
  {
    assert ValidChildren(t, n);
  }

  lemma {:induction false} DotAtEnd(s: string)
    requires '.' !in s
    ensures Dot(s) == |s|
  {
    assert forall k :: 0 <= k < |s| ==> s[k] in s;
  }

  lemma DotOfName(elems: seq<string>)
    requires elems != [] && '.' !in elems[0]
    ensures Dot(Join(elems)) == |elems[0]|
    ensures Join(elems)[..|elems[0]|] == elems[0]
    ensures |Join(elems)| == |elems[0]| <==> |elems| == 1
    ensures |elems| > 1 ==> Join(elems)[|elems[0]| + 1..] == Join(elems[1..])
  {
    DotAtEnd(elems[0]);
    if |elems| > 1 { DotOfJoin(elems[0], Join(elems[1..])); }
  }

  lemma PathTail(t: Tree, path: seq<Node>, elems: seq<string>, mib: seq<nat>)
    requires IsPath(t, path, elems, mib) && 0 < |mib|
    ensures |path| == |mib| + 1 && |elems| == |mib|
    ensures path[0] < |t.nodes| && path[1] < |t.nodes| && Selects(t, path[0], elems[0], mib[0], path[1]) && '.' !in elems[0]
    ensures IsPath(t, path[1..], elems[1..], mib[1..]) && (|mib| > 1 ==> !t.nodes[path[1]].terminal)
  {
    hide Selects;
  }

  lemma PathCons(t: Tree, n: Node, elem: string, i: nat, path: seq<Node>, elems: seq<string>, mib: seq<nat>)
    requires IsPath(t, path, elems, mib) && n < |t.nodes| && Selects(t, n, elem, i, path[0]) && '.' !in elem
    requires mib != [] ==> !t.nodes[path[0]].terminal
    ensures IsPath(t, [n] + path, [elem] + elems, [i] + mib)
  {
    hide Selects;
  }

  lemma PathEnd(t: Tree, n: Node)
    requires n < |t.nodes|
    ensures IsPath(t, [n], [], [])
  {
  }

  /** The name that spells a way down denotes its end and its MIB. */
  lemma {:induction false} SpelledResolves(t: Tree, path: seq<Node>, elems: seq<string>, mib: seq<nat>, depth: nat)
    requires Valid(t) && IsPath(t, path, elems, mib) && 0 < |mib| <= depth
    ensures Resolve(t, path[0], Join(elems), depth) == Found(path[|mib|], mib)
    decreases |mib|
  {
    hide Valid, Next, Selects, Dot, Join, IsPath, Resolve;
    PathTail(t, path, elems, mib);
    DotOfName(elems);
    NextIff(t, path[0], elems[0], mib[0], path[1]);
    ResolveIs(t, path[0], Join(elems), depth);
    if |mib| == 1 {
      assert mib == [mib[0]];
    } else {
      assert mib == [mib[0]] + mib[1..];
      SpelledResolves(t, path[1..], elems[1..], mib[1..], depth - 1);
    }
  }

  /** What a name denotes is the end of a way down that the name spells, as far as the depth
      goes. */
  lemma {:induction false} ResolvedIsSpelled(t: Tree, n: Node, s: string, depth: nat)
    returns (path: seq<Node>, elems: seq<string>, rest: string)
    requires Valid(t) && n < |t.nodes| && depth > 0 && Resolve(t, n, s, depth).Found?
    ensures var o := Resolve(t, n, s, depth);
            && IsPath(t, path, elems, o.mib) && |elems| == |o.mib| && |path| == |o.mib| + 1 && path[0] == n && path[|o.mib|] == o.node
            && 0 < |o.mib| && s == Join(elems) + rest
            && (rest != "" ==> rest[0] == '.' && |o.mib| == depth && !t.nodes[o.node].terminal)
    decreases depth
  {
    hide Valid, Next, Selects, IsPath, Resolve;
    ResolveIs(t, n, s, depth);
    var dot := Dot(s);
    var elem := s[..dot];
    var (i, c) := Next(t, n, elem).value;
    NextIff(t, n, elem, i, c);
    if t.nodes[c].terminal || dot == |s| || depth == 1 {
      NoDepth(t, c, s[if dot < |s| then dot + 1 else dot..]);
      path, elems, rest := [n, c], [elem], s[dot..];
      PathEnd(t, c);
      PathCons(t, n, elem, i, [c], [], []);
      assert path == [n] + [c] && elems == [elem] + [] && [i] == [i] + [];
    } else {
      var p, e, r := ResolvedIsSpelled(t, c, s[dot + 1..], depth - 1);
      path, elems, rest := [n] + p, [elem] + e, r;
      PathCons(t, n, elem, i, p, e, Resolve(t, c, s[dot + 1..], depth - 1).mib);
      JoinCons(elem, e);
      assert s == elem + "." + s[dot + 1..];
    }
  }

  // ----- the lookups themselves

  /** The search of ctl_lookup among named children. */
  method FindChild(t: Tree, n: Node, elem: string) returns (node: Node, j: nat)
    requires Valid(t) && n < |t.nodes| && t.nodes[n].children.Named?
    ensures node == n <==> Position(t, n, elem).None?
    ensures node != n ==> Position(t, n, elem) == Some(j) && ChildAt(t, n, j) == Some(node)
    ensures var cs := t.nodes[n].children.nodes;
            && j <= |cs| && (forall k :: 0 <= k < j ==> cs[k] < |t.nodes| && t.nodes[cs[k]].name != elem)
            && (node == n <==> j == |cs|)
            && (node != n ==> node == cs[j] < |t.nodes| && t.nodes[node].name == elem)
  {
    assert ValidChildren(t, n);
    var cs := t.nodes[n].children.nodes;
    node, j := n, 0;
    while j < |cs|
      invariant j <= |cs| && node == n && ChildNamed(t, cs, elem, 0) == ChildNamed(t, cs, elem, j)
      invariant forall k :: 0 <= k < j ==> t.nodes[cs[k]].name != elem
    {
      if |t.nodes[cs[j]].name| == |elem| && t.nodes[cs[j]].name == elem {
        node := cs[j];
        break;
      }
      j := j + 1;
    }
  }

  /** One step of a lookup by name: the position an element selects, and the child there. */
  method Step(t: Tree, n: Node, elem: string) returns (r: Option<(nat, Node)>)
    requires Valid(t) && n < |t.nodes|
    ensures r == Next(t, n, elem)
    ensures r.Some? ==> Selects(t, n, elem, r.value.0, r.value.1)
    ensures r.None? ==> forall i, c :: !Selects(t, n, elem, i, c)
  {
    hide Valid;
    if t.nodes[n].children.Named? {
      var node, j := FindChild(t, n, elem);
      if node == n {
        return None;
      }
      r := Some((j, node));
    } else {
      var index := t.number(elem);
      if index >= UINTMAX {
        return None;
      }
      var node := t.index(n, index);
      if node.None? {
        return None;
      }
      r := Some((index, node.value));
    }
  }

  /** ctl_lookup: fills a MIB from an offset on, and answers the node and how much of the
      MIB was filled. */
  method Lookup(t: Tree, start: Node, name: string, mib: array<nat>, offset: nat, depth: nat)
    returns (r: Option<(Node, nat)>)
    requires Valid(t) && start < |t.nodes| && offset + depth <= mib.Length
    modifies mib
    ensures r.None? <==> ByName(t, start, name, depth).NotFound?
    ensures r.Some? ==>
      r.value.1 <= depth && ByName(t, start, name, depth) == Found(r.value.0, mib[offset..offset + r.value.1])
    ensures forall k :: 0 <= k < mib.Length && !(offset <= k < offset + depth) ==> mib[k] == old(mib[k])
  {
    hide Valid, Next, Resolve, Dot;
    var elm, dot := 0, Dot(name);
    if dot == elm {
      return None;
    }
    var node: Node := start;
    var i := 0;
    assert name[0..] == name;
    ghost var m: seq<nat> := [];
    while i < depth
      invariant i == |m| <= depth && elm <= dot <= |name| && node < |t.nodes| && dot == elm + Dot(name[elm..])
      invariant m == mib[offset..offset + i]
      invariant Resolve(t, start, name, depth) == Under(m, Resolve(t, node, name[elm..], depth - i))
      invariant forall k :: 0 <= k < mib.Length && !(offset <= k < offset + depth) ==> mib[k] == old(mib[k])
    {
      ResolveStep(t, node, name, elm, depth - i);
      var step := Step(t, node, name[elm..dot]);
      if step.None? {
        return None;
      }
      var (at, child) := step.value;
      mib[offset + i] := at;
      UnderUnder(m, at, Resolve(t, child, name[if dot < |name| then dot + 1 else dot..], depth - i - 1));
      m := m + [at];
      assert m == mib[offset..offset + i + 1];
      if t.nodes[child].terminal || dot == |name| {
        if dot != |name| {
          return None;
        }
        return Some((child, i + 1));
      }
      node := child;
      elm := dot + 1;
      dot := elm + Dot(name[elm..]);
      i := i + 1;
    }
    NoDepth(t, node, name[elm..]);
    r := Some((node, i));
  }

  lemma ResolveStep(t: Tree, n: Node, name: string, elm: nat, depth: nat)
    requires Valid(t) && n < |t.nodes| && elm <= |name| && depth > 0
    ensures var dot := elm + Dot(name[elm..]);
            Resolve(t, n, name[elm..], depth) ==
            match Next(t, n, name[elm..dot])
            case None => NotFound
            case Some((i, c)) =>
              if t.nodes[c].terminal || dot == |name| then
                if dot != |name| then NotFound else Found(c, [i])
              else Under([i], Resolve(t, c, name[dot + 1..], depth - 1))
  {
    hide Valid, Next, Dot;
    var dot := Dot(name[elm..]);
    assert name[elm..][..dot] == name[elm..elm + dot];
    assert elm + dot < |name| ==> name[elm..][dot + 1..] == name[elm + dot + 1..];
  }

  lemma UnderUnder(mib: seq<nat>, i: nat, o: Outcome)
    ensures Under(mib, Under([i], o)) == Under(mib + [i], o)
  {
  }

  /** ctl_lookupbymib. */
  method LookupByMib(t: Tree, mib: array<nat>, miblen: nat) returns (r: Option<Node>)
    requires Valid(t) && miblen <= mib.Length && Descends(t, 0, mib[..miblen])
    ensures r == ByMib(t, 0, mib[..miblen])
  {
    var node: Node := 0;
    for i := 0 to miblen
      invariant node < |t.nodes| && Descends(t, node, mib[i..miblen])
      invariant ByMib(t, 0, mib[..miblen]) == ByMib(t, node, mib[i..miblen])
    {
      assert mib[i..miblen][1..] == mib[i + 1..miblen];
      assert ValidChildren(t, node);
      match t.nodes[node].children {
        case Named(cs) =>
          if |cs| <= mib[i] {
            return None;
          }
          node := cs[mib[i]];
        case Indexed =>
          var child := t.index(node, mib[i]);
          if child.None? {
            return None;
          }
          node := child.value;
      }
    }
    r := Some(node);
  }

  lemma TwoParts(mib: array<nat>, i: nat, j: nat)
    requires i <= j <= mib.Length
    ensures mib[..j] == mib[..i] + mib[i..j]
  {
  }

  /** ctl_mibnametomib: extends a MIB in place by the rest of a name. */
  method MibNameToMib(t: Tree, mib: array<nat>, miblen: nat, name: string, depth: nat) returns (r: Option<(Node, nat)>)
    requires Valid(t) && miblen <= depth <= mib.Length && Descends(t, 0, mib[..miblen])
    modifies mib
    ensures r.None? <==> ByMibName(t, old(mib[..miblen]), name, depth).NotFound?
    ensures r.Some? ==>
      miblen <= r.value.1 <= depth && ByMibName(t, old(mib[..miblen]), name, depth) == Found(r.value.0, mib[..r.value.1])
    ensures mib[..miblen] == old(mib[..miblen])
  {
    hide Valid, Resolve, ByMib, Dot;
    var node := LookupByMib(t, mib, miblen);
    if node.None? || t.nodes[node.value].terminal {
      return None;
    }
    var rest := Lookup(t, node.value, name, mib, miblen, depth - miblen);
    assert mib[..miblen] == old(mib[..miblen]);
    if rest.None? {
      return None;
    }
    var (end, filled) := rest.value;
    TwoParts(mib, miblen, miblen + filled);
    r := Some((end, miblen + filled));
  }
}
