/** The path-compressed segment trie (src/Foundation/Node.php). Besides literal
    children and one wildcard child, a node may hold a compact tail: the rest of a
    pattern stored in one string, split into a child the next time insert() walks
    through the node.

    As for the plain trie, the nodes live in one table owned by the trie, a node's
    identity is its index and node 0 is the root. */
module Node {
  import opened Wrappers
  import opened PhpString
  import opened RouteUtility
  import opened RouteDefinition
  import opened TrieMatch

  datatype CNode = CNode(route: RouteDefinition?, children: map<string, nat>, wildcard: Option<nat>,
                         compact: string)

  const EmptyNode: CNode := CNode(null, map[], None, "")

  predicate LinksBelow(n: CNode, bound: nat) {
    (forall s :: s in n.children ==> n.children[s] < bound)
    && (n.wildcard.Some? ==> n.wildcard.value < bound)
  }

  /** Every child and wildcard reference points into the table, which has a root. */
  predicate WellFormed(nodes: seq<CNode>) {
    |nodes| > 0 && forall i :: 0 <= i < |nodes| ==> LinksBelow(nodes[i], |nodes|)
  }

  /** The table with node `cur` replaced and one node added at the end. */
  function Attach(nodes: seq<CNode>, cur: nat, updated: CNode, added: CNode): (r: seq<CNode>)
    requires WellFormed(nodes) && cur < |nodes|
    requires LinksBelow(updated, |nodes| + 1) && LinksBelow(added, |nodes| + 1)
    ensures WellFormed(r) && |r| == |nodes| + 1
    ensures r[cur] == updated && r[|nodes|] == added
    ensures forall i :: 0 <= i < |nodes| && i != cur ==> r[i] == nodes[i]
  {
    var r := nodes[cur := updated] + [added];
    forall i | 0 <= i < |r| ensures LinksBelow(r[i], |r|) {
      if i < |nodes| && i != cur { assert r[i] == nodes[i]; }
    }
    r
  }

  // ---------------------------------------------------------------------------
  // insert()

  /** The split at the head of each insert() step: a node with a compact tail hands
      its route, children, wildcard and the tail minus its first segment to a new
      child, which it keeps as its only child under that first segment. */
  function Unpack(nodes: seq<CNode>, cur: nat): (r: seq<CNode>)
    requires WellFormed(nodes) && cur < |nodes|
    ensures WellFormed(r) && |r| >= |nodes| && r[cur].compact == ""
    ensures nodes[cur].compact == "" ==> r == nodes
    ensures nodes[cur].compact != "" ==> |r| == |nodes| + 1
    ensures forall i :: 0 <= i < |nodes| && i != cur ==> r[i] == nodes[i]
  {
    var n := nodes[cur];
    if n.compact == "" then nodes
    else
      var sp := ExtractFirstSegment(n.compact);
      Attach(nodes, cur, CNode(null, map[sp.segment := |nodes|], None, ""), n.(compact := sp.rest))
  }

  /** The table after the insert() walk from node `cur` over the rest `path`. A '*'
      segment reuses or creates the wildcard child and an existing literal child is
      reused. A missing literal child is created holding the route and, as its compact
      tail, everything of the pattern after that segment ('*' segments included), which
      ends the walk. */
  function InsertFrom(nodes: seq<CNode>, cur: nat, path: string, route: RouteDefinition): (r: seq<CNode>)
    requires WellFormed(nodes) && cur < |nodes|
    ensures WellFormed(r) && |r| >= |nodes|
    decreases |path|
  {
    var u := Unpack(nodes, cur);
    var n := u[cur];
    if path == "" then u[cur := n.(route := route)]
    else
      var sp := ExtractFirstSegment(path);
      if sp.segment == "*" then
        if n.wildcard.Some? then InsertFrom(u, n.wildcard.value, sp.rest, route)
        else InsertFrom(Attach(u, cur, n.(wildcard := Some(|u|)), EmptyNode), |u|, sp.rest, route)
      else if sp.segment in n.children then InsertFrom(u, n.children[sp.segment], sp.rest, route)
      else Attach(u, cur, n.(children := n.children[sp.segment := |u|]), CNode(route, map[], None, sp.rest))
  }

  /** The walk splits the node it starts from first, so splitting it beforehand changes
      nothing. */
  lemma InsertAfterSplit(nodes: seq<CNode>, cur: nat, path: string, route: RouteDefinition)
    requires WellFormed(nodes) && cur < |nodes|
    ensures InsertFrom(Unpack(nodes, cur), cur, path, route) == InsertFrom(nodes, cur, path, route)
  {
    assert Unpack(Unpack(nodes, cur), cur) == Unpack(nodes, cur);
  }

  /** The insert() walk from a node without a compact tail, one step unfolded. */
  lemma InsertFromPlain(nodes: seq<CNode>, cur: nat, path: string, route: RouteDefinition)
    requires WellFormed(nodes) && cur < |nodes| && nodes[cur].compact == "" && path != ""
    ensures var n, sp := nodes[cur], ExtractFirstSegment(path);
            InsertFrom(nodes, cur, path, route) ==
              if sp.segment == "*" then
                if n.wildcard.Some? then InsertFrom(nodes, n.wildcard.value, sp.rest, route)
                else InsertFrom(Attach(nodes, cur, n.(wildcard := Some(|nodes|)), EmptyNode), |nodes|, sp.rest, route)
              else if sp.segment in n.children then InsertFrom(nodes, n.children[sp.segment], sp.rest, route)
              else Attach(nodes, cur, n.(children := n.children[sp.segment := |nodes|]), CNode(route, map[], None, sp.rest))
  {
    assert Unpack(nodes, cur) == nodes;
  }

  /** Replacing the node Attach added is attaching the replacement instead. */
  lemma AttachReplacesAdded(nodes: seq<CNode>, cur: nat, updated: CNode, added: CNode, replacement: CNode)
    requires WellFormed(nodes) && cur < |nodes|
    requires LinksBelow(updated, |nodes| + 1) && LinksBelow(added, |nodes| + 1) && LinksBelow(replacement, |nodes| + 1)
    ensures Attach(nodes, cur, updated, added)[|nodes| := replacement] == Attach(nodes, cur, updated, replacement)
  {
    var a, b := Attach(nodes, cur, updated, added)[|nodes| := replacement], Attach(nodes, cur, updated, replacement);
    assert forall i :: 0 <= i < |a| ==> a[i] == b[i];
  }

  function InsertNodes(nodes: seq<CNode>, path: string, route: RouteDefinition): seq<CNode>
    requires WellFormed(nodes)
  {
    InsertFrom(nodes, 0, path, route)
  }

  /** Every route the table refers to is in `s`. */
  ghost predicate RoutesIn(nodes: seq<CNode>, s: set<RouteDefinition>) {
    forall i :: 0 <= i < |nodes| && nodes[i].route != null ==> nodes[i].route in s
  }

  /** insert() refers to no route besides those already referred to and the one it
      inserts. */
  lemma {:induction false} InsertKeepsRoutesIn(nodes: seq<CNode>, cur: nat, path: string, route: RouteDefinition,
                                               s: set<RouteDefinition>)
    requires WellFormed(nodes) && cur < |nodes| && RoutesIn(nodes, s) && route in s
    ensures RoutesIn(InsertFrom(nodes, cur, path, route), s)
    decreases |path|
  {
    var u := Unpack(nodes, cur);
    assert RoutesIn(u, s) by {
      if nodes[cur].compact != "" {
        assert u[|nodes|].route == nodes[cur].route;
      }
    }
    var n := u[cur];
    InsertAfterSplit(nodes, cur, path, route);
    if path != "" {
      InsertFromPlain(u, cur, path, route);
      var sp := ExtractFirstSegment(path);
      if sp.segment == "*" {
        if n.wildcard.Some? {
          InsertKeepsRoutesIn(u, n.wildcard.value, sp.rest, route, s);
        } else {
          var a := Attach(u, cur, n.(wildcard := Some(|u|)), EmptyNode);
          AttachKeepsRoutesIn(u, cur, n.(wildcard := Some(|u|)), EmptyNode, s);
          InsertKeepsRoutesIn(a, |u|, sp.rest, route, s);
        }
      } else if sp.segment in n.children {
        InsertKeepsRoutesIn(u, n.children[sp.segment], sp.rest, route, s);
      } else {
        AttachKeepsRoutesIn(u, cur, n.(children := n.children[sp.segment := |u|]), CNode(route, map[], None, sp.rest), s);
      }
    } else {
      assert forall i :: 0 <= i < |u| && i != cur ==> u[cur := n.(route := route)][i] == u[i];
    }
  }

  lemma AttachKeepsRoutesIn(nodes: seq<CNode>, cur: nat, updated: CNode, added: CNode, s: set<RouteDefinition>)
    requires WellFormed(nodes) && cur < |nodes| && RoutesIn(nodes, s)
    requires LinksBelow(updated, |nodes| + 1) && LinksBelow(added, |nodes| + 1)
    requires updated.route == nodes[cur].route && (added.route == null || added.route in s)
    ensures RoutesIn(Attach(nodes, cur, updated, added), s)
  {
  }

  // ---------------------------------------------------------------------------
  // match()

  function Terminal(nodes: seq<CNode>, cur: nat, leftover: string): (r: Option<Hit>)
    requires cur < |nodes|
  {
    if nodes[cur].route == null then None else Some(Hit(cur, [], leftover))
  }

  /** The result of match() from node `cur`. A compact tail must be a raw string
      prefix of the rest, which then ends the walk with the remainder trimmed of '/'
      as leftover; otherwise there is no match from this node. Without a tail, an
      existing literal child is always taken; otherwise the wildcard child is tried on
      the rest and, when that fails, the segment is restored and the walk stops. */
  function MatchFrom(nodes: seq<CNode>, cur: nat, path: string): (r: Option<Hit>)
    requires WellFormed(nodes) && cur < |nodes|
    ensures r.Some? ==> r.value.node < |nodes| && nodes[r.value.node].route != null
    decreases |path|
  {
    var n := nodes[cur];
    if n.compact != "" then
      if StartsWith(path, n.compact) then Terminal(nodes, cur, Trim(path[|n.compact|..], SlashSet))
      else None
    else if path == "" then Terminal(nodes, cur, "")
    else
      var sp := ExtractFirstSegment(path);
      if sp.segment in n.children then MatchFrom(nodes, n.children[sp.segment], sp.rest)
      else if n.wildcard.Some? && MatchFrom(nodes, n.wildcard.value, sp.rest).Some? then
        var h := MatchFrom(nodes, n.wildcard.value, sp.rest).value;
        Some(h.(captures := [sp.segment] + h.captures))
      else Terminal(nodes, cur, PrependSegment(sp.rest, sp.segment))
  }

  class Node {
    var nodes: seq<CNode>

    /** Every child and wildcard reference points into the table. */
    predicate Valid()
      reads this
    {
      WellFormed(nodes)
    }

    /** The routes the nodes refer to: the objects match() may write to. */
    function Routes(): set<RouteDefinition>
      reads this
    {
      set i | 0 <= i < |nodes| && nodes[i].route != null :: nodes[i].route
    }

    /** Routes() is the smallest set the table's routes lie in. */
    lemma RoutesWithin(s: set<RouteDefinition>)
      ensures Routes() <= s <==> RoutesIn(nodes, s)
    {
      if RoutesIn(nodes, s) {
        forall o | o in Routes() ensures o in s {
          var i :| 0 <= i < |nodes| && nodes[i].route != null && nodes[i].route == o;
        }
      }
      if Routes() <= s {
        forall i | 0 <= i < |nodes| && nodes[i].route != null ensures nodes[i].route in s {
          assert nodes[i].route in Routes();
        }
      }
    }

    constructor ()
      ensures Valid() && nodes == [EmptyNode]
    {
      nodes := [EmptyNode];
    }

    /** insert(). */
    method Insert(path: string, route: RouteDefinition)
      requires Valid()
      modifies this
      ensures Valid()
      ensures nodes == InsertNodes(old(nodes), path, route)
    {
      var currentNode: nat := 0;
      var p := path;
      while true
        invariant WellFormed(nodes) && currentNode < |nodes|
        invariant InsertFrom(nodes, currentNode, p, route) == InsertNodes(old(nodes), path, route)
        decreases |p|
      {
        InsertAfterSplit(nodes, currentNode, p, route);
        SplitCompact(currentNode);
        if p == "" {
          break;
        }
        var next, rest, done := Step(currentNode, p, route);
        currentNode, p := next, rest;
        if done {
          break;
        }
      }
      nodes := nodes[currentNode := nodes[currentNode].(route := route)];
    }

    /** One step of the insert() walk from a node without a compact tail: into the
        wildcard child or an existing literal child, or into a new literal child that
        takes the whole rest of the pattern as its compact tail, which ends the walk
        (`done`). */
    method Step(cur: nat, p: string, route: RouteDefinition) returns (next: nat, rest: string, done: bool)
      requires WellFormed(nodes) && cur < |nodes| && nodes[cur].compact == "" && p != ""
      modifies this
      ensures WellFormed(nodes) && next < |nodes| && |rest| < |p|
      ensures done ==> nodes[next := nodes[next].(route := route)] == InsertFrom(old(nodes), cur, p, route)
      ensures !done ==> InsertFrom(nodes, next, rest, route) == InsertFrom(old(nodes), cur, p, route)
    {
      InsertFromPlain(nodes, cur, p, route);
      var sp := ExtractFirstSegment(p);
      rest := sp.rest;
      done := false;
      if sp.segment == "*" {
        if nodes[cur].wildcard.None? {
          nodes := Attach(nodes, cur, nodes[cur].(wildcard := Some(|nodes|)), EmptyNode);
        }
        next := nodes[cur].wildcard.value;
        return;
      }
      if sp.segment in nodes[cur].children {
        next := nodes[cur].children[sp.segment];
        return;
      }
      var child := EmptyNode.(compact := rest);
      ghost var before := nodes;
      var updated := nodes[cur].(children := nodes[cur].children[sp.segment := |nodes|]);
      nodes := Attach(nodes, cur, updated, child);
      next := |nodes| - 1;
      AttachReplacesAdded(before, cur, updated, child, CNode(route, map[], None, rest));
      done := true;
      rest := "";
    }

    /** The split of a node with a compact tail, as insert() does it on each node it
        reaches. */
    method SplitCompact(cur: nat)
      requires WellFormed(nodes) && cur < |nodes|
      modifies this
      ensures nodes == Unpack(old(nodes), cur)
    {
      var n := nodes[cur];
      if n.compact != "" {
        var childNode := n;
        var key := ExtractFirstSegment(childNode.compact);
        childNode := childNode.(compact := key.rest);
        nodes := Attach(nodes, cur, CNode(null, map[key.segment := |nodes|], None, ""), childNode);
      }
    }

    /** match() from the root. */
    method Match(path: string) returns (r: RouteDefinition?)
      requires Valid()
      modifies Routes()`nodeContext
      ensures MatchFrom(nodes, 0, path).None? ==> r == null
      ensures MatchFrom(nodes, 0, path).Some? ==>
                var h := MatchFrom(nodes, 0, path).value;
                r == nodes[h.node].route
                && r.nodeContext == ContextAfter(old(r.nodeContext), h.captures, h.leftover)
      ensures forall o :: o in Routes() && o != r ==> o.nodeContext == old(o.nodeContext)
    {
      r := MatchAt(0, path);
    }

    /** The wildcard attempt of match(): match() on the wildcard child `w` over the
        rest; on success the segment `seg` is prepended to the route's nodeContext. */
    method TryWildcard(w: nat, seg: string, rest: string) returns (route: RouteDefinition?)
      requires Valid() && w < |nodes|
      modifies Routes()`nodeContext
      ensures MatchFrom(nodes, w, rest).None? ==> route == null
      ensures MatchFrom(nodes, w, rest).Some? ==>
                var h := MatchFrom(nodes, w, rest).value;
                route == nodes[h.node].route
                && route.nodeContext == ContextAfter(old(route.nodeContext), [seg] + h.captures, h.leftover)
      ensures forall o :: o in Routes() && o != route ==> o.nodeContext == old(o.nodeContext)
      decreases |rest|, 2
    {
      route := MatchAt(w, rest);
      if route != null {
        ghost var h := MatchFrom(nodes, w, rest).value;
        route.nodeContext := PrependSegment(route.nodeContext, seg);
        ContextAfterCons(old(route.nodeContext), seg, h.captures, h.leftover);
      }
    }

    /** match() on node `at`: the method the wildcard attempt calls recursively. */
    method MatchAt(at: nat, path: string) returns (r: RouteDefinition?)
      requires Valid() && at < |nodes|
      modifies Routes()`nodeContext
      ensures MatchFrom(nodes, at, path).None? ==> r == null
      ensures MatchFrom(nodes, at, path).Some? ==>
                var h := MatchFrom(nodes, at, path).value;
                r == nodes[h.node].route
                && r.nodeContext == ContextAfter(old(r.nodeContext), h.captures, h.leftover)
      ensures forall o :: o in Routes() && o != r ==> o.nodeContext == old(o.nodeContext)
      decreases |path|, 1
    {
      var currentNode: nat := at;
      var p := path;
      while true
        invariant currentNode < |nodes| && |p| <= |path|
        invariant MatchFrom(nodes, currentNode, p) == MatchFrom(nodes, at, path)
        invariant forall o :: o in Routes() ==> o.nodeContext == old(o.nodeContext)
        decreases |p|
      {
        var n := nodes[currentNode];
        if n.compact != "" {
          if StartsWith(p, n.compact) {
            p := Trim(p[|n.compact|..], SlashSet);
            assert MatchFrom(nodes, at, path) == Terminal(nodes, currentNode, p);
            break;
          }
          return null;
        }
        if p == "" {
          assert MatchFrom(nodes, at, path) == Terminal(nodes, currentNode, p);
          break;
        }
        var sp := ExtractFirstSegment(p);
        if sp.segment in n.children {
          assert MatchFrom(nodes, currentNode, p) == MatchFrom(nodes, n.children[sp.segment], sp.rest);
          currentNode := n.children[sp.segment];
          p := sp.rest;
          continue;
        }
        if n.wildcard.Some? {
          var route := TryWildcard(n.wildcard.value, sp.segment, sp.rest);
          if route != null {
            return route;
          }
        }
        p := PrependSegment(sp.rest, sp.segment);
        assert MatchFrom(nodes, at, path) == Terminal(nodes, currentNode, p);
        break;
      }
      r := nodes[currentNode].route;
      if r != null && p != "" {
        r.nodeContext := AppendSegment(r.nodeContext, p);
      }
    }
  }

  /** One match() step from a node without a compact tail over a non-empty path. */
  lemma MatchPlain(nodes: seq<CNode>, cur: nat, path: string)
    requires WellFormed(nodes) && cur < |nodes| && nodes[cur].compact == "" && path != ""
    ensures var n, sp := nodes[cur], ExtractFirstSegment(path);
            MatchFrom(nodes, cur, path)
            == if sp.segment in n.children then MatchFrom(nodes, n.children[sp.segment], sp.rest)
               else if n.wildcard.Some? && MatchFrom(nodes, n.wildcard.value, sp.rest).Some? then
                 Some(MatchFrom(nodes, n.wildcard.value, sp.rest).value.(captures := [sp.segment] + MatchFrom(nodes, n.wildcard.value, sp.rest).value.captures))
               else Terminal(nodes, cur, PrependSegment(sp.rest, sp.segment))
  {
  }

  /** From a node without a compact tail an existing literal child is always taken:
      the wildcard child is not tried and there is no backtracking. */
  lemma LiteralBeforeWildcard(nodes: seq<CNode>, cur: nat, seg: string, rest: string)
    requires WellFormed(nodes) && cur < |nodes| && nodes[cur].compact == ""
    requires '/' !in seg && seg in nodes[cur].children
    ensures MatchFrom(nodes, cur, seg + "/" + rest) == MatchFrom(nodes, nodes[cur].children[seg], rest)
  {
    ExtractJoined(seg, rest);
    MatchPlain(nodes, cur, seg + "/" + rest);
  }

  /** A compact tail that is not a prefix of the rest ends match() with no route. */
  lemma CompactMismatchFails(nodes: seq<CNode>, cur: nat, path: string)
    requires WellFormed(nodes) && cur < |nodes| && nodes[cur].compact != ""
    requires !StartsWith(path, nodes[cur].compact)
    ensures MatchFrom(nodes, cur, path) == None
  {
  }

  // ---------------------------------------------------------------------------
  // Splitting a compact tail

  /** The split leaves the node with no route, no wildcard, no tail and one child
      under the tail's first segment; that child takes over the route, children,
      wildcard and the tail minus its first segment. */
  lemma SplitShape(nodes: seq<CNode>, cur: nat)
    requires WellFormed(nodes) && cur < |nodes| && nodes[cur].compact != ""
    ensures var r := Unpack(nodes, cur);
            var n := nodes[cur];
            var sp := ExtractFirstSegment(n.compact);
            r[cur].route == null && r[cur].wildcard == None && r[cur].compact == ""
            && r[cur].children == map[sp.segment := |nodes|]
            && r[|nodes|].route == n.route && r[|nodes|].children == n.children
            && r[|nodes|].wildcard == n.wildcard && r[|nodes|].compact == sp.rest
  {
  }

  /** The route held at a compact tail is still found under the tail after the split,
      one node further down. */
  lemma SplitKeepsTailMatch(nodes: seq<CNode>, cur: nat)
    requires WellFormed(nodes) && cur < |nodes|
    requires nodes[cur].compact != "" && nodes[cur].route != null
    ensures MatchFrom(nodes, cur, nodes[cur].compact) == Some(Hit(cur, [], ""))
    ensures var r := Unpack(nodes, cur);
            MatchFrom(r, cur, nodes[cur].compact) == Some(Hit(|nodes|, [], ""))
            && r[|nodes|].route == nodes[cur].route
  {
    var c := nodes[cur].compact;
    assert StartsWith(c, c) && c[|c|..] == "";
    SplitShape(nodes, cur);
    var r := Unpack(nodes, cur);
    var sp := ExtractFirstSegment(c);
    assert MatchFrom(r, |nodes|, sp.rest) == Some(Hit(|nodes|, [], "")) by {
      if sp.rest != "" {
        assert StartsWith(sp.rest, sp.rest) && sp.rest[|sp.rest|..] == "";
      }
    }
    assert MatchFrom(r, cur, c) == MatchFrom(r, |nodes|, sp.rest);
  }

  // ---------------------------------------------------------------------------
  // A literal pattern is found after it is inserted

  /** `m` keeps node `n`'s child and wildcard references, and has no compact tail, when
      `n` has none. */
  ghost predicate NodeExtends(n: CNode, m: CNode) {
    n.compact == "" ==>
      m.compact == ""
      && (forall s :: s in n.children ==> s in m.children && m.children[s] == n.children[s])
      && (n.wildcard.Some? ==> m.wildcard == n.wildcard)
  }

  /** `b` keeps every node of `a` that has no compact tail as a node without one,
      with all its child and wildcard references. */
  ghost predicate Extends(a: seq<CNode>, b: seq<CNode>) {
    |a| <= |b| && forall i :: 0 <= i < |a| ==> NodeExtends(a[i], b[i])
  }

  lemma ExtendsTransitive(a: seq<CNode>, b: seq<CNode>, c: seq<CNode>)
    requires Extends(a, b) && Extends(b, c)
    ensures Extends(a, c)
  {
    forall i | 0 <= i < |a| ensures NodeExtends(a[i], c[i]) {
      assert NodeExtends(a[i], b[i]) && NodeExtends(b[i], c[i]);
    }
  }

  /** Attaching a node extends the table when the updated node extends the old one. */
  lemma AttachExtends(nodes: seq<CNode>, cur: nat, updated: CNode, added: CNode)
    requires WellFormed(nodes) && cur < |nodes|
    requires LinksBelow(updated, |nodes| + 1) && LinksBelow(added, |nodes| + 1)
    requires NodeExtends(nodes[cur], updated)
    ensures Extends(nodes, Attach(nodes, cur, updated, added))
  {
    var a := Attach(nodes, cur, updated, added);
    forall i | 0 <= i < |nodes| ensures NodeExtends(nodes[i], a[i]) {
      if i != cur { assert a[i] == nodes[i]; }
    }
  }

  /** Splitting a compact tail extends the table: only the split node changes, and it
      had a tail. */
  lemma UnpackExtends(nodes: seq<CNode>, cur: nat)
    requires WellFormed(nodes) && cur < |nodes|
    ensures Extends(nodes, Unpack(nodes, cur))
  {
    var u := Unpack(nodes, cur);
    forall i | 0 <= i < |nodes| ensures NodeExtends(nodes[i], u[i]) {
      if i != cur || nodes[cur].compact == "" { assert u[i] == nodes[i]; }
    }
  }

  /** Setting a route extends the table. */
  lemma SetRouteExtends(nodes: seq<CNode>, cur: nat, route: RouteDefinition)
    requires cur < |nodes|
    ensures Extends(nodes, nodes[cur := nodes[cur].(route := route)])
  {
    var r := nodes[cur := nodes[cur].(route := route)];
    forall i | 0 <= i < |nodes| ensures NodeExtends(nodes[i], r[i]) {
      if i != cur { assert r[i] == nodes[i]; }
    }
  }

  /** The insert() walk splits only nodes with a tail and adds references only. */
  lemma {:induction false} InsertFromExtends(nodes: seq<CNode>, cur: nat, path: string, route: RouteDefinition)
    requires WellFormed(nodes) && cur < |nodes|
    ensures Extends(nodes, InsertFrom(nodes, cur, path, route))
    decreases |path|
  {
    var u := Unpack(nodes, cur);
    UnpackExtends(nodes, cur);
    InsertAfterSplit(nodes, cur, path, route);
    InsertFromPlainExtends(u, cur, path, route);
    ExtendsTransitive(nodes, u, InsertFrom(u, cur, path, route));
  }

  /** InsertFromExtends from a node without a compact tail. */
  lemma {:induction false} InsertFromPlainExtends(u: seq<CNode>, cur: nat, path: string, route: RouteDefinition)
    requires WellFormed(u) && cur < |u| && u[cur].compact == ""
    ensures Extends(u, InsertFrom(u, cur, path, route))
    decreases |path|, 0
  {
    var n := u[cur];
    if path == "" {
      assert Unpack(u, cur) == u;
      SetRouteExtends(u, cur, route);
    } else {
      InsertFromPlain(u, cur, path, route);
      var sp := ExtractFirstSegment(path);
      if sp.segment == "*" {
        if n.wildcard.Some? {
          InsertFromExtends(u, n.wildcard.value, sp.rest, route);
        } else {
          var updated := n.(wildcard := Some(|u|));
          var a := Attach(u, cur, updated, EmptyNode);
          AttachExtends(u, cur, updated, EmptyNode);
          InsertFromExtends(a, |u|, sp.rest, route);
          ExtendsTransitive(u, a, InsertFrom(a, |u|, sp.rest, route));
        }
      } else if sp.segment in n.children {
        InsertFromExtends(u, n.children[sp.segment], sp.rest, route);
      } else {
        AttachExtends(u, cur, n.(children := n.children[sp.segment := |u|]), CNode(route, map[], None, sp.rest));
      }
    }
  }

  /** match(path) from `cur` finds `route` with nothing captured and nothing left over. */
  ghost predicate FoundExactly(r: seq<CNode>, cur: nat, path: string, route: RouteDefinition)
    requires WellFormed(r) && cur < |r|
  {
    var m := MatchFrom(r, cur, path);
    m.Some? && r[m.value.node].route == route && m.value.captures == [] && m.value.leftover == ""
  }

  /** insert(p, r) for a literal-only pattern p, on any table: match(p) then finds r
      with nothing captured and nothing left over, so nodeContext is not touched. */
  lemma {:induction false} InsertThenMatch(nodes: seq<CNode>, cur: nat, path: string, route: RouteDefinition)
    requires WellFormed(nodes) && cur < |nodes| && LiteralOnly(path)
    ensures FoundExactly(InsertFrom(nodes, cur, path, route), cur, path, route)
    decreases |path|
  {
    var u := Unpack(nodes, cur);
    InsertAfterSplit(nodes, cur, path, route);
    if path == "" {
      assert Unpack(u, cur) == u;
      assert MatchFrom(InsertFrom(u, cur, path, route), cur, path) == Some(Hit(cur, [], ""));
    } else {
      var sp := ExtractFirstSegment(path);
      if sp.segment in u[cur].children {
        InsertThenMatch(u, u[cur].children[sp.segment], sp.rest, route);
        ChildThenMatch(u, cur, path, route);
      } else {
        NewChildThenMatch(u, cur, path, route);
      }
    }
  }

  /** InsertThenMatch through an existing literal child, from InsertThenMatch below it. */
  lemma ChildThenMatch(u: seq<CNode>, cur: nat, path: string, route: RouteDefinition)
    requires WellFormed(u) && cur < |u| && u[cur].compact == "" && path != "" && LiteralOnly(path)
    requires var sp := ExtractFirstSegment(path);
             sp.segment in u[cur].children
             && FoundExactly(InsertFrom(u, u[cur].children[sp.segment], sp.rest, route), u[cur].children[sp.segment], sp.rest, route)
    ensures FoundExactly(InsertFrom(u, cur, path, route), cur, path, route)
  {
    var sp := ExtractFirstSegment(path);
    var c := u[cur].children[sp.segment];
    InsertFromPlain(u, cur, path, route);
    var r := InsertFrom(u, c, sp.rest, route);
    InsertFromExtends(u, c, sp.rest, route);
    assert NodeExtends(u[cur], r[cur]);
    MatchPlain(r, cur, path);
  }

  /** InsertThenMatch through a new literal child, which takes the rest as its tail. */
  lemma NewChildThenMatch(u: seq<CNode>, cur: nat, path: string, route: RouteDefinition)
    requires WellFormed(u) && cur < |u| && u[cur].compact == "" && path != "" && LiteralOnly(path)
    requires ExtractFirstSegment(path).segment !in u[cur].children
    ensures FoundExactly(InsertFrom(u, cur, path, route), cur, path, route)
  {
    var sp := ExtractFirstSegment(path);
    InsertFromPlain(u, cur, path, route);
    var r := InsertFrom(u, cur, path, route);
    assert r[cur].compact == "" && sp.segment in r[cur].children && r[cur].children[sp.segment] == |u|;
    assert r[|u|] == CNode(route, map[], None, sp.rest);
    assert MatchFrom(r, |u|, sp.rest) == Some(Hit(|u|, [], "")) by {
      if sp.rest != "" {
        assert StartsWith(sp.rest, sp.rest) && sp.rest[|sp.rest|..] == "";
      }
    }
    MatchPlain(r, cur, path);
  }

  /** A missing literal child is created holding the route and, as its compact tail,
      the whole rest of the pattern, '*' segments included; nothing else changes and
      the walk ends there. */
  lemma NewChildTakesRest(nodes: seq<CNode>, cur: nat, path: string, route: RouteDefinition)
    requires WellFormed(nodes) && cur < |nodes| && nodes[cur].compact == "" && path != ""
    requires var sp := ExtractFirstSegment(path);
             sp.segment != "*" && sp.segment !in nodes[cur].children
    ensures var sp, r := ExtractFirstSegment(path), InsertFrom(nodes, cur, path, route);
            |r| == |nodes| + 1 && r[|nodes|] == CNode(route, map[], None, sp.rest)
            && r[cur] == nodes[cur].(children := nodes[cur].children[sp.segment := |nodes|])
            && forall i :: 0 <= i < |nodes| && i != cur ==> r[i] == nodes[i]
  {
    InsertFromPlain(nodes, cur, path, route);
  }

  /** On an empty trie, a pattern whose first segment is literal becomes one child of
      the root holding the route and, as its compact tail, the rest of the pattern. */
  lemma FreshInsertCompacts(path: string, route: RouteDefinition)
    requires path != "" && ExtractFirstSegment(path).segment != "*"
    ensures var sp := ExtractFirstSegment(path);
            InsertNodes([EmptyNode], path, route) ==
              [CNode(null, map[sp.segment := 1], None, ""), CNode(route, map[], None, sp.rest)]
  {
    NewChildTakesRest([EmptyNode], 0, path, route);
  }

  /** A path that starts with a node's compact tail is matched at that node, with what
      follows the tail, trimmed of '/', as leftover. */
  lemma CompactPrefixMatch(nodes: seq<CNode>, cur: nat, path: string)
    requires WellFormed(nodes) && cur < |nodes| && nodes[cur].compact != ""
    requires StartsWith(path, nodes[cur].compact)
    ensures MatchFrom(nodes, cur, path) == Terminal(nodes, cur, Trim(path[|nodes[cur].compact|..], SlashSet))
  {
  }

  // ---------------------------------------------------------------------------
  // A history of clean literal patterns
  //
  // Each node is labelled with the segments that lead to it from the root; `parent`
  // names, for every node but the root, the node whose child it is. A node's key is
  // its label followed by the segments of its compact tail: the pattern the route it
  // holds was registered under.

  /** A clean pattern without a '*' segment. */
  predicate Plain(path: string) {
    IsClean(path) && LiteralOnly(path)
  }

  /** A node with a compact tail has no children, and the tail is clean. */
  predicate TailShaped(n: CNode) {
    n.compact != "" ==> n.children == map[] && IsClean(n.compact)
  }

  /** Node `j` is the child of `parent[j]` under the last segment of its label. */
  ghost predicate ParentHolds(nodes: seq<CNode>, labels: seq<seq<string>>, parent: seq<nat>, j: nat)
    requires |labels| == |nodes| && |parent| == |nodes| && j < |nodes|
  {
    parent[j] < |nodes| && labels[j] != []
    && labels[j] == labels[parent[j]] + [labels[j][|labels[j]| - 1]]
    && labels[j][|labels[j]| - 1] in nodes[parent[j]].children
    && nodes[parent[j]].children[labels[j][|labels[j]| - 1]] == j
  }

  ghost predicate Shaped(nodes: seq<CNode>, labels: seq<seq<string>>, parent: seq<nat>) {
    WellFormed(nodes) && |labels| == |nodes| && |parent| == |nodes| && labels[0] == []
    && (forall i :: 0 <= i < |nodes| ==> TailShaped(nodes[i]))
    && (forall i, s :: 0 <= i < |nodes| && s in nodes[i].children ==>
          labels[nodes[i].children[s]] == labels[i] + [s])
    && (forall j :: 0 < j < |nodes| ==> ParentHolds(nodes, labels, parent, j))
  }

  ghost function Key(nodes: seq<CNode>, labels: seq<seq<string>>, i: nat): seq<string>
    requires |labels| == |nodes| && i < |nodes|
  {
    labels[i] + Segments(nodes[i].compact)
  }

  /** Some node has key `k` and holds `route`. */
  ghost predicate HasKey(nodes: seq<CNode>, labels: seq<seq<string>>, k: seq<string>, route: RouteDefinition?)
    requires |labels| == |nodes|
  {
    exists i :: 0 <= i < |nodes| && Key(nodes, labels, i) == k && nodes[i].route == route
  }

  /** Every key of `a` but `k` is in `b` with the same route. */
  ghost predicate Keeps(a: seq<CNode>, la: seq<seq<string>>, b: seq<CNode>, lb: seq<seq<string>>, k: seq<string>)
    requires |la| == |a| && |lb| == |b|
  {
    forall i :: 0 <= i < |a| && Key(a, la, i) != k ==> HasKey(b, lb, Key(a, la, i), a[i].route)
  }

  /** Every key of `a` is in `b` with the same route. */
  ghost predicate KeepsAll(a: seq<CNode>, la: seq<seq<string>>, b: seq<CNode>, lb: seq<seq<string>>)
    requires |la| == |a| && |lb| == |b|
  {
    forall i :: 0 <= i < |a| ==> HasKey(b, lb, Key(a, la, i), a[i].route)
  }

  lemma KeepsThen(a: seq<CNode>, la: seq<seq<string>>, b: seq<CNode>, lb: seq<seq<string>>,
                  c: seq<CNode>, lc: seq<seq<string>>, k: seq<string>)
    requires |la| == |a| && |lb| == |b| && |lc| == |c|
    requires KeepsAll(a, la, b, lb) && Keeps(b, lb, c, lc, k)
    ensures Keeps(a, la, c, lc, k)
  {
    forall i | 0 <= i < |a| && Key(a, la, i) != k ensures HasKey(c, lc, Key(a, la, i), a[i].route) {
      var j :| 0 <= j < |b| && Key(b, lb, j) == Key(a, la, i) && b[j].route == a[i].route;
    }
  }

  /** Only the root has the empty label. */
  lemma RootOnly(nodes: seq<CNode>, labels: seq<seq<string>>, parent: seq<nat>, j: nat)
    requires Shaped(nodes, labels, parent) && j < |nodes| && labels[j] == []
    ensures j == 0
  {
    assert j == 0 || ParentHolds(nodes, labels, parent, j);
  }

  /** No two nodes have the same label. */
  lemma {:induction false} LabelsInjective(nodes: seq<CNode>, labels: seq<seq<string>>, parent: seq<nat>, a: nat, b: nat)
    requires Shaped(nodes, labels, parent) && a < |nodes| && b < |nodes| && labels[a] == labels[b]
    ensures a == b
    decreases |labels[a]|
  {
    if labels[a] == [] {
      RootOnly(nodes, labels, parent, a);
      RootOnly(nodes, labels, parent, b);
    } else {
      assert a > 0 && b > 0;
      assert ParentHolds(nodes, labels, parent, a) && ParentHolds(nodes, labels, parent, b);
      var n := |labels[a]|;
      assert labels[parent[a]] == labels[a][..n - 1];
      assert labels[parent[b]] == labels[b][..n - 1];
      LabelsInjective(nodes, labels, parent, parent[a], parent[b]);
    }
  }

  /** The node labelled with the first `k` segments of a node's label. */
  lemma {:induction false} Ancestor(nodes: seq<CNode>, labels: seq<seq<string>>, parent: seq<nat>, b: nat, k: nat)
    returns (d: nat)
    requires Shaped(nodes, labels, parent) && b < |nodes| && k <= |labels[b]|
    ensures d < |nodes| && labels[d] == labels[b][..k]
    decreases |labels[b]|
  {
    if k == |labels[b]| {
      d := b;
    } else {
      RootOnlyNot(nodes, labels, parent, b);
      assert ParentHolds(nodes, labels, parent, b);
      var p := parent[b];
      assert labels[p] == labels[b][..|labels[b]| - 1];
      d := Ancestor(nodes, labels, parent, p, k);
    }
  }

  /** A non-empty label is not the root's. */
  lemma RootOnlyNot(nodes: seq<CNode>, labels: seq<seq<string>>, parent: seq<nat>, b: nat)
    requires Shaped(nodes, labels, parent) && b < |nodes| && labels[b] != []
    ensures b > 0
  {
  }

  /** A node whose label is a proper prefix of another's has a child under the next
      segment of the longer label. */
  lemma ProperAncestorHasChild(nodes: seq<CNode>, labels: seq<seq<string>>, parent: seq<nat>, a: nat, b: nat)
    requires Shaped(nodes, labels, parent) && a < |nodes| && b < |nodes|
    requires |labels[a]| < |labels[b]| && labels[b][..|labels[a]|] == labels[a]
    ensures labels[b][|labels[a]|] in nodes[a].children
  {
    var k := |labels[a]|;
    var d := Ancestor(nodes, labels, parent, b, k + 1);
    RootOnlyNot(nodes, labels, parent, d);
    assert ParentHolds(nodes, labels, parent, d);
    var p := parent[d];
    assert labels[p] == labels[d][..k];
    assert labels[d][..k] == labels[b][..k];
    LabelsInjective(nodes, labels, parent, p, a);
    assert labels[d][k] == labels[b][k];
  }

  /** A node whose label is a prefix of the key of node `i` is node `i` itself when
      it has no children or its label is the whole key. */
  lemma KeyOwner(nodes: seq<CNode>, labels: seq<seq<string>>, parent: seq<nat>, i: nat, j: nat)
    requires Shaped(nodes, labels, parent) && i < |nodes| && j < |nodes|
    requires var k := Key(nodes, labels, i);
             |labels[j]| <= |k| && k[..|labels[j]|] == labels[j]
    requires nodes[j].children == map[] || |labels[j]| == |Key(nodes, labels, i)|
    ensures i == j
  {
    var k := Key(nodes, labels, i);
    var li, lj := labels[i], labels[j];
    assert k[..|li|] == li;
    assert TailShaped(nodes[i]);
    if |lj| < |li| {
      assert li[..|lj|] == lj;
      ProperAncestorHasChild(nodes, labels, parent, j, i);
    } else if |li| < |lj| {
      assert lj[..|li|] == li;
      ProperAncestorHasChild(nodes, labels, parent, i, j);
    } else {
      assert li == lj;
      LabelsInjective(nodes, labels, parent, i, j);
    }
  }

  /** A node without a compact tail whose label is a proper prefix of the key of node
      `i` has a child under the next segment of that key. */
  lemma KeyContinues(nodes: seq<CNode>, labels: seq<seq<string>>, parent: seq<nat>, i: nat, j: nat)
    requires Shaped(nodes, labels, parent) && i < |nodes| && j < |nodes| && nodes[j].compact == ""
    requires var k := Key(nodes, labels, i);
             |labels[j]| < |k| && k[..|labels[j]|] == labels[j]
    ensures Key(nodes, labels, i)[|labels[j]|] in nodes[j].children
  {
    var k := Key(nodes, labels, i);
    var li, lj := labels[i], labels[j];
    assert k[..|li|] == li;
    assert TailShaped(nodes[i]);
    if |lj| < |li| {
      assert li[..|lj|] == lj;
      ProperAncestorHasChild(nodes, labels, parent, j, i);
      assert k[|lj|] == li[|lj|];
    } else if |li| < |lj| {
      assert lj[..|li|] == li;
      ProperAncestorHasChild(nodes, labels, parent, i, j);
    } else {
      assert li == lj;
      LabelsInjective(nodes, labels, parent, i, j);
    }
  }

  /** match() from node `j` over a clean rest that completes `j`'s label to the key
      of node `i` finds node `i`, with nothing captured and nothing left over. */
  lemma {:induction false} MatchKey(nodes: seq<CNode>, labels: seq<seq<string>>, parent: seq<nat>, i: nat, j: nat, q: string)
    requires Shaped(nodes, labels, parent) && i < |nodes| && j < |nodes| && nodes[i].route != null
    requires IsClean(q) && labels[j] + Segments(q) == Key(nodes, labels, i)
    ensures MatchFrom(nodes, j, q) == Some(Hit(i, [], ""))
    decreases |q|
  {
    var k := Key(nodes, labels, i);
    assert k[..|labels[j]|] == labels[j];
    if nodes[j].compact != "" || q == "" {
      MatchKeyHere(nodes, labels, parent, i, j, q);
    } else {
      var child := MatchKeyStep(nodes, labels, parent, i, j, q);
      MatchKey(nodes, labels, parent, i, child, ExtractFirstSegment(q).rest);
    }
  }

  /** MatchKey where the walk ends: at a compact tail, or at the end of the path. */
  lemma MatchKeyHere(nodes: seq<CNode>, labels: seq<seq<string>>, parent: seq<nat>, i: nat, j: nat, q: string)
    requires Shaped(nodes, labels, parent) && i < |nodes| && j < |nodes| && nodes[i].route != null
    requires IsClean(q) && labels[j] + Segments(q) == Key(nodes, labels, i)
    requires nodes[j].compact != "" || q == ""
    ensures MatchFrom(nodes, j, q) == Some(Hit(i, [], ""))
  {
    var k := Key(nodes, labels, i);
    assert k[..|labels[j]|] == labels[j];
    var c := nodes[j].compact;
    assert TailShaped(nodes[j]);
    KeyOwner(nodes, labels, parent, i, j);
    if c != "" {
      assert Segments(q) == Segments(c);
      SegmentsInjective(q, c);
      assert StartsWith(q, c) && q[|c|..] == "";
    }
  }

  /** One step of MatchKey: the next segment of the path leads to a literal child
      whose label continues the key. */
  lemma MatchKeyStep(nodes: seq<CNode>, labels: seq<seq<string>>, parent: seq<nat>, i: nat, j: nat, q: string)
    returns (child: nat)
    requires Shaped(nodes, labels, parent) && i < |nodes| && j < |nodes|
    requires IsClean(q) && labels[j] + Segments(q) == Key(nodes, labels, i)
    requires nodes[j].compact == "" && q != ""
    ensures var sp := ExtractFirstSegment(q);
            |sp.rest| < |q| && IsClean(sp.rest) && child < |nodes|
            && labels[child] + Segments(sp.rest) == Key(nodes, labels, i)
            && MatchFrom(nodes, j, q) == MatchFrom(nodes, child, sp.rest)
  {
    var k := Key(nodes, labels, i);
    var sp := ExtractFirstSegment(q);
    CleanSplit(q);
    assert k == (labels[j] + [sp.segment]) + Segments(sp.rest) by {
      AppendAssoc(labels[j], [sp.segment], Segments(sp.rest));
    }
    assert k[..|labels[j]|] == labels[j] && k[|labels[j]|] == sp.segment;
    KeyContinues(nodes, labels, parent, i, j);
    child := nodes[j].children[sp.segment];
    assert labels[child] == labels[j] + [sp.segment];
    assert MatchFrom(nodes, j, q) == MatchFrom(nodes, child, sp.rest) by {
      MatchPlain(nodes, j, q);
    }
  }

  /** Attaching a new childless node under `cur` with a fresh segment keeps the shape,
      the new node labelled with `cur`'s label and that segment. */
  lemma AttachShaped(nodes: seq<CNode>, labels: seq<seq<string>>, parent: seq<nat>, cur: nat,
                     updated: CNode, added: CNode, seg: string)
    requires Shaped(nodes, labels, parent) && cur < |nodes| && seg !in nodes[cur].children
    requires updated.children == nodes[cur].children[seg := |nodes|] && updated.compact == ""
    requires added.children == map[] && TailShaped(added)
    requires LinksBelow(updated, |nodes| + 1) && LinksBelow(added, |nodes| + 1)
    ensures Shaped(Attach(nodes, cur, updated, added), labels + [labels[cur] + [seg]], parent + [cur])
  {
    var r := Attach(nodes, cur, updated, added);
    var l2, p2 := labels + [labels[cur] + [seg]], parent + [cur];
    forall i | 0 <= i < |r| ensures TailShaped(r[i]) {
      if i < |nodes| && i != cur { assert r[i] == nodes[i]; }
    }
    forall i, s | 0 <= i < |r| && s in r[i].children ensures l2[r[i].children[s]] == l2[i] + [s] {
      if i == cur {
        if s != seg { assert s in nodes[cur].children; }
      } else {
        assert i < |nodes| && r[i] == nodes[i];
      }
    }
    forall j | 0 < j < |r| ensures ParentHolds(r, l2, p2, j) {
      if j < |nodes| {
        assert ParentHolds(nodes, labels, parent, j);
        var p := parent[j];
        var last := labels[j][|labels[j]| - 1];
        if p == cur {
          assert last != seg;
        } else {
          assert r[p] == nodes[p];
        }
      }
    }
  }

  /** Splitting a compact tail keeps the shape and every key: the new child takes the
      tail's first segment as the last of its label and the rest of it as its tail. */
  lemma UnpackShaped(nodes: seq<CNode>, labels: seq<seq<string>>, parent: seq<nat>, cur: nat)
    returns (lu: seq<seq<string>>, pu: seq<nat>)
    requires Shaped(nodes, labels, parent) && cur < |nodes|
    ensures Shaped(Unpack(nodes, cur), lu, pu) && lu[cur] == labels[cur]
    ensures KeepsAll(nodes, labels, Unpack(nodes, cur), lu)
  {
    var n := nodes[cur];
    if n.compact == "" {
      lu, pu := labels, parent;
      assert forall i :: 0 <= i < |nodes| ==> Key(nodes, labels, i) == Key(nodes, labels, i);
    } else {
      var sp := ExtractFirstSegment(n.compact);
      CleanSplit(n.compact);
      assert TailShaped(n);
      var updated, added := CNode(null, map[sp.segment := |nodes|], None, ""), n.(compact := sp.rest);
      AttachShaped(nodes, labels, parent, cur, updated, added, sp.segment);
      lu, pu := labels + [labels[cur] + [sp.segment]], parent + [cur];
      assert (labels[cur] + [sp.segment]) + Segments(sp.rest) == Key(nodes, labels, cur) by {
        AppendAssoc(labels[cur], [sp.segment], Segments(sp.rest));
      }
      SplitKeepsAll(nodes, labels, cur, updated, added, labels[cur] + [sp.segment]);
    }
  }

  /** Splitting a compact tail keeps every key: the new node's label and tail spell the
      key the split node had. */
  lemma SplitKeepsAll(nodes: seq<CNode>, labels: seq<seq<string>>, cur: nat, updated: CNode, added: CNode, lab: seq<string>)
    requires WellFormed(nodes) && |labels| == |nodes| && cur < |nodes|
    requires LinksBelow(updated, |nodes| + 1) && LinksBelow(added, |nodes| + 1)
    requires added.route == nodes[cur].route && lab + Segments(added.compact) == Key(nodes, labels, cur)
    ensures KeepsAll(nodes, labels, Attach(nodes, cur, updated, added), labels + [lab])
  {
    var r, lu := Attach(nodes, cur, updated, added), labels + [lab];
    assert Key(r, lu, |nodes|) == Key(nodes, labels, cur);
    forall i | 0 <= i < |nodes| ensures HasKey(r, lu, Key(nodes, labels, i), nodes[i].route) {
      if i != cur {
        assert Key(r, lu, i) == Key(nodes, labels, i);
      }
    }
  }

  /** Setting the route of a node without a compact tail: its label is now a key of
      that route, and every other key is kept. */
  lemma SetRouteShaped(u: seq<CNode>, lu: seq<seq<string>>, pu: seq<nat>, cur: nat, route: RouteDefinition)
    requires Shaped(u, lu, pu) && cur < |u| && u[cur].compact == ""
    ensures var r := u[cur := u[cur].(route := route)];
            Shaped(r, lu, pu) && HasKey(r, lu, lu[cur], route) && Keeps(u, lu, r, lu, lu[cur])
  {
    var r := u[cur := u[cur].(route := route)];
    assert forall i :: 0 <= i < |r| ==> r[i].children == u[i].children && r[i].compact == u[i].compact;
    forall j | 0 < j < |r| ensures ParentHolds(r, lu, pu, j) {
      assert ParentHolds(u, lu, pu, j);
    }
    assert Key(r, lu, cur) == lu[cur];
    forall i | 0 <= i < |u| && Key(u, lu, i) != lu[cur] ensures HasKey(r, lu, Key(u, lu, i), u[i].route) {
      assert Key(r, lu, i) == Key(u, lu, i);
    }
  }

  /** A new literal child under `cur` takes the route under `cur`'s label and the
      pattern's segments, keeping the shape and every key. */
  lemma NewLeafShaped(u: seq<CNode>, lu: seq<seq<string>>, pu: seq<nat>, cur: nat, path: string, route: RouteDefinition)
    returns (l2: seq<seq<string>>, p2: seq<nat>)
    requires Shaped(u, lu, pu) && cur < |u| && u[cur].compact == "" && path != "" && Plain(path)
    requires ExtractFirstSegment(path).segment !in u[cur].children
    ensures var r := InsertFrom(u, cur, path, route);
            Shaped(r, l2, p2) && HasKey(r, l2, lu[cur] + Segments(path), route) && KeepsAll(u, lu, r, l2)
  {
    var n, sp := u[cur], ExtractFirstSegment(path);
    PlainSplit(path);
    var updated, added := n.(children := n.children[sp.segment := |u|]), CNode(route, map[], None, sp.rest);
    var r := InsertFrom(u, cur, path, route);
    assert r == Attach(u, cur, updated, added) by {
      InsertFromPlain(u, cur, path, route);
    }
    AttachShaped(u, lu, pu, cur, updated, added, sp.segment);
    l2, p2 := lu + [lu[cur] + [sp.segment]], pu + [cur];
    assert Key(r, l2, |u|) == lu[cur] + Segments(path) by {
      AppendAssoc(lu[cur], [sp.segment], Segments(sp.rest));
    }
    AttachKeepsAll(u, lu, cur, updated, added, lu[cur] + [sp.segment]);
  }

  /** Attaching a node while `cur` keeps its route and tail keeps every key. */
  lemma AttachKeepsAll(u: seq<CNode>, lu: seq<seq<string>>, cur: nat, updated: CNode, added: CNode, lab: seq<string>)
    requires WellFormed(u) && |lu| == |u| && cur < |u|
    requires LinksBelow(updated, |u| + 1) && LinksBelow(added, |u| + 1)
    requires updated.route == u[cur].route && updated.compact == u[cur].compact
    ensures KeepsAll(u, lu, Attach(u, cur, updated, added), lu + [lab])
  {
    var r, l2 := Attach(u, cur, updated, added), lu + [lab];
    forall i | 0 <= i < |u| ensures HasKey(r, l2, Key(u, lu, i), u[i].route) {
      assert Key(r, l2, i) == Key(u, lu, i);
    }
  }

  /** insert() of a clean literal pattern from node `cur` keeps the shape, stores the
      route under `cur`'s label followed by the pattern's segments, and keeps every
      other key with its route. */
  lemma {:induction false} InsertShaped(nodes: seq<CNode>, labels: seq<seq<string>>, parent: seq<nat>, cur: nat,
                                        path: string, route: RouteDefinition)
    returns (l2: seq<seq<string>>, p2: seq<nat>)
    requires Shaped(nodes, labels, parent) && cur < |nodes| && Plain(path)
    ensures var r, k := InsertFrom(nodes, cur, path, route), labels[cur] + Segments(path);
            Shaped(r, l2, p2) && HasKey(r, l2, k, route) && Keeps(nodes, labels, r, l2, k)
    decreases |path|
  {
    var lu, pu := UnpackShaped(nodes, labels, parent, cur);
    var u := Unpack(nodes, cur);
    InsertAfterSplit(nodes, cur, path, route);
    l2, p2 := PlainInsertShaped(u, lu, pu, cur, path, route);
    KeepsThen(nodes, labels, u, lu, InsertFrom(nodes, cur, path, route), l2, labels[cur] + Segments(path));
  }

  /** InsertShaped from a node without a compact tail. */
  lemma {:induction false} PlainInsertShaped(u: seq<CNode>, lu: seq<seq<string>>, pu: seq<nat>, cur: nat,
                                             path: string, route: RouteDefinition)
    returns (l2: seq<seq<string>>, p2: seq<nat>)
    requires Shaped(u, lu, pu) && cur < |u| && Plain(path) && u[cur].compact == ""
    ensures var r, k := InsertFrom(u, cur, path, route), lu[cur] + Segments(path);
            Shaped(r, l2, p2) && HasKey(r, l2, k, route) && Keeps(u, lu, r, l2, k)
    decreases |path|, 1
  {
    if path == "" {
      assert Unpack(u, cur) == u;
      assert lu[cur] + Segments(path) == lu[cur];
      SetRouteShaped(u, lu, pu, cur, route);
      l2, p2 := lu, pu;
    } else if ExtractFirstSegment(path).segment in u[cur].children {
      l2, p2 := ChildInsertShaped(u, lu, pu, cur, path, route);
    } else {
      l2, p2 := NewLeafShaped(u, lu, pu, cur, path, route);
    }
  }

  /** The insert() walk through an existing literal child `c`: the walk goes on from
      `c` over a clean literal rest, whose segments complete `c`'s label to the key. */
  lemma ChildShaped(u: seq<CNode>, lu: seq<seq<string>>, pu: seq<nat>, cur: nat, path: string, route: RouteDefinition)
    returns (c: nat)
    requires Shaped(u, lu, pu) && cur < |u| && Plain(path) && u[cur].compact == "" && path != ""
    requires ExtractFirstSegment(path).segment in u[cur].children
    ensures var sp := ExtractFirstSegment(path);
            c < |u| && Plain(sp.rest) && |sp.rest| < |path|
            && InsertFrom(u, cur, path, route) == InsertFrom(u, c, sp.rest, route)
            && lu[c] + Segments(sp.rest) == lu[cur] + Segments(path)
  {
    var sp := ExtractFirstSegment(path);
    c := u[cur].children[sp.segment];
    PlainSplit(path);
    ThroughChild(u, cur, path, route);
    assert lu[c] == lu[cur] + [sp.segment];
    AppendAssoc(lu[cur], [sp.segment], Segments(sp.rest));
  }

  /** The first segment of a clean literal pattern and the clean literal rest. */
  lemma PlainSplit(path: string)
    requires Plain(path) && path != ""
    ensures var sp := ExtractFirstSegment(path);
            sp.segment != "*" && Plain(sp.rest) && |sp.rest| < |path|
            && Segments(path) == [sp.segment] + Segments(sp.rest)
  {
    CleanSplit(path);
  }

  /** The insert() walk through an existing literal child. */
  lemma ThroughChild(u: seq<CNode>, cur: nat, path: string, route: RouteDefinition)
    requires WellFormed(u) && cur < |u| && u[cur].compact == "" && path != ""
    requires var sp := ExtractFirstSegment(path);
             sp.segment != "*" && sp.segment in u[cur].children
    ensures var sp := ExtractFirstSegment(path);
            InsertFrom(u, cur, path, route) == InsertFrom(u, u[cur].children[sp.segment], sp.rest, route)
  {
    InsertFromPlain(u, cur, path, route);
  }

  /** PlainInsertShaped through an existing literal child. */
  lemma {:induction false} ChildInsertShaped(u: seq<CNode>, lu: seq<seq<string>>, pu: seq<nat>, cur: nat,
                                             path: string, route: RouteDefinition)
    returns (l2: seq<seq<string>>, p2: seq<nat>)
    requires Shaped(u, lu, pu) && cur < |u| && Plain(path) && u[cur].compact == "" && path != ""
    requires ExtractFirstSegment(path).segment in u[cur].children
    ensures var r, k := InsertFrom(u, cur, path, route), lu[cur] + Segments(path);
            Shaped(r, l2, p2) && HasKey(r, l2, k, route) && Keeps(u, lu, r, l2, k)
    decreases |path|, 0
  {
    var c := ChildShaped(u, lu, pu, cur, path, route);
    l2, p2 := InsertShaped(u, lu, pu, c, ExtractFirstSegment(path).rest, route);
  }

  /** The table after inserting a history of registrations into an empty trie. */
  function Build(history: seq<Insertion>): (r: seq<CNode>)
    ensures WellFormed(r)
  {
    if history == [] then [EmptyNode]
    else InsertNodes(Build(history[..|history| - 1]), history[|history| - 1].path, history[|history| - 1].route)
  }

  /** The route of the most recent registration whose pattern has these segments. */
  function LastRouteAt(history: seq<Insertion>, segs: seq<string>): RouteDefinition? {
    if history == [] then null
    else if Segments(history[|history| - 1].path) == segs then history[|history| - 1].route
    else LastRouteAt(history[..|history| - 1], segs)
  }

  /** Every pattern of the history is clean and has no '*' segment. */
  predicate PlainHistory(history: seq<Insertion>) {
    forall k :: 0 <= k < |history| ==> Plain(history[k].path)
  }

  /** The table built from a plain history is shaped, and holds the most recent route
      registered under `segs` under that key. */
  lemma {:induction false} BuildShaped(history: seq<Insertion>, segs: seq<string>)
    returns (labels: seq<seq<string>>, parent: seq<nat>)
    requires PlainHistory(history)
    ensures Shaped(Build(history), labels, parent)
    ensures LastRouteAt(history, segs) != null ==> HasKey(Build(history), labels, segs, LastRouteAt(history, segs))
  {
    if history == [] {
      labels, parent := [[]], [0];
    } else {
      var prefix, last := history[..|history| - 1], history[|history| - 1];
      assert PlainHistory(prefix) by {
        assert forall k :: 0 <= k < |prefix| ==> prefix[k] == history[k];
      }
      assert Plain(last.path);
      var l0, p0 := BuildShaped(prefix, segs);
      labels, parent := InsertShaped(Build(prefix), l0, p0, 0, last.path, last.route);
      assert l0[0] + Segments(last.path) == Segments(last.path);
      if LastRouteAt(history, segs) != null && Segments(last.path) != segs {
        var i :| 0 <= i < |Build(prefix)| && Key(Build(prefix), l0, i) == segs && Build(prefix)[i].route == LastRouteAt(prefix, segs);
      }
    }
  }

  /** After any history of clean literal registrations, match() of a clean path finds
      the route most recently registered under its segments, with nothing captured and
      nothing left over. */
  lemma MatchReturnsLastInserted(history: seq<Insertion>, path: string)
    requires PlainHistory(history) && IsClean(path) && LastRouteAt(history, Segments(path)) != null
    ensures FoundExactly(Build(history), 0, path, LastRouteAt(history, Segments(path)))
  {
    var r := Build(history);
    var labels, parent := BuildShaped(history, Segments(path));
    var i :| 0 <= i < |r| && Key(r, labels, i) == Segments(path) && r[i].route == LastRouteAt(history, Segments(path));
    assert labels[0] + Segments(path) == Segments(path);
    MatchKey(r, labels, parent, i, 0, path);
  }

  // ---------------------------------------------------------------------------
  // Behaviour on concrete tables

  // A compact tail is compared as a raw string prefix: with only "u/p" inserted,
  // "u/ps" is matched at that route with the leftover "s".
  lemma RawPrefixMatch(r: RouteDefinition)
    ensures MatchFrom(InsertNodes([EmptyNode], "u/p", r), 0, "u/ps") == Some(Hit(1, [], "s"))
  {
    RawPrefixTable(r);
    RawPrefixWalk(InsertNodes([EmptyNode], "u/p", r));
  }

  /** The match() walk of "u/ps" over the table RawPrefixTable builds. */
  lemma RawPrefixWalk(t: seq<CNode>)
    requires WellFormed(t) && |t| == 2 && t[0].compact == "" && t[0].children == map["u" := 1]
    requires t[1].compact == "p" && t[1].route != null
    ensures MatchFrom(t, 0, "u/ps") == Some(Hit(1, [], "s"))
  {
    assert "u/ps" == "u" + "/" + ("p" + "s");
    TailAfterChild(t, 0, "u", "p", "s");
    assert Trim("s", SlashSet) == "s";
  }

  /** CompactPrefixMatch one literal child below `cur`. */
  lemma TailAfterChild(t: seq<CNode>, cur: nat, seg: string, tail: string, more: string)
    requires WellFormed(t) && cur < |t| && t[cur].compact == "" && '/' !in seg && seg in t[cur].children
    requires t[t[cur].children[seg]].compact == tail && tail != ""
    ensures MatchFrom(t, cur, seg + "/" + (tail + more)) == Terminal(t, t[cur].children[seg], Trim(more, SlashSet))
  {
    LiteralBeforeWildcard(t, cur, seg, tail + more);
    assert (tail + more)[..|tail|] == tail && (tail + more)[|tail|..] == more;
    CompactPrefixMatch(t, t[cur].children[seg], tail + more);
  }

  /** The table of RawPrefixMatch: "u" under the root, holding the tail "p". */
  lemma RawPrefixTable(r: RouteDefinition)
    ensures InsertNodes([EmptyNode], "u/p", r) == [CNode(null, map["u" := 1], None, ""), CNode(r, map[], None, "p")]
  {
    assert "u/p" == "u" + "/" + "p";
    CompactTable("u", "p", r);
  }

  /** FreshInsertCompacts for a pattern spelled as its first segment and the rest. */
  lemma CompactTable(seg: string, rest: string, route: RouteDefinition)
    requires '/' !in seg && seg != "*"
    ensures InsertNodes([EmptyNode], seg + "/" + rest, route) ==
              [CNode(null, map[seg := 1], None, ""), CNode(route, map[], None, rest)]
  {
    ExtractJoined(seg, rest);
    FreshInsertCompacts(seg + "/" + rest, route);
  }

  // A '*' after a newly created child is kept literally in the compact tail: with
  // only "w/*" inserted, "w/t" finds no route.
  lemma WildcardInTailLost(r: RouteDefinition)
    ensures MatchFrom(InsertNodes([EmptyNode], "w/*", r), 0, "w/t") == None
  {
    assert "w/*" == "w" + "/" + "*";
    CompactTable("w", "*", r);
    var t := InsertNodes([EmptyNode], "w/*", r);
    ExtractShortSegment('w', "t");
    assert "w/t" == ['w', '/'] + "t";
    assert MatchFrom(t, 1, "t") == None;
  }

  // ---------------------------------------------------------------------------
  // The corrected walk

  /** insert() as evidently intended: a missing literal child takes the rest of the
      pattern as its compact tail only when that rest has no '*' segment; otherwise
      the walk goes on through a new empty child, so the '*' becomes a wildcard. */
  function InsertFromCorrected(nodes: seq<CNode>, cur: nat, path: string, route: RouteDefinition): (r: seq<CNode>)
    requires WellFormed(nodes) && cur < |nodes|
    ensures WellFormed(r) && |r| >= |nodes|
    decreases |path|
  {
    var u := Unpack(nodes, cur);
    var n := u[cur];
    if path == "" then u[cur := n.(route := route)]
    else
      var sp := ExtractFirstSegment(path);
      if sp.segment == "*" then
        if n.wildcard.Some? then InsertFromCorrected(u, n.wildcard.value, sp.rest, route)
        else InsertFromCorrected(Attach(u, cur, n.(wildcard := Some(|u|)), EmptyNode), |u|, sp.rest, route)
      else if sp.segment in n.children then InsertFromCorrected(u, n.children[sp.segment], sp.rest, route)
      else
        var updated := n.(children := n.children[sp.segment := |u|]);
        if LiteralOnly(sp.rest) then Attach(u, cur, updated, CNode(route, map[], None, sp.rest))
        else InsertFromCorrected(Attach(u, cur, updated, EmptyNode), |u|, sp.rest, route)
  }

  /** The two walks build the same table for every pattern without a '*' segment. */
  lemma {:induction false} CorrectedAgreesOnLiteral(nodes: seq<CNode>, cur: nat, path: string, route: RouteDefinition)
    requires WellFormed(nodes) && cur < |nodes| && LiteralOnly(path)
    ensures InsertFromCorrected(nodes, cur, path, route) == InsertFrom(nodes, cur, path, route)
    decreases |path|
  {
    if path != "" {
      var u := Unpack(nodes, cur);
      var sp := ExtractFirstSegment(path);
      if sp.segment in u[cur].children {
        CorrectedAgreesOnLiteral(u, u[cur].children[sp.segment], sp.rest, route);
      }
    }
  }

  /** No compact tail holds a '*' segment. */
  predicate TailsLiteral(nodes: seq<CNode>) {
    forall i :: 0 <= i < |nodes| ==> LiteralOnly(nodes[i].compact)
  }

  lemma UnpackKeepsTailsLiteral(nodes: seq<CNode>, cur: nat)
    requires WellFormed(nodes) && cur < |nodes| && TailsLiteral(nodes)
    ensures TailsLiteral(Unpack(nodes, cur))
  {
    var r := Unpack(nodes, cur);
    forall i | 0 <= i < |r| ensures LiteralOnly(r[i].compact) {
      if i < |nodes| && i != cur { assert r[i] == nodes[i]; }
    }
  }

  lemma AttachKeepsTailsLiteral(nodes: seq<CNode>, cur: nat, updated: CNode, added: CNode)
    requires WellFormed(nodes) && cur < |nodes| && TailsLiteral(nodes)
    requires LinksBelow(updated, |nodes| + 1) && LinksBelow(added, |nodes| + 1)
    requires LiteralOnly(updated.compact) && LiteralOnly(added.compact)
    ensures TailsLiteral(Attach(nodes, cur, updated, added))
  {
    var a := Attach(nodes, cur, updated, added);
    forall i | 0 <= i < |a| ensures LiteralOnly(a[i].compact) {
      if i < |nodes| && i != cur { assert a[i] == nodes[i]; }
    }
  }

  /** The corrected walk keeps every compact tail free of '*' segments. */
  lemma {:induction false} CorrectedKeepsTailsLiteral(nodes: seq<CNode>, cur: nat, path: string,
                                                      route: RouteDefinition)
    requires WellFormed(nodes) && cur < |nodes| && TailsLiteral(nodes)
    ensures TailsLiteral(InsertFromCorrected(nodes, cur, path, route))
    decreases |path|
  {
    UnpackKeepsTailsLiteral(nodes, cur);
    var u := Unpack(nodes, cur);
    assert Unpack(u, cur) == u;
    assert InsertFromCorrected(u, cur, path, route) == InsertFromCorrected(nodes, cur, path, route);
    CorrectedPlainKeepsTailsLiteral(u, cur, path, route);
  }

  /** CorrectedKeepsTailsLiteral from a node without a compact tail. */
  lemma {:induction false} CorrectedPlainKeepsTailsLiteral(u: seq<CNode>, cur: nat, path: string,
                                                           route: RouteDefinition)
    requires WellFormed(u) && cur < |u| && TailsLiteral(u) && u[cur].compact == ""
    ensures TailsLiteral(InsertFromCorrected(u, cur, path, route))
    decreases |path|, 0
  {
    var n := u[cur];
    assert Unpack(u, cur) == u;
    if path == "" {
      var r := u[cur := n.(route := route)];
      assert forall i :: 0 <= i < |r| ==> r[i].compact == u[i].compact;
    } else {
      var sp := ExtractFirstSegment(path);
      if sp.segment == "*" {
        if n.wildcard.Some? {
          CorrectedKeepsTailsLiteral(u, n.wildcard.value, sp.rest, route);
        } else {
          AttachKeepsTailsLiteral(u, cur, n.(wildcard := Some(|u|)), EmptyNode);
          CorrectedKeepsTailsLiteral(Attach(u, cur, n.(wildcard := Some(|u|)), EmptyNode), |u|, sp.rest, route);
        }
      } else if sp.segment in n.children {
        CorrectedKeepsTailsLiteral(u, n.children[sp.segment], sp.rest, route);
      } else {
        var updated := n.(children := n.children[sp.segment := |u|]);
        if LiteralOnly(sp.rest) {
          AttachKeepsTailsLiteral(u, cur, updated, CNode(route, map[], None, sp.rest));
        } else {
          AttachKeepsTailsLiteral(u, cur, updated, EmptyNode);
          CorrectedKeepsTailsLiteral(Attach(u, cur, updated, EmptyNode), |u|, sp.rest, route);
        }
      }
    }
  }

  // With the corrected walk and only "w/*" inserted, "w/t" is matched through the
  // wildcard with the capture "t", so nodeContext becomes "t".
  lemma WildcardAtEndMatches(r: RouteDefinition)
    ensures var t := InsertFromCorrected([EmptyNode], 0, "w/*", r);
            MatchFrom(t, 0, "w/t") == Some(Hit(2, ["t"], ""))
            && ContextAfter("", ["t"], "") == "t"
  {
    ExtractShortSegment('w', "*");
    ExtractLastShortSegment('*');
    ExtractLastShortSegment('t');
    assert "w/*" == ['w', '/'] + "*";
    var root := CNode(null, map["w" := 1], None, "");
    var t1 := [root, EmptyNode];
    var n1 := CNode(null, map[], Some(2), "");
    var t := [root, n1, CNode(r, map[], None, "")];
    assert !LiteralOnly("*");
    assert InsertFromCorrected(t1, 1, "*", r) == t;
    assert InsertFromCorrected([EmptyNode], 0, "w/*", r) == t;
    ExtractShortSegment('w', "t");
    assert "w/t" == ['w', '/'] + "t";
    assert MatchFrom(t, 2, "") == Some(Hit(2, [], ""));
    assert ["t"] + [] == ["t"];
    assert MatchFrom(t, 1, "t") == Some(Hit(2, ["t"], ""));
  }
}
