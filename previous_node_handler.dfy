/** The plain segment trie (src/Foundation/PreviousNodeHandler.php): literal children
    keyed by segment and at most one wildcard child per node.

    The PHP nodes are objects linked by references; here they live in one table
    `nodes` owned by the trie, a node's identity is its index and node 0 is the root.
    The matched route's `nodeContext`, the side channel match() writes to, is a field of
    the route objects that the nodes refer to. */
module PreviousNodeHandler {
  import opened Wrappers
  import opened PhpString
  import opened RouteUtility
  import opened RouteDefinition
  import opened TrieMatch

  datatype PNode = PNode(route: RouteDefinition?, children: map<string, nat>, wildcard: Option<nat>)

  const EmptyNode: PNode := PNode(null, map[], None)

  predicate LinksBelow(n: PNode, bound: nat) {
    (forall s :: s in n.children ==> n.children[s] < bound)
    && (n.wildcard.Some? ==> n.wildcard.value < bound)
  }

  /** Every child and wildcard reference points into the table, which has a root. */
  predicate WellFormed(nodes: seq<PNode>) {
    |nodes| > 0 && forall i :: 0 <= i < |nodes| ==> LinksBelow(nodes[i], |nodes|)
  }

  // ---------------------------------------------------------------------------
  // insert()

  /** The node with a new reference to index `target` under `seg`. */
  function Linked(n: PNode, seg: Seg, target: nat): PNode {
    if seg.Wild? then n.(wildcard := Some(target)) else n.(children := n.children[seg.text := target])
  }

  /** The table after one insert() step and the node the step moves to. */
  datatype Step = Step(nodes: seq<PNode>, next: nat)

  /** One insert() step from `cur` over `seg`: an existing child (or wildcard) is
      reused, a missing one is created empty (`??=`). */
  function Descend(nodes: seq<PNode>, cur: nat, seg: Seg): (r: Step)
    requires WellFormed(nodes) && cur < |nodes|
    ensures WellFormed(r.nodes) && r.next < |r.nodes|
    ensures |r.nodes| == |nodes| || |r.nodes| == |nodes| + 1
  {
    var n := nodes[cur];
    var existing := match seg
      case Wild => n.wildcard
      case Lit(s) => if s in n.children then Some(n.children[s]) else None;
    if existing.Some? then Step(nodes, existing.value)
    else
      var r := nodes[cur := Linked(n, seg, |nodes|)] + [EmptyNode];
      assert forall i :: 0 <= i < |r| ==> LinksBelow(r[i], |r|) by {
        forall i | 0 <= i < |r| ensures LinksBelow(r[i], |r|) {
          if i < |nodes| && i != cur { assert r[i] == nodes[i]; }
        }
      }
      Step(r, |nodes|)
  }

  /** The table after the insert() walk from node `cur` over the rest `path`; the node
      reached when the path is used up gets the route. */
  function InsertFrom(nodes: seq<PNode>, cur: nat, path: string, route: RouteDefinition): (r: seq<PNode>)
    requires WellFormed(nodes) && cur < |nodes|
    ensures WellFormed(r) && |r| >= |nodes|
    decreases |path|
  {
    if path == "" then nodes[cur := nodes[cur].(route := route)]
    else
      var sp := ExtractFirstSegment(path);
      var st := Descend(nodes, cur, ToSeg(sp.segment));
      InsertFrom(st.nodes, st.next, sp.rest, route)
  }

  function InsertNodes(nodes: seq<PNode>, path: string, route: RouteDefinition): seq<PNode>
    requires WellFormed(nodes)
  {
    InsertFrom(nodes, 0, path, route)
  }

  /** The node the insert() walk ends at. */
  function InsertTarget(nodes: seq<PNode>, cur: nat, path: string): (t: nat)
    requires WellFormed(nodes) && cur < |nodes|
    decreases |path|
  {
    if path == "" then cur
    else
      var sp := ExtractFirstSegment(path);
      var st := Descend(nodes, cur, ToSeg(sp.segment));
      InsertTarget(st.nodes, st.next, sp.rest)
  }

  // ---------------------------------------------------------------------------
  // match()

  function Terminal(nodes: seq<PNode>, cur: nat, leftover: string): (r: Option<Hit>)
    requires cur < |nodes|
  {
    if nodes[cur].route == null then None else Some(Hit(cur, [], leftover))
  }

  /** The result of match() from node `cur`: an existing literal child is always taken;
      otherwise the wildcard child is tried on the rest and, when that fails, the
      segment is restored and the walk stops at `cur`. */
  function MatchFrom(nodes: seq<PNode>, cur: nat, path: string): (r: Option<Hit>)
    requires WellFormed(nodes) && cur < |nodes|
    ensures r.Some? ==> r.value.node < |nodes| && nodes[r.value.node].route != null
    decreases |path|
  {
    if path == "" then Terminal(nodes, cur, "")
    else
      var sp := ExtractFirstSegment(path);
      var n := nodes[cur];
      if sp.segment in n.children then MatchFrom(nodes, n.children[sp.segment], sp.rest)
      else if n.wildcard.Some? && MatchFrom(nodes, n.wildcard.value, sp.rest).Some? then
        var h := MatchFrom(nodes, n.wildcard.value, sp.rest).value;
        Some(h.(captures := [sp.segment] + h.captures))
      else Terminal(nodes, cur, PrependSegment(sp.rest, sp.segment))
  }

  class PreviousNodeHandler {
    var nodes: seq<PNode>
    /** The segment path from the root to each node. */
    ghost var labels: seq<seq<Seg>>

    ghost predicate Valid()
      reads this
    {
      WellFormed(nodes) && Labeled(nodes, labels)
    }

    /** The routes the nodes refer to: the objects match() may write to. */
    function Routes(): set<RouteDefinition>
      reads this
    {
      set i | 0 <= i < |nodes| && nodes[i].route != null :: nodes[i].route
    }

    constructor ()
      ensures Valid() && nodes == [EmptyNode]
    {
      nodes := [EmptyNode];
      labels := [[]];
    }

    /** insert(). */
    method Insert(path: string, route: RouteDefinition)
      requires Valid()
      modifies this
      ensures Valid()
      ensures nodes == InsertNodes(old(nodes), path, route)
    {
      var currentNode: nat := 0;
      var p := path;
      while p != ""
        invariant WellFormed(nodes) && currentNode < |nodes|
        invariant InsertFrom(nodes, currentNode, p, route) == InsertNodes(old(nodes), path, route)
        decreases |p|
      {
        var sp := ExtractFirstSegment(p);
        ghost var st := Descend(nodes, currentNode, ToSeg(sp.segment));
        p := sp.rest;
        var n := nodes[currentNode];
        if sp.segment == "*" {
          if n.wildcard.None? {
            nodes := nodes[currentNode := n.(wildcard := Some(|nodes|))] + [EmptyNode];
          }
          currentNode := nodes[currentNode].wildcard.value;
        } else {
          if sp.segment !in n.children {
            nodes := nodes[currentNode := n.(children := n.children[sp.segment := |nodes|])] + [EmptyNode];
          }
          currentNode := nodes[currentNode].children[sp.segment];
        }
        assert nodes == st.nodes && currentNode == st.next;
      }
      nodes := nodes[currentNode := nodes[currentNode].(route := route)];
      labels := InsertLabels(old(nodes), old(labels), 0, path);
      InsertKeepsLabeled(old(nodes), old(labels), 0, path, route);
    }

    /** match() from the root. */
    method Match(path: string) returns (r: RouteDefinition?)
      requires Valid()
      modifies Routes()`nodeContext
      ensures MatchFrom(nodes, 0, path).None? ==> r == null
      ensures MatchFrom(nodes, 0, path).Some? ==>
                var h := MatchFrom(nodes, 0, path).value;
                r == nodes[h.node].route
                && r.nodeContext == ContextAfter(old(r.nodeContext), h.captures, h.leftover)
      ensures forall o :: o in Routes() && o != r ==> o.nodeContext == old(o.nodeContext)
    {
      r := MatchAt(0, path);
    }

    /** match() on node `at`: the method the wildcard attempt calls recursively. */
    method MatchAt(at: nat, path: string) returns (r: RouteDefinition?)
      requires Valid() && at < |nodes|
      modifies Routes()`nodeContext
      ensures MatchFrom(nodes, at, path).None? ==> r == null
      ensures MatchFrom(nodes, at, path).Some? ==>
                var h := MatchFrom(nodes, at, path).value;
                r == nodes[h.node].route
                && r.nodeContext == ContextAfter(old(r.nodeContext), h.captures, h.leftover)
      ensures forall o :: o in Routes() && o != r ==> o.nodeContext == old(o.nodeContext)
      decreases |path|
    {
      var currentNode: nat := at;
      var p := path;
      while p != ""
        invariant currentNode < |nodes| && |p| <= |path|
        invariant MatchFrom(nodes, currentNode, p) == MatchFrom(nodes, at, path)
        invariant forall o :: o in Routes() ==> o.nodeContext == old(o.nodeContext)
        decreases |p|
      {
        var sp := ExtractFirstSegment(p);
        var n := nodes[currentNode];
        if sp.segment in n.children {
          currentNode := n.children[sp.segment];
          p := sp.rest;
          continue;
        }
        if n.wildcard.Some? {
          var route := MatchAt(n.wildcard.value, sp.rest);
          if route != null {
            route.nodeContext := PrependSegment(route.nodeContext, sp.segment);
            return route;
          }
        }
        p := PrependSegment(sp.rest, sp.segment);
        break;
      }
      assert MatchFrom(nodes, at, path) == Terminal(nodes, currentNode, p);
      r := nodes[currentNode].route;
      if r != null && p != "" {
        r.nodeContext := AppendSegment(r.nodeContext, p);
      }
    }
  }

  // ---------------------------------------------------------------------------
  // The routes a table stores, by segment path

  /** Follow a segment path from node `n`: literals through children, `*` through the
      wildcard child. */
  function Walk(nodes: seq<PNode>, n: nat, segs: seq<Seg>): (r: Option<nat>)
    requires WellFormed(nodes) && n < |nodes|
    ensures r.Some? ==> r.value < |nodes|
    decreases |segs|
  {
    if segs == [] then Some(n)
    else match segs[0]
      case Lit(s) =>
        if s in nodes[n].children then Walk(nodes, nodes[n].children[s], segs[1..]) else None
      case Wild =>
        if nodes[n].wildcard.Some? then Walk(nodes, nodes[n].wildcard.value, segs[1..]) else None
  }

  /** The route stored under a segment path, or null. */
  function StoredRoute(nodes: seq<PNode>, segs: seq<Seg>): RouteDefinition?
    requires WellFormed(nodes)
  {
    match Walk(nodes, 0, segs)
    case None => null
    case Some(k) => nodes[k].route
  }

  /** Each node carries the segment path it hangs under, and is reached from the root
      by that path. */
  ghost predicate Labeled(nodes: seq<PNode>, labels: seq<seq<Seg>>)
  {
    LabelsLinked(nodes, labels)
    && forall i :: 0 <= i < |nodes| ==> Walk(nodes, 0, labels[i]) == Some(i)
  }

  /** The root's label is empty and each reference adds its segment to the label. */
  ghost predicate LabelsLinked(nodes: seq<PNode>, labels: seq<seq<Seg>>)
  {
    && WellFormed(nodes)
    && |labels| == |nodes|
    && labels[0] == []
    && (forall i, s :: 0 <= i < |nodes| && s in nodes[i].children ==>
          labels[nodes[i].children[s]] == labels[i] + [Lit(s)])
    && (forall i :: 0 <= i < |nodes| && nodes[i].wildcard.Some? ==>
          labels[nodes[i].wildcard.value] == labels[i] + [Wild])
  }

  /** `b` keeps every child and wildcard reference of `a`. */
  ghost predicate Extends(a: seq<PNode>, b: seq<PNode>) {
    |a| <= |b|
    && forall i :: 0 <= i < |a| ==>
         (forall s :: s in a[i].children ==> s in b[i].children && b[i].children[s] == a[i].children[s])
         && (a[i].wildcard.Some? ==> b[i].wildcard == a[i].wildcard)
  }

  lemma ExtendsTransitive(a: seq<PNode>, b: seq<PNode>, c: seq<PNode>)
    requires Extends(a, b) && Extends(b, c)
    ensures Extends(a, c)
  {
  }

  lemma {:induction false} WalkExtends(a: seq<PNode>, b: seq<PNode>, n: nat, segs: seq<Seg>)
    requires WellFormed(a) && WellFormed(b) && Extends(a, b) && n < |a|
    requires Walk(a, n, segs).Some?
    ensures Walk(b, n, segs) == Walk(a, n, segs)
    decreases |segs|
  {
    if segs != [] {
      match segs[0]
      case Lit(s) => WalkExtends(a, b, a[n].children[s], segs[1..]);
      case Wild => WalkExtends(a, b, a[n].wildcard.value, segs[1..]);
    }
  }

  lemma {:induction false} WalkAppend(nodes: seq<PNode>, n: nat, xs: seq<Seg>, ys: seq<Seg>)
    requires WellFormed(nodes) && n < |nodes|
    ensures Walk(nodes, n, xs + ys) ==
              match Walk(nodes, n, xs) case None => None case Some(m) => Walk(nodes, m, ys)
    decreases |xs|
  {
    if xs != [] {
      assert (xs + ys)[0] == xs[0] && (xs + ys)[1..] == xs[1..] + ys;
      match xs[0]
      case Lit(s) =>
        if s in nodes[n].children { WalkAppend(nodes, nodes[n].children[s], xs[1..], ys); }
      case Wild =>
        if nodes[n].wildcard.Some? { WalkAppend(nodes, nodes[n].wildcard.value, xs[1..], ys); }
    } else {
      assert xs + ys == ys;
    }
  }

  /** Walking from a labeled node adds the walked path to its label. */
  lemma {:induction false} WalkLabel(nodes: seq<PNode>, labels: seq<seq<Seg>>, n: nat, segs: seq<Seg>)
    requires Labeled(nodes, labels) && n < |nodes|
    requires Walk(nodes, n, segs).Some?
    ensures labels[Walk(nodes, n, segs).value] == labels[n] + segs
    decreases |segs|
  {
    if segs == [] {
      assert labels[n] + segs == labels[n];
    } else {
      var next := match segs[0]
        case Lit(s) => nodes[n].children[s]
        case Wild => nodes[n].wildcard.value;
      assert labels[next] == labels[n] + [segs[0]];
      WalkLabel(nodes, labels, next, segs[1..]);
      assert labels[n] + [segs[0]] + segs[1..] == labels[n] + segs;
    }
  }

  /** Adding one fresh empty node under `cur` by segment `seg` keeps the labeling. */
  lemma AddChildKeepsLinked(nodes: seq<PNode>, labels: seq<seq<Seg>>, cur: nat, seg: Seg,
                            nodes': seq<PNode>)
    requires LabelsLinked(nodes, labels) && cur < |nodes|
    requires seg.Lit? ==> seg.text !in nodes[cur].children
    requires seg.Wild? ==> nodes[cur].wildcard.None?
    requires nodes' == nodes[cur := Linked(nodes[cur], seg, |nodes|)] + [EmptyNode]
    ensures WellFormed(nodes') && Extends(nodes, nodes')
    ensures LabelsLinked(nodes', labels + [labels[cur] + [seg]])
  {
    var labels' := labels + [labels[cur] + [seg]];
    assert LinksBelow(nodes'[cur], |nodes'|);
    forall i | 0 <= i < |nodes'| ensures LinksBelow(nodes'[i], |nodes'|) {
      if i != cur && i < |nodes| { assert nodes'[i] == nodes[i]; }
    }
    assert WellFormed(nodes');
    assert Extends(nodes, nodes');
    forall i, s | 0 <= i < |nodes'| && s in nodes'[i].children
      ensures labels'[nodes'[i].children[s]] == labels'[i] + [Lit(s)]
    {
      if i == cur && seg == Lit(s) {
      } else {
        assert i < |nodes| && s in nodes[i].children && nodes'[i].children[s] == nodes[i].children[s];
      }
    }
    forall i | 0 <= i < |nodes'| && nodes'[i].wildcard.Some?
      ensures labels'[nodes'[i].wildcard.value] == labels'[i] + [Wild]
    {
      if i == cur && seg == Wild {
      } else {
        assert i < |nodes| && nodes'[i].wildcard == nodes[i].wildcard;
      }
    }
  }

  /** Adding one fresh empty node under `cur` by segment `seg` keeps the labeling. */
  lemma AddChildKeepsLabeled(nodes: seq<PNode>, labels: seq<seq<Seg>>, cur: nat, seg: Seg,
                             nodes': seq<PNode>)
    requires Labeled(nodes, labels) && cur < |nodes|
    requires seg.Lit? ==> seg.text !in nodes[cur].children
    requires seg.Wild? ==> nodes[cur].wildcard.None?
    requires nodes' == nodes[cur := Linked(nodes[cur], seg, |nodes|)] + [EmptyNode]
    ensures WellFormed(nodes') && Extends(nodes, nodes')
    ensures Labeled(nodes', labels + [labels[cur] + [seg]])
  {
    var labels' := labels + [labels[cur] + [seg]];
    AddChildKeepsLinked(nodes, labels, cur, seg, nodes');
    forall i | 0 <= i < |nodes'|
      ensures Walk(nodes', 0, labels'[i]) == Some(i)
    {
      if i < |nodes| {
        WalkExtends(nodes, nodes', 0, labels[i]);
      } else {
        WalkExtends(nodes, nodes', 0, labels[cur]);
        WalkAppend(nodes', 0, labels[cur], [seg]);
      }
    }
  }

  /** Setting a node's route keeps the labeling. */
  lemma SetRouteKeepsLabeled(nodes: seq<PNode>, labels: seq<seq<Seg>>, cur: nat, route: RouteDefinition)
    requires Labeled(nodes, labels) && cur < |nodes|
    ensures Labeled(nodes[cur := nodes[cur].(route := route)], labels)
    ensures Extends(nodes, nodes[cur := nodes[cur].(route := route)])
  {
    var nodes' := nodes[cur := nodes[cur].(route := route)];
    assert Extends(nodes, nodes');
    assert Extends(nodes', nodes);
    forall i | 0 <= i < |nodes'|
      ensures Walk(nodes', 0, labels[i]) == Some(i)
    {
      WalkExtends(nodes, nodes', 0, labels[i]);
    }
  }

  /** The labeling after one step: the new node, if any, hangs under `seg`. */
  ghost function StepLabels(nodes: seq<PNode>, labels: seq<seq<Seg>>, cur: nat, seg: Seg): seq<seq<Seg>>
    requires WellFormed(nodes) && cur < |nodes| && cur < |labels|
  {
    if |Descend(nodes, cur, seg).nodes| > |nodes| then labels + [labels[cur] + [seg]] else labels
  }

  /** One step keeps the labeling. */
  lemma DescendKeepsLabeled(nodes: seq<PNode>, labels: seq<seq<Seg>>, cur: nat, seg: Seg)
    requires Labeled(nodes, labels) && cur < |nodes|
    ensures var st := Descend(nodes, cur, seg);
            var labels' := StepLabels(nodes, labels, cur, seg);
            Labeled(st.nodes, labels') && labels'[..|nodes|] == labels
            && labels'[st.next] == labels[cur] + [seg]
  {
    var st := Descend(nodes, cur, seg);
    if st.nodes != nodes {
      AddChildKeepsLabeled(nodes, labels, cur, seg, st.nodes);
      assert (labels + [labels[cur] + [seg]])[..|nodes|] == labels;
    }
  }

  /** The insert() walk keeps every reference of the table. */
  lemma {:induction false} InsertFromExtends(nodes: seq<PNode>, cur: nat, path: string, route: RouteDefinition)
    requires WellFormed(nodes) && cur < |nodes|
    ensures Extends(nodes, InsertFrom(nodes, cur, path, route))
    decreases |path|
  {
    if path != "" {
      var sp := ExtractFirstSegment(path);
      var st := Descend(nodes, cur, ToSeg(sp.segment));
      InsertFromExtends(st.nodes, st.next, sp.rest, route);
      InsertExtendsStep(nodes, cur, path, route);
    }
  }

  /** One step keeps every reference of the table. */
  lemma DescendExtends(nodes: seq<PNode>, cur: nat, seg: Seg)
    requires WellFormed(nodes) && cur < |nodes|
    ensures Extends(nodes, Descend(nodes, cur, seg).nodes)
  {
    var st := Descend(nodes, cur, seg);
    forall i | 0 <= i < |nodes|
      ensures (forall s :: s in nodes[i].children ==> s in st.nodes[i].children && st.nodes[i].children[s] == nodes[i].children[s])
              && (nodes[i].wildcard.Some? ==> st.nodes[i].wildcard == nodes[i].wildcard)
    {
      if i != cur { assert st.nodes[i] == nodes[i]; }
    }
  }

  /** InsertFromExtends for a non-empty path, from InsertFromExtends for its rest. */
  lemma InsertExtendsStep(nodes: seq<PNode>, cur: nat, path: string, route: RouteDefinition)
    requires WellFormed(nodes) && cur < |nodes| && path != ""
    requires var sp := ExtractFirstSegment(path);
             var st := Descend(nodes, cur, ToSeg(sp.segment));
             Extends(st.nodes, InsertFrom(st.nodes, st.next, sp.rest, route))
    ensures Extends(nodes, InsertFrom(nodes, cur, path, route))
  {
    var sp := ExtractFirstSegment(path);
    var st := Descend(nodes, cur, ToSeg(sp.segment));
    InsertUnfold(nodes, cur, path, route);
    DescendExtends(nodes, cur, ToSeg(sp.segment));
    ExtendsTransitive(nodes, st.nodes, InsertFrom(st.nodes, st.next, sp.rest, route));
  }

  /** One step of the insert() walk unfolded, for the walk and for its target. */
  lemma InsertUnfold(nodes: seq<PNode>, cur: nat, path: string, route: RouteDefinition)
    requires WellFormed(nodes) && cur < |nodes| && path != ""
    ensures var sp := ExtractFirstSegment(path);
            var st := Descend(nodes, cur, ToSeg(sp.segment));
            InsertFrom(nodes, cur, path, route) == InsertFrom(st.nodes, st.next, sp.rest, route)
            && InsertTarget(nodes, cur, path) == InsertTarget(st.nodes, st.next, sp.rest)
  {
  }

  /** The routes in the table after insert(): the target holds the route, old nodes
      keep theirs and new nodes have none. */
  ghost predicate RoutesAfter(nodes: seq<PNode>, r: seq<PNode>, t: nat, route: RouteDefinition) {
    t < |r| && r[t].route == route
    && (forall k :: 0 <= k < |r| && k != t ==> r[k].route == (if k < |nodes| then nodes[k].route else null))
  }

  /** One step changes no route; a node it creates has none. */
  lemma DescendRoutes(nodes: seq<PNode>, cur: nat, seg: Seg)
    requires WellFormed(nodes) && cur < |nodes|
    ensures var st := Descend(nodes, cur, seg);
            forall k :: 0 <= k < |st.nodes| ==> st.nodes[k].route == (if k < |nodes| then nodes[k].route else null)
  {
  }

  /** The insert() walk gives its target the route and changes no other node's route;
      the nodes it creates have none. */
  lemma {:induction false} InsertFromRoutes(nodes: seq<PNode>, cur: nat, path: string, route: RouteDefinition)
    requires WellFormed(nodes) && cur < |nodes|
    ensures RoutesAfter(nodes, InsertFrom(nodes, cur, path, route), InsertTarget(nodes, cur, path), route)
    decreases |path|
  {
    if path != "" {
      var sp := ExtractFirstSegment(path);
      var st := Descend(nodes, cur, ToSeg(sp.segment));
      InsertFromRoutes(st.nodes, st.next, sp.rest, route);
      InsertUnfold(nodes, cur, path, route);
      DescendRoutes(nodes, cur, ToSeg(sp.segment));
      RoutesAfterStep(nodes, st.nodes, InsertFrom(st.nodes, st.next, sp.rest, route),
                      InsertTarget(st.nodes, st.next, sp.rest), route);
    }
  }

  /** RoutesAfter through one step that changes no route. */
  lemma RoutesAfterStep(nodes: seq<PNode>, mid: seq<PNode>, r: seq<PNode>, t: nat, route: RouteDefinition)
    requires |nodes| <= |mid|
    requires forall k :: 0 <= k < |mid| ==> mid[k].route == (if k < |nodes| then nodes[k].route else null)
    requires RoutesAfter(mid, r, t, route)
    ensures RoutesAfter(nodes, r, t, route)
  {
    forall k | 0 <= k < |r| && k != t
      ensures r[k].route == (if k < |nodes| then nodes[k].route else null)
    {
      assert r[k].route == (if k < |mid| then mid[k].route else null);
    }
  }

  /** The labeling after the insert() walk. */
  ghost function InsertLabels(nodes: seq<PNode>, labels: seq<seq<Seg>>, cur: nat, path: string): seq<seq<Seg>>
    requires WellFormed(nodes) && cur < |nodes| && |labels| == |nodes|
    decreases |path|
  {
    if path == "" then labels
    else
      var sp := ExtractFirstSegment(path);
      var seg := ToSeg(sp.segment);
      var st := Descend(nodes, cur, seg);
      var labels1 := StepLabels(nodes, labels, cur, seg);
      if |labels1| == |st.nodes| then InsertLabels(st.nodes, labels1, st.next, sp.rest) else labels
  }

  /** One step of InsertLabels unfolded. */
  lemma LabelsUnfold(nodes: seq<PNode>, labels: seq<seq<Seg>>, cur: nat, path: string)
    requires WellFormed(nodes) && cur < |nodes| && |labels| == |nodes| && path != ""
    ensures var sp := ExtractFirstSegment(path);
            var seg := ToSeg(sp.segment);
            var st := Descend(nodes, cur, seg);
            var labels1 := StepLabels(nodes, labels, cur, seg);
            |labels1| == |st.nodes| && labels1[..|nodes|] == labels
            && InsertLabels(nodes, labels, cur, path) == InsertLabels(st.nodes, labels1, st.next, sp.rest)
  {
    var seg := ToSeg(ExtractFirstSegment(path).segment);
    if |Descend(nodes, cur, seg).nodes| > |nodes| {
      assert (labels + [labels[cur] + [seg]])[..|nodes|] == labels;
    }
  }

  /** insert() keeps the labeling, which is the trie's structural invariant. */
  lemma {:induction false} InsertKeepsLabeled(nodes: seq<PNode>, labels: seq<seq<Seg>>, cur: nat,
                                              path: string, route: RouteDefinition)
    requires Labeled(nodes, labels) && cur < |nodes|
    ensures Labeled(InsertFrom(nodes, cur, path, route), InsertLabels(nodes, labels, cur, path))
    decreases |path|
  {
    if path == "" {
      SetRouteKeepsLabeled(nodes, labels, cur, route);
    } else {
      var sp := ExtractFirstSegment(path);
      var seg := ToSeg(sp.segment);
      var st := Descend(nodes, cur, seg);
      DescendKeepsLabeled(nodes, labels, cur, seg);
      InsertKeepsLabeled(st.nodes, StepLabels(nodes, labels, cur, seg), st.next, sp.rest, route);
    }
  }

  /** The labeling after insert() extends the old one. */
  lemma {:induction false} InsertLabelsPrefix(nodes: seq<PNode>, labels: seq<seq<Seg>>, cur: nat, path: string)
    requires WellFormed(nodes) && cur < |nodes| && |labels| == |nodes|
    ensures var labels' := InsertLabels(nodes, labels, cur, path);
            |labels| <= |labels'| && labels'[..|nodes|] == labels
    decreases |path|
  {
    if path != "" {
      var sp := ExtractFirstSegment(path);
      var seg := ToSeg(sp.segment);
      var st := Descend(nodes, cur, seg);
      var labels1 := StepLabels(nodes, labels, cur, seg);
      LabelsUnfold(nodes, labels, cur, path);
      InsertLabelsPrefix(st.nodes, labels1, st.next, sp.rest);
      var labels' := InsertLabels(st.nodes, labels1, st.next, sp.rest);
      assert labels'[..|nodes|] == labels1[..|st.nodes|][..|nodes|];
    }
  }

  /** The reference from node `n` under `seg` is `m`. */
  predicate Links(n: PNode, seg: Seg, m: nat) {
    if seg.Wild? then n.wildcard == Some(m) else seg.text in n.children && n.children[seg.text] == m
  }

  /** One step leaves `cur` referring to the node it moves to. */
  lemma DescendLinks(nodes: seq<PNode>, cur: nat, seg: Seg)
    requires WellFormed(nodes) && cur < |nodes|
    ensures var st := Descend(nodes, cur, seg); Links(st.nodes[cur], seg, st.next)
  {
  }

  /** A reference survives in a table that extends this one. */
  lemma ExtendsLinks(a: seq<PNode>, b: seq<PNode>, i: nat, seg: Seg, m: nat)
    requires Extends(a, b) && i < |a| && Links(a[i], seg, m)
    ensures Links(b[i], seg, m)
  {
  }

  /** A walk follows the reference under its first segment. */
  lemma WalkOne(nodes: seq<PNode>, cur: nat, seg: Seg, m: nat, tail: seq<Seg>)
    requires WellFormed(nodes) && cur < |nodes| && m < |nodes| && Links(nodes[cur], seg, m)
    ensures Walk(nodes, cur, [seg] + tail) == Walk(nodes, m, tail)
  {
    assert ([seg] + tail)[0] == seg && ([seg] + tail)[1..] == tail;
  }

  /** The insert() walk's target is reached from where it started by the pattern's
      segments. */
  lemma {:induction false} InsertWalks(nodes: seq<PNode>, cur: nat, path: string, route: RouteDefinition)
    requires WellFormed(nodes) && cur < |nodes|
    ensures InsertTarget(nodes, cur, path) < |InsertFrom(nodes, cur, path, route)|
    ensures Walk(InsertFrom(nodes, cur, path, route), cur, PatternSegs(path)) == Some(InsertTarget(nodes, cur, path))
    decreases |path|
  {
    if path != "" {
      var sp := ExtractFirstSegment(path);
      var st := Descend(nodes, cur, ToSeg(sp.segment));
      InsertWalks(st.nodes, st.next, sp.rest, route);
      InsertWalksStep(nodes, cur, path, route);
    }
  }

  /** InsertWalks for a non-empty path, from InsertWalks for its rest. */
  lemma InsertWalksStep(nodes: seq<PNode>, cur: nat, path: string, route: RouteDefinition)
    requires WellFormed(nodes) && cur < |nodes| && path != ""
    requires var sp := ExtractFirstSegment(path);
             var st := Descend(nodes, cur, ToSeg(sp.segment));
             var r := InsertFrom(st.nodes, st.next, sp.rest, route);
             InsertTarget(st.nodes, st.next, sp.rest) < |r|
             && Walk(r, st.next, PatternSegs(sp.rest)) == Some(InsertTarget(st.nodes, st.next, sp.rest))
    ensures InsertTarget(nodes, cur, path) < |InsertFrom(nodes, cur, path, route)|
    ensures Walk(InsertFrom(nodes, cur, path, route), cur, PatternSegs(path)) == Some(InsertTarget(nodes, cur, path))
  {
    var sp := ExtractFirstSegment(path);
    var seg := ToSeg(sp.segment);
    var st := Descend(nodes, cur, seg);
    var r := InsertFrom(st.nodes, st.next, sp.rest, route);
    InsertUnfold(nodes, cur, path, route);
    InsertFromExtends(st.nodes, st.next, sp.rest, route);
    DescendLinks(nodes, cur, seg);
    ExtendsLinks(st.nodes, r, cur, seg, st.next);
    WalkOne(r, cur, seg, st.next, PatternSegs(sp.rest));
    assert PatternSegs(path) == [seg] + PatternSegs(sp.rest);
  }

  /** What insert() does to the table, stated over its labeling: the labeling extends,
      old references stay, the target is reached by the pattern's segments and holds the
      route, and no other node's route changes (new nodes have none). */
  lemma InsertFromFacts(nodes: seq<PNode>, labels: seq<seq<Seg>>, cur: nat, path: string,
                        route: RouteDefinition)
    requires Labeled(nodes, labels) && cur < |nodes|
    ensures var r := InsertFrom(nodes, cur, path, route);
            var t := InsertTarget(nodes, cur, path);
            var labels' := InsertLabels(nodes, labels, cur, path);
            Labeled(r, labels') && labels'[..|nodes|] == labels && Extends(nodes, r)
            && t < |r| && r[t].route == route
            && labels'[t] == labels[cur] + PatternSegs(path)
            && (forall k :: 0 <= k < |r| && k != t ==>
                  r[k].route == (if k < |nodes| then nodes[k].route else null))
  {
    InsertKeepsLabeled(nodes, labels, cur, path, route);
    InsertLabelsPrefix(nodes, labels, cur, path);
    InsertFromExtends(nodes, cur, path, route);
    InsertFromRoutes(nodes, cur, path, route);
    InsertWalks(nodes, cur, path, route);
    WalkLabel(InsertFrom(nodes, cur, path, route), InsertLabels(nodes, labels, cur, path), cur, PatternSegs(path));
  }

  /** insert(p, r) stores r under p's segments and changes the route stored under no
      other segment path. */
  lemma InsertStores(nodes: seq<PNode>, labels: seq<seq<Seg>>, path: string, route: RouteDefinition,
                     segs: seq<Seg>)
    requires Labeled(nodes, labels)
    ensures StoredRoute(InsertNodes(nodes, path, route), segs) ==
              if segs == PatternSegs(path) then route else StoredRoute(nodes, segs)
  {
    var r := InsertNodes(nodes, path, route);
    var t := InsertTarget(nodes, 0, path);
    var labels' := InsertLabels(nodes, labels, 0, path);
    InsertFromFacts(nodes, labels, 0, path, route);
    assert labels'[t] == PatternSegs(path);
    assert Walk(r, 0, labels'[t]) == Some(t);
    if segs != PatternSegs(path) {
      match Walk(r, 0, segs)
      case None =>
        if Walk(nodes, 0, segs).Some? { WalkExtends(nodes, r, 0, segs); }
      case Some(k) =>
        WalkLabel(r, labels', 0, segs);
        assert labels'[k] == segs;
        assert k != t;
        if k < |nodes| {
          assert labels[k] == segs;
          assert Walk(nodes, 0, segs) == Some(k);
        } else if Walk(nodes, 0, segs).Some? {
          WalkExtends(nodes, r, 0, segs);
        }
    }
  }

  /** A literal-only path reaching a node with a route is matched there, with no
      captures and no leftover. */
  lemma {:induction false} LiteralWalkMatches(nodes: seq<PNode>, n: nat, path: string)
    requires WellFormed(nodes) && n < |nodes| && LiteralOnly(path)
    requires Walk(nodes, n, PatternSegs(path)).Some?
    requires nodes[Walk(nodes, n, PatternSegs(path)).value].route != null
    ensures MatchFrom(nodes, n, path) == Some(Hit(Walk(nodes, n, PatternSegs(path)).value, [], ""))
    decreases |path|
  {
    if path != "" {
      var sp := ExtractFirstSegment(path);
      assert PatternSegs(path) == [Lit(sp.segment)] + PatternSegs(sp.rest);
      LiteralWalkMatches(nodes, nodes[n].children[sp.segment], sp.rest);
    }
  }

  /** For a literal-only pattern, insert followed by match gives the route back, with
      nothing captured and nothing left over, so nodeContext is not touched. */
  lemma InsertThenMatch(nodes: seq<PNode>, labels: seq<seq<Seg>>, path: string, route: RouteDefinition)
    requires Labeled(nodes, labels) && LiteralOnly(path)
    ensures var r := InsertNodes(nodes, path, route);
            MatchFrom(r, 0, path).Some?
            && r[MatchFrom(r, 0, path).value.node].route == route
            && MatchFrom(r, 0, path).value.captures == []
            && MatchFrom(r, 0, path).value.leftover == ""
  {
    var r := InsertNodes(nodes, path, route);
    var t := InsertTarget(nodes, 0, path);
    var labels' := InsertLabels(nodes, labels, 0, path);
    InsertFromFacts(nodes, labels, 0, path, route);
    assert Walk(r, 0, labels'[t]) == Some(t);
    assert labels'[t] == PatternSegs(path);
    LiteralWalkMatches(r, 0, path);
  }

  /** The table after inserting a history of registrations into an empty trie. */
  function Build(history: seq<Insertion>): (r: seq<PNode>)
    ensures WellFormed(r)
  {
    if history == [] then [EmptyNode]
    else InsertNodes(Build(history[..|history| - 1]), history[|history| - 1].path, history[|history| - 1].route)
  }

  /** The route of the most recent registration whose pattern has these segments. */
  function LastRouteAt(history: seq<Insertion>, segs: seq<Seg>): RouteDefinition? {
    if history == [] then null
    else if PatternSegs(history[|history| - 1].path) == segs then history[|history| - 1].route
    else LastRouteAt(history[..|history| - 1], segs)
  }

  lemma {:induction false} BuildStores(history: seq<Insertion>, segs: seq<Seg>)
    returns (labels: seq<seq<Seg>>)
    ensures Labeled(Build(history), labels)
    ensures StoredRoute(Build(history), segs) == LastRouteAt(history, segs)
  {
    if history == [] {
      labels := [[]];
      assert Walk([EmptyNode], 0, []) == Some(0);
      assert Labeled([EmptyNode], labels);
    } else {
      var prefix := history[..|history| - 1];
      var last := history[|history| - 1];
      var l0 := BuildStores(prefix, segs);
      InsertStores(Build(prefix), l0, last.path, last.route, segs);
      labels := InsertLabels(Build(prefix), l0, 0, last.path);
      InsertKeepsLabeled(Build(prefix), l0, 0, last.path, last.route);
    }
  }

  /** After any sequence of inserts, matching a literal-only path returns the route most
      recently inserted under its segments, with nothing captured or left over. */
  lemma MatchReturnsLastInserted(history: seq<Insertion>, path: string)
    requires LiteralOnly(path) && LastRouteAt(history, PatternSegs(path)) != null
    ensures var r := Build(history);
            MatchFrom(r, 0, path).Some?
            && r[MatchFrom(r, 0, path).value.node].route == LastRouteAt(history, PatternSegs(path))
            && MatchFrom(r, 0, path).value.captures == []
            && MatchFrom(r, 0, path).value.leftover == ""
  {
    var labels := BuildStores(history, PatternSegs(path));
    LiteralWalkMatches(Build(history), 0, path);
  }

  // ---------------------------------------------------------------------------
  // Behaviour on concrete tables

  /** One insert() step over a segment followed by '/'. */
  lemma InsertJoined(nodes: seq<PNode>, cur: nat, segment: string, rest: string, route: RouteDefinition)
    requires WellFormed(nodes) && cur < |nodes| && '/' !in segment
    ensures var st := Descend(nodes, cur, ToSeg(segment));
            InsertFrom(nodes, cur, segment + "/" + rest, route) == InsertFrom(st.nodes, st.next, rest, route)
  {
    ExtractJoined(segment, rest);
  }

  /** One insert() step over a segment the node has no reference for yet. */
  lemma DescendFresh(nodes: seq<PNode>, cur: nat, seg: Seg)
    requires WellFormed(nodes) && cur < |nodes|
    requires if seg.Wild? then nodes[cur].wildcard.None? else seg.text !in nodes[cur].children
    ensures Descend(nodes, cur, seg) == Step(nodes[cur := Linked(nodes[cur], seg, |nodes|)] + [EmptyNode], |nodes|)
  {
  }

  lemma DeadEndTable(r: RouteDefinition)
    ensures InsertNodes([EmptyNode], "w/*/w", r) ==
              [PNode(null, map["w" := 1], None), PNode(null, map[], Some(2)),
               PNode(null, map["w" := 3], None), PNode(r, map[], None)]
  {
    assert "w/*/w" == "w" + "/" + "*/w";
    DeadEndFirst(r);
    DeadEndMiddle(r);
    DeadEndLast(r);
  }

  /** The first step of DeadEndTable: the literal segment "w" under the root. */
  lemma DeadEndFirst(r: RouteDefinition)
    ensures InsertFrom([EmptyNode], 0, "w" + "/" + "*/w", r)
            == InsertFrom([PNode(null, map["w" := 1], None), EmptyNode], 1, "*/w", r)
  {
    FreshStep([EmptyNode], 0, "w", "*/w", r, [PNode(null, map["w" := 1], None), EmptyNode]);
  }

  /** The middle step of DeadEndTable: the wildcard under "w". */
  lemma DeadEndMiddle(r: RouteDefinition)
    ensures var root := PNode(null, map["w" := 1], None);
            InsertFrom([root, EmptyNode], 1, "*/w", r)
            == InsertFrom([root, PNode(null, map[], Some(2)), EmptyNode], 2, "w", r)
  {
    var root := PNode(null, map["w" := 1], None);
    FreshStep([root, EmptyNode], 1, "*", "w", r, [root, PNode(null, map[], Some(2)), EmptyNode]);
    assert "*" + "/" + "w" == "*/w";
  }

  /** One insert() step over a segment followed by '/' that the node has no reference
      for yet: the table grows by one empty node, linked under the segment. */
  lemma FreshStep(nodes: seq<PNode>, cur: nat, segment: string, rest: string, route: RouteDefinition, next: seq<PNode>)
    requires WellFormed(nodes) && cur < |nodes| && '/' !in segment
    requires if segment == "*" then nodes[cur].wildcard.None? else segment !in nodes[cur].children
    requires next == nodes[cur := Linked(nodes[cur], ToSeg(segment), |nodes|)] + [EmptyNode]
    ensures WellFormed(next)
    ensures InsertFrom(nodes, cur, segment + "/" + rest, route) == InsertFrom(next, |nodes|, rest, route)
  {
    InsertJoined(nodes, cur, segment, rest, route);
    DescendFresh(nodes, cur, ToSeg(segment));
  }

  /** The last step of DeadEndTable: the final literal segment and the route. */
  lemma DeadEndLast(r: RouteDefinition)
    ensures var root, n1 := PNode(null, map["w" := 1], None), PNode(null, map[], Some(2));
            InsertFrom([root, n1, EmptyNode], 2, "w", r)
            == [root, n1, PNode(null, map["w" := 3], None), PNode(r, map[], None)]
  {
    var root, n1 := PNode(null, map["w" := 1], None), PNode(null, map[], Some(2));
    var n2 := PNode(null, map["w" := 3], None);
    var t3 := [root, n1, n2, EmptyNode];
    ExtractLastShortSegment('w');
    assert Descend([root, n1, EmptyNode], 2, Lit("w")) == Step(t3, 3);
    assert InsertFrom(t3, 3, "", r) == t3[3 := EmptyNode.(route := r)];
  }

  /** One match() step over the first segment of a non-empty path. */
  lemma MatchSplit(nodes: seq<PNode>, cur: nat, path: string, seg: string, rest: string)
    requires WellFormed(nodes) && cur < |nodes| && path != ""
    requires ExtractFirstSegment(path) == Split(seg, rest)
    ensures var n := nodes[cur];
            MatchFrom(nodes, cur, path)
            == if seg in n.children then MatchFrom(nodes, n.children[seg], rest)
               else if n.wildcard.Some? && MatchFrom(nodes, n.wildcard.value, rest).Some? then
                 Some(MatchFrom(nodes, n.wildcard.value, rest).value.(captures := [seg] + MatchFrom(nodes, n.wildcard.value, rest).value.captures))
               else Terminal(nodes, cur, PrependSegment(rest, seg))
  {
  }

  /** An existing literal child is always taken: whatever the wildcard child would
      match, the result is the literal child's match of the rest, with no backtracking. */
  lemma LiteralBeforeWildcard(nodes: seq<PNode>, cur: nat, seg: string, rest: string)
    requires WellFormed(nodes) && cur < |nodes| && '/' !in seg && seg in nodes[cur].children
    ensures MatchFrom(nodes, cur, seg + "/" + rest) == MatchFrom(nodes, nodes[cur].children[seg], rest)
  {
    ExtractJoined(seg, rest);
    MatchSplit(nodes, cur, seg + "/" + rest, seg, rest);
  }

  /** match("") returns the root's route, with nothing captured or left over. */
  lemma MatchEmptyIsRoot(nodes: seq<PNode>)
    requires WellFormed(nodes)
    ensures MatchFrom(nodes, 0, "") == if nodes[0].route == null then None else Some(Hit(0, [], ""))
  {
  }

  /** The match() walk of "w/s" over the table DeadEndTable builds: "w" is taken, the
      wildcard under it dead-ends, and the node "w" reached has no route. */
  lemma DeadEndMatch(t: seq<PNode>)
    requires WellFormed(t) && |t| == 4
    requires t[0].children == map["w" := 1] && t[0].route == null
    requires t[1].children == map[] && t[1].wildcard == Some(2) && t[1].route == null
    requires t[2].route == null
    ensures MatchFrom(t, 0, "w/s") == None
  {
    assert "w/s" == "w" + "/" + "s";
    ExtractJoined("w", "s");
    MatchSplit(t, 0, "w" + "/" + "s", "w", "s");

    assert ExtractFirstSegment("s") == Split("s", "");
    MatchSplit(t, 1, "s", "s", "");
    assert MatchFrom(t, 2, "") == None;
  }

  // A wildcard branch that dead-ends is abandoned, the segment is restored and the
  // walk stops at a node without a route: "w/s" finds nothing in a trie holding only
  // the pattern "w/*/w".
  lemma WildcardDeadEnd(r: RouteDefinition)
    ensures MatchFrom(InsertNodes([EmptyNode], "w/*/w", r), 0, "w/s") == None
  {
    DeadEndTable(r);
    DeadEndMatch(InsertNodes([EmptyNode], "w/*/w", r));
  }

  lemma CaptureTable(r: RouteDefinition)
    ensures InsertNodes([EmptyNode], "*/*", r) ==
              [PNode(null, map[], Some(1)), PNode(null, map[], Some(2)), PNode(r, map[], None)]
  {
    assert "*/*" == "*" + "/" + "*";
    FreshStep([EmptyNode], 0, "*", "*", r, [PNode(null, map[], Some(1)), EmptyNode]);
    CaptureLast(r);
  }

  /** The last step of CaptureTable: the second wildcard and the route. */
  lemma CaptureLast(r: RouteDefinition)
    ensures var n0 := PNode(null, map[], Some(1));
            InsertFrom([n0, EmptyNode], 1, "*", r) == [n0, PNode(null, map[], Some(2)), PNode(r, map[], None)]
  {
    var n0 := PNode(null, map[], Some(1));
    var t2 := [n0, PNode(null, map[], Some(2)), EmptyNode];
    ExtractLastShortSegment('*');
    DescendFresh([n0, EmptyNode], 1, Wild);
    assert [n0, EmptyNode][1 := Linked(EmptyNode, Wild, 2)] + [EmptyNode] == t2;
    assert InsertFrom(t2, 2, "", r) == t2[2 := EmptyNode.(route := r)];
  }

  /** One wildcard step of match(): when no literal child fits and the wildcard child
      matches the rest, the segment becomes the first capture. */
  lemma WildcardStep(nodes: seq<PNode>, cur: nat, seg: string, rest: string, h: Hit)
    requires WellFormed(nodes) && cur < |nodes|
    requires seg !in nodes[cur].children && nodes[cur].wildcard.Some?
    requires MatchFrom(nodes, nodes[cur].wildcard.value, rest) == Some(h)
    requires '/' !in seg
    ensures MatchFrom(nodes, cur, seg + "/" + rest) == Some(h.(captures := [seg] + h.captures))
  {
    ExtractJoined(seg, rest);
    MatchSplit(nodes, cur, seg + "/" + rest, seg, rest);
  }

  /** The table shape CaptureTable builds, as CaptureMatch needs it. */
  predicate CaptureShape(t: seq<PNode>) {
    WellFormed(t) && |t| == 3
    && t[0].children == map[] && t[0].wildcard == Some(1)
    && t[1].children == map[] && t[1].wildcard == Some(2)
    && t[2].children == map[] && t[2].wildcard == None && t[2].route != null
  }

  lemma CaptureMatch(t: seq<PNode>)
    requires CaptureShape(t)
    ensures MatchFrom(t, 0, "a/b/c") == Some(Hit(2, ["a", "b"], "c"))
  {
    assert "a/b/c" == "a" + "/" + ("b" + "/" + "c");
    CaptureHead(t, "a", "b", "c");
  }

  /** Over CaptureShape, two segments are captured and the third is left over. */
  lemma CaptureHead(t: seq<PNode>, x: string, y: string, z: string)
    requires CaptureShape(t)
    requires '/' !in x && '/' !in y && '/' !in z && !IsFalsy(z)
    ensures MatchFrom(t, 0, x + "/" + (y + "/" + z)) == Some(Hit(2, [x, y], z))
  {
    CaptureTail(t, y, z);
    WildcardStep(t, 0, x, y + "/" + z, Hit(2, [y], z));
    assert [x] + [y] == [x, y];
  }

  /** The walk of the last two segments from the first wildcard node of CaptureShape. */
  lemma CaptureTail(t: seq<PNode>, y: string, z: string)
    requires CaptureShape(t)
    requires '/' !in y && '/' !in z && !IsFalsy(z)
    ensures MatchFrom(t, 1, y + "/" + z) == Some(Hit(2, [y], z))
  {
    CaptureLeaf(t, z);
    WildcardStep(t, 1, y, z, Hit(2, [], z));
    assert [y] + [] == [y];
  }

  /** The last segment is left over at the node holding the route. */
  lemma CaptureLeaf(t: seq<PNode>, z: string)
    requires CaptureShape(t)
    requires '/' !in z && !IsFalsy(z)
    ensures MatchFrom(t, 2, z) == Some(Hit(2, [], z))
  {
    assert ExtractFirstSegment(z) == Split(z, "");
    MatchSplit(t, 2, z, z, "");
  }

  // Captures come out in path order and the leftover comes last: a trie holding the
  // pattern "*/*" matches "a/b/c" with captures a and b and leftover c.
  lemma CapturesInPathOrder(r: RouteDefinition)
    ensures MatchFrom(InsertNodes([EmptyNode], "*/*", r), 0, "a/b/c") == Some(Hit(2, ["a", "b"], "c"))
  {
    CaptureTable(r);
    var t := InsertNodes([EmptyNode], "*/*", r);
    assert t[0] == PNode(null, map[], Some(1));
    assert t[1] == PNode(null, map[], Some(2));
    assert t[2] == PNode(r, map[], None);
    CaptureMatch(t);
  }
}
