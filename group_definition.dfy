/** A route group (src/Definition/GroupDefinition.php): the routes registered while the
    group was active, and group-wide middleware applied to them eagerly. */
module GroupDefinition {
  import opened RouterTypes
  import opened RouteDefinition

  /** `list` repeated `k` times, one after the other. */
  function Repeat(list: seq<MiddlewareRef>, k: nat): (r: seq<MiddlewareRef>)
    ensures |r| == k * |list|
  {
    if k == 0 then [] else Repeat(list, k - 1) + list
  }

  /** How often `r` occurs in `routes`. */
  function Occurrences(routes: seq<RouteDefinition>, r: RouteDefinition): nat {
    if routes == [] then 0
    else Occurrences(routes[..|routes| - 1], r) + (if routes[|routes| - 1] == r then 1 else 0)
  }

  lemma OccursAbsent(routes: seq<RouteDefinition>, r: RouteDefinition)
    requires r !in routes
    ensures Occurrences(routes, r) == 0
  {
    if routes != [] {
      assert r !in routes[..|routes| - 1];
      OccursAbsent(routes[..|routes| - 1], r);
    }
  }

  /** A route registered exactly once gets the group's list exactly once. */
  lemma {:induction false} OccursOnce(routes: seq<RouteDefinition>, r: RouteDefinition)
    requires forall i, j :: 0 <= i < j < |routes| ==> routes[i] != routes[j]
    requires r in routes
    ensures Occurrences(routes, r) == 1
  {
    var init := routes[..|routes| - 1];
    if routes[|routes| - 1] == r {
      assert forall i :: 0 <= i < |init| ==> init[i] != r;
      OccursAbsent(init, r);
    } else {
      assert r in init;
      OccursOnce(init, r);
    }
  }

  class GroupDefinition {
    var routes: seq<RouteDefinition>

    constructor ()
      ensures routes == []
    {
      routes := [];
    }

    /** registerRoute(): appended after the routes registered before. */
    method RegisterRoute(definition: RouteDefinition)
      modifies this`routes
      ensures routes == old(routes) + [definition]
    {
      routes := routes + [definition];
    }

    /** middleware(): every route registered so far gets the list appended once per
        registration; routes registered later are not touched. */
    method Middleware(list: seq<MiddlewareRef>) returns (g: GroupDefinition)
      modifies (set r | r in routes)`middleware
      ensures g == this && routes == old(routes)
      ensures forall r :: r in routes ==>
                r.middleware == old(r.middleware) + Repeat(list, Occurrences(routes, r))
    {
      var i := 0;
      while i < |routes|
        invariant 0 <= i <= |routes|
        invariant forall r :: r in routes ==>
                    r.middleware == old(r.middleware) + Repeat(list, Occurrences(routes[..i], r))
        modifies (set r | r in routes)`middleware
      {
        var route := routes[i];
        ghost var before := routes[..i];
        assert routes[..i + 1][..i] == before;
        var _ := route.Middleware(list);
        forall r | r in routes
          ensures r.middleware == old(r.middleware) + Repeat(list, Occurrences(routes[..i + 1], r))
        {
          if r == route {
            assert Repeat(list, Occurrences(before, r) + 1) == Repeat(list, Occurrences(before, r)) + list;
          }
        }
        i := i + 1;
      }
      assert routes[..|routes|] == routes;
      g := this;
    }
  }
}
