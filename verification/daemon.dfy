/**
 * The selection and reconcile decision of `src/defaultconf/daemon.py`:
 * `default_test` (is a ranked gateway usable against the kernel mirror) and
 * `normalize_default` (pick the first usable gateway, compare it with the
 * current default route, and decide which route calls to make). The route
 * calls are returned as values; their effect on the kernel's table is
 * modelled by `ApplyCalls`.
 */
module Daemon {
  import opened Wrappers
  import opened IpAddr
  import opened Registry
  import opened NetLink

  /** The links carrying the name. */
  function NamedLinks(t: Tables, name: string): set<Link> {
    set l | l in t.links && l.name == name
  }

  /** Some address configured on link `index` has a network containing `a`. */
  predicate OnLinkAddress(t: Tables, index: nat, a: Addr) {
    exists x :: x in t.addrs && x.linkIndex == index && x.address.Network().Contains(a)
  }

  /** Some route through link `index` has a destination containing `a`. */
  predicate OnLinkRoute(t: Tables, index: nat, a: Addr) {
    exists r :: r in t.routes && r.linkIndex == index && r.dst.Contains(a)
  }

  /** What `default_test` is meant to decide: exactly one link has the
      gateway's link name, that link is up, and the gateway's address lies in
      the network of one of its addresses or in the destination of one of its
      routes. */
  predicate Usable(t: Tables, g: Gateway) {
    exists l :: l in t.links && NamedLinks(t, g.link) == {l} && l.up
                && (OnLinkAddress(t, l.index, g.addr) || OnLinkRoute(t, l.index, g.addr))
  }

  /** Some route goes through link `index`. */
  predicate HasLinkRoute(t: Tables, index: nat) {
    exists r :: r in t.routes && r.linkIndex == index
  }

  /** The exception the route loop of `default_test` raises: a route's `dst`
      is an `ip_network`, and a network object has no `network` attribute. */
  const NoNetworkAttribute: string := "AttributeError: object has no attribute 'network'"

  /** `default_test` as written: no unique link with the name, or a down
      link, answers `False`; an address network on the link containing the
      gateway answers `True`; otherwise the route loop raises as soon as the
      link has a route, and answers `False` when it has none. */
  ghost function TestAsWritten(t: Tables, g: Gateway): Result<bool> {
    if !exists l :: NamedLinks(t, g.link) == {l} && l.up then Success(false)
    else
      var l :| NamedLinks(t, g.link) == {l} && l.up;
      if OnLinkAddress(t, l.index, g.addr) then Success(true)
      else if HasLinkRoute(t, l.index) then Failure(NoNetworkAttribute)
      else Success(false)
  }

  /** No link or several links with the name: never usable, and the code
      answers `False`. */
  lemma NotUsableWithoutUniqueLink(t: Tables, g: Gateway)
    requires |NamedLinks(t, g.link)| != 1
    ensures !Usable(t, g)
    ensures TestAsWritten(t, g) == Success(false)
  {
  }

  /** With the one link named `l`: down means unusable; an on-link address
      suffices; otherwise usability is decided by the link's routes. The code
      agrees in the first two cases; in the third it raises when the link has
      any route and answers `False` when it has none. */
  lemma UsableOnUniqueLink(t: Tables, g: Gateway, l: Link)
    requires NamedLinks(t, g.link) == {l}
    ensures !l.up ==> !Usable(t, g) && TestAsWritten(t, g) == Success(false)
    ensures l.up && OnLinkAddress(t, l.index, g.addr) ==> Usable(t, g) && TestAsWritten(t, g) == Success(true)
    ensures l.up && !OnLinkAddress(t, l.index, g.addr) ==> (Usable(t, g) <==> OnLinkRoute(t, l.index, g.addr))
    ensures l.up && !OnLinkAddress(t, l.index, g.addr) ==>
              (TestAsWritten(t, g).Failure? <==> HasLinkRoute(t, l.index))
    ensures l.up && !OnLinkAddress(t, l.index, g.addr) && !HasLinkRoute(t, l.index) ==>
              TestAsWritten(t, g) == Success(false) && !Usable(t, g)
  {
    assert l in t.links by { assert l in NamedLinks(t, g.link); }
  }

  /** Whenever the code answers, its answer is the usability condition; it
      fails exactly when the one up link has no address network containing
      the gateway but has some route. */
  lemma TestAsWrittenAgrees(t: Tables, g: Gateway)
    ensures TestAsWritten(t, g).Success? ==> TestAsWritten(t, g).value == Usable(t, g)
    ensures TestAsWritten(t, g).Failure? <==>
              exists l :: NamedLinks(t, g.link) == {l} && l.up
                          && !OnLinkAddress(t, l.index, g.addr) && HasLinkRoute(t, l.index)
  {
    if l :| NamedLinks(t, g.link) == {l} {
      UsableOnUniqueLink(t, g, l);
    } else {
      assert |NamedLinks(t, g.link)| != 1 by {
        if |NamedLinks(t, g.link)| == 1 {
          var x :| x in NamedLinks(t, g.link);
          SingletonSet(NamedLinks(t, g.link), x);
        }
      }
      NotUsableWithoutUniqueLink(t, g);
    }
  }

  /** The route loop of the code raises where the intended test answers
      `True`: a gateway on an up link with no address network containing it,
      reached through a route on that link. */
  lemma {:induction false} RouteTestRaises(t: Tables, g: Gateway, l: Link, r: Route)
    requires NamedLinks(t, g.link) == {l} && l.up
    requires !OnLinkAddress(t, l.index, g.addr)
    requires r in t.routes && r.linkIndex == l.index && r.dst.Contains(g.addr)
    ensures Usable(t, g)
    ensures TestAsWritten(t, g) == Failure(NoNetworkAttribute)
  {
    assert l in NamedLinks(t, g.link);
    assert OnLinkRoute(t, l.index, g.addr);
    assert HasLinkRoute(t, l.index);
  }

  /** A default route through a gateway's link makes the gateway usable
      whatever its address, since the default destination contains every
      address of the family; without an on-link address the code raises
      instead. */
  lemma {:induction false} DefaultRouteMakesUsable(t: Tables, g: Gateway, l: Link, r: Route)
    requires NamedLinks(t, g.link) == {l} && l.up
    requires g.addr.Valid()
    requires r in t.routes && r.dst == DefaultNet(g.addr.af) && r.linkIndex == l.index
    ensures Usable(t, g)
    ensures !OnLinkAddress(t, l.index, g.addr) ==> TestAsWritten(t, g) == Failure(NoNetworkAttribute)
  {
    assert l in NamedLinks(t, g.link);
    assert r.dst.Contains(g.addr);
    assert OnLinkRoute(t, l.index, g.addr);
    if !OnLinkAddress(t, l.index, g.addr) {
      RouteTestRaises(t, g, l, r);
    }
  }

  lemma SingletonSet<T>(s: set<T>, x: T)
    requires |s| == 1 && x in s
    ensures s == {x}
  {
    assert |s - {x}| == 0;
  }

  /** `default_test`: fetch the one link with the name, check it is up, look
      through its addresses for a network containing the gateway, returning at
      the first hit, then enter the route loop, whose first iteration raises. */
  method DefaultTest(tables: NetTables, g: Gateway) returns (r: Result<bool>)
    ensures r == TestAsWritten(tables.Snapshot(), g)
  {
    ghost var t := tables.Snapshot();
    var named := tables.GetLinks((l: Link) => l.name == g.link);
    assert named == NamedLinks(t, g.link);
    if |named| != 1 {
      NotUsableWithoutUniqueLink(t, g);
      return Success(false);
    }
    var link :| link in named;
    SingletonSet(named, link);
    UsableOnUniqueLink(t, g, link);
    if !link.up {
      return Success(false);
    }
    var linkaddrs := tables.GetAddrs((a: LinkAddress) => a.linkIndex == link.index);
    while linkaddrs != {}
      invariant linkaddrs <= tables.addrs
      invariant forall x :: x in tables.addrs && x.linkIndex == link.index && x !in linkaddrs
                  ==> !x.address.Network().Contains(g.addr)
      decreases linkaddrs
    {
      var addr :| addr in linkaddrs;
      if addr.address.Network().Contains(g.addr) {
        return Success(true);
      }
      linkaddrs := linkaddrs - {addr};
    }
    var linkroutes := tables.GetRoutes((r: Route) => r.linkIndex == link.index);
    // The loop's first iteration evaluates `route.dst.network`, which raises
    // before any containment test, so the loop only matters when entered.
    if linkroutes != {} {
      assert HasLinkRoute(t, link.index) by { var route :| route in linkroutes; }
      return Failure(NoNetworkAttribute);
    }
    return Success(false);
  }

  /** `default_test` as intended, with `route.dst` in place of
      `route.dst.network`: the same scans, answering the usability condition. */
  method DefaultTestIntended(tables: NetTables, g: Gateway) returns (ok: bool)
    ensures ok == Usable(tables.Snapshot(), g)
  {
    ghost var t := tables.Snapshot();
    var named := tables.GetLinks((l: Link) => l.name == g.link);
    assert named == NamedLinks(t, g.link);
    if |named| != 1 {
      return false;
    }
    var link :| link in named;
    SingletonSet(named, link);
    if !link.up {
      return false;
    }
    var linkaddrs := tables.GetAddrs((a: LinkAddress) => a.linkIndex == link.index);
    while linkaddrs != {}
      invariant linkaddrs <= tables.addrs
      invariant forall x :: x in tables.addrs && x.linkIndex == link.index && x !in linkaddrs
                  ==> !x.address.Network().Contains(g.addr)
      decreases linkaddrs
    {
      var addr :| addr in linkaddrs;
      if addr.address.Network().Contains(g.addr) {
        return true;
      }
      linkaddrs := linkaddrs - {addr};
    }
    var linkroutes := tables.GetRoutes((r: Route) => r.linkIndex == link.index);
    while linkroutes != {}
      invariant linkroutes <= tables.routes
      invariant forall x :: x in tables.routes && x.linkIndex == link.index && x !in linkroutes
                  ==> !x.dst.Contains(g.addr)
      decreases linkroutes
    {
      var route :| route in linkroutes;
      if route.dst.Contains(g.addr) {
        return true;
      }
      linkroutes := linkroutes - {route};
    }
    return false;
  }

  /** `next(iter(filter(default_test, defaults)), None)` with the intended
      test: the first usable gateway. */
  function FirstUsable(ds: seq<Gateway>, t: Tables): (r: Option<Gateway>)
    ensures r.None? <==> forall i :: 0 <= i < |ds| ==> !Usable(t, ds[i])
    ensures r.Some? ==> exists i :: 0 <= i < |ds| && ds[i] == r.value && Usable(t, ds[i])
                                    && forall j :: 0 <= j < i ==> !Usable(t, ds[j])
  {
    if ds == [] then None
    else if Usable(t, ds[0]) then Some(ds[0])
    else
      var r := FirstUsable(ds[1..], t);
      assert forall i :: 1 <= i < |ds| ==> ds[i] == ds[1..][i - 1];
      assert r.Some? ==> exists i :: 1 <= i < |ds| && ds[i] == r.value && Usable(t, ds[i])
                                     && forall j :: 0 <= j < i ==> !Usable(t, ds[j]) by {
        if r.Some? {
          var i :| 0 <= i < |ds[1..]| && ds[1..][i] == r.value && Usable(t, ds[1..][i])
                   && forall j :: 0 <= j < i ==> !Usable(t, ds[1..][j]);
          assert ds[i + 1] == r.value;
          forall j | 0 <= j < i + 1 ensures !Usable(t, ds[j]) {
            if j > 0 { assert ds[j] == ds[1..][j - 1]; }
          }
        }
      }
      r
  }

  /** The same expression with the code's test: the lazy `filter` calls it in
      rank order and stops at the first `True`, so an exception from a gateway
      ranked before the first usable one escapes `normalize_default`. When it
      does not, the choice is the intended one. */
  ghost function FirstAsWritten(ds: seq<Gateway>, t: Tables): (r: Result<Option<Gateway>>)
    ensures r.Success? ==> r.value == FirstUsable(ds, t)
    ensures r.Failure? <==> exists i :: 0 <= i < |ds| && TestAsWritten(t, ds[i]).Failure?
                                        && forall j :: 0 <= j < i ==> TestAsWritten(t, ds[j]) == Success(false)
    ensures r.Failure? ==> r.error == NoNetworkAttribute
  {
    if ds == [] then Success(None)
    else
      var head := TestAsWritten(t, ds[0]);
      TestAsWrittenAgrees(t, ds[0]);
      if head.Failure? then
        Failure(head.error)
      else if head.value then Success(Some(ds[0]))
      else
        var r := FirstAsWritten(ds[1..], t);
        assert forall i :: 1 <= i < |ds| ==> ds[i] == ds[1..][i - 1];
        assert r.Failure? ==> exists i :: 1 <= i < |ds| && TestAsWritten(t, ds[i]).Failure?
                                          && forall j :: 0 <= j < i ==> TestAsWritten(t, ds[j]) == Success(false) by {
          if r.Failure? {
            var i :| 0 <= i < |ds[1..]| && TestAsWritten(t, ds[1..][i]).Failure?
                     && forall j :: 0 <= j < i ==> TestAsWritten(t, ds[1..][j]) == Success(false);
            forall j | 0 <= j < i + 1 ensures TestAsWritten(t, ds[j]) == Success(false) {
              if j > 0 { assert ds[j] == ds[1..][j - 1]; }
            }
          }
        }
        assert (exists i :: 0 <= i < |ds| && TestAsWritten(t, ds[i]).Failure?
                            && forall j :: 0 <= j < i ==> TestAsWritten(t, ds[j]) == Success(false)) ==> r.Failure? by {
          if i :| 0 <= i < |ds| && TestAsWritten(t, ds[i]).Failure?
                  && forall j :: 0 <= j < i ==> TestAsWritten(t, ds[j]) == Success(false) {
            assert i > 0;
            assert 0 <= i - 1 < |ds[1..]| && TestAsWritten(t, ds[1..][i - 1]).Failure?;
            forall j | 0 <= j < i - 1 ensures TestAsWritten(t, ds[1..][j]) == Success(false) {
              assert ds[1..][j] == ds[j + 1];
            }
          }
        }
        r
  }

  /** The routes to the family's default destination. */
  function DefaultRoutes(routes: set<Route>, dst: Net): set<Route> {
    set r | r in routes && r.dst == dst
  }

  /** The current default: the one route to the default destination; none
      when there are zero or several. */
  ghost function CurrentDefault(routes: set<Route>, dst: Net): (r: Option<Route>)
    ensures r.Some? <==> |DefaultRoutes(routes, dst)| == 1
    ensures r.Some? ==> DefaultRoutes(routes, dst) == {r.value}
  {
    var ds := DefaultRoutes(routes, dst);
    if |ds| == 1 then
      var x :| x in ds;
      SingletonSet(ds, x);
      Some(x)
    else None
  }

  /** What `normalize_default` does: nothing, delete the current default, set
      a new one, or update (delete, then add). */
  datatype Action =
    | NoOp
    | Delete(current: Route)
    | Set(gw: Addr, linkIndex: nat)
    | Update(current: Route, gw: Addr, linkIndex: nat)

  /** The decision table of `normalize_default`. An equal gateway address
      counts as no change even when the link index differs. */
  function Decide(choice: Option<Gateway>, current: Option<Route>, linkIndex: nat): Action {
    match (choice, current)
    case (None, None) => NoOp
    case (None, Some(c)) => Delete(c)
    case (Some(g), None) => Set(g.addr, linkIndex)
    case (Some(g), Some(c)) => if c.gw == Some(g.addr) then NoOp else Update(c, g.addr, linkIndex)
  }

  lemma DecisionTable(choice: Option<Gateway>, current: Option<Route>, linkIndex: nat)
    ensures choice.None? && current.None? ==> Decide(choice, current, linkIndex) == NoOp
    ensures choice.None? && current.Some? ==> Decide(choice, current, linkIndex) == Delete(current.value)
    ensures choice.Some? && current.None? ==> Decide(choice, current, linkIndex) == Set(choice.value.addr, linkIndex)
    ensures (choice.Some? && current.Some? && current.value.gw == Some(choice.value.addr))
              ==> Decide(choice, current, linkIndex) == NoOp
    ensures (choice.Some? && current.Some? && current.value.gw != Some(choice.value.addr))
              ==> Decide(choice, current, linkIndex) == Update(current.value, choice.value.addr, linkIndex)
  {
  }

  /** A kernel route request: `new_route` or `delete_route`. */
  datatype RouteCall =
    | NewRouteCall(fib: nat, dst: Net, gw: Addr, linkIndex: nat)
    | DeleteRouteCall(fib: nat, dst: Net, routeGw: Option<Addr>, linkIndex: nat)

  /** The calls the decision is meant to make; an update is a delete
      followed by an add. */
  function Calls(a: Action, fib: nat, dst: Net): seq<RouteCall> {
    match a
    case NoOp => []
    case Delete(c) => [DeleteRouteCall(fib, c.dst, c.gw, c.linkIndex)]
    case Set(gw, idx) => [NewRouteCall(fib, dst, gw, idx)]
    case Update(c, gw, idx) => [DeleteRouteCall(fib, c.dst, c.gw, c.linkIndex), NewRouteCall(fib, dst, gw, idx)]
  }

  /** The calls the code as written makes, and whether it then raises. The
      update branch looks up `bsdnetlink.add_route`, which does not exist: the
      delete has been sent, the lookup raises `AttributeError`, and the caller
      logs it. */
  function CallsAsWritten(a: Action, fib: nat, dst: Net): (seq<RouteCall>, bool) {
    match a
    case Update(c, _, _) => ([DeleteRouteCall(fib, c.dst, c.gw, c.linkIndex)], true)
    case _ => (Calls(a, fib, dst), false)
  }

  /** The kernel's answer to one request: `new_route` is sent with
      `NLM_F_CREATE | NLM_F_EXCL`, so it does nothing when a route to the
      destination exists; `delete_route` removes the route it names. */
  function ApplyCall(routes: set<Route>, c: RouteCall): set<Route> {
    match c
    case NewRouteCall(_, dst, gw, idx) =>
      if DefaultRoutes(routes, dst) != {} then routes else routes + {Route(dst, Some(gw), idx)}
    case DeleteRouteCall(_, dst, gw, idx) => routes - {Route(dst, gw, idx)}
  }

  function ApplyCalls(routes: set<Route>, cs: seq<RouteCall>): set<Route>
    decreases |cs|
  {
    if cs == [] then routes else ApplyCalls(ApplyCall(routes, cs[0]), cs[1..])
  }

  lemma EmptyDefaults(routes: set<Route>, dst: Net, r: Route)
    requires DefaultRoutes(routes, dst) == {r}
    ensures DefaultRoutes(routes - {r}, dst) == {}
  {
    assert DefaultRoutes(routes - {r}, dst) == DefaultRoutes(routes, dst) - {r};
  }

  lemma AddedDefault(routes: set<Route>, dst: Net, gw: Addr, idx: nat)
    requires DefaultRoutes(routes, dst) == {}
    ensures DefaultRoutes(routes + {Route(dst, Some(gw), idx)}, dst) == {Route(dst, Some(gw), idx)}
  {
  }

  /** Reconciling converges when at most one default route is present: after
      the calls take effect, the current default exists exactly when a
      gateway was chosen, and then goes through that gateway. */
  lemma {:induction false} ReconcileConverges(routes: set<Route>, choice: Option<Gateway>, dst: Net, linkIndex: nat, fib: nat)
    requires |DefaultRoutes(routes, dst)| <= 1
    ensures var after := ApplyCalls(routes, Calls(Decide(choice, CurrentDefault(routes, dst), linkIndex), fib, dst));
            && (CurrentDefault(after, dst).Some? <==> choice.Some?)
            && (choice.Some? ==> CurrentDefault(after, dst).value.gw == Some(choice.value.addr))
  {
    var current := CurrentDefault(routes, dst);
    var cs := Calls(Decide(choice, current, linkIndex), fib, dst);
    if current.None? {
      assert DefaultRoutes(routes, dst) == {};
    }
    match (choice, current)
    case (None, None) =>
      assert ApplyCalls(routes, cs) == routes;
    case (None, Some(c)) =>
      assert ApplyCalls(routes, cs) == routes - {c};
      EmptyDefaults(routes, dst, c);
    case (Some(g), None) =>
      assert ApplyCalls(routes, cs) == routes + {Route(dst, Some(g.addr), linkIndex)};
      AddedDefault(routes, dst, g.addr, linkIndex);
    case (Some(g), Some(c)) =>
      if c.gw == Some(g.addr) {
        assert ApplyCalls(routes, cs) == routes;
      } else {
        EmptyDefaults(routes, dst, c);
        assert ApplyCall(routes, cs[0]) == routes - {c};
        assert cs[1..] == [NewRouteCall(fib, dst, g.addr, linkIndex)];
        assert ApplyCalls(routes, cs) == ApplyCalls(routes - {c}, cs[1..]);
        assert ApplyCalls(routes, cs) == routes - {c} + {Route(dst, Some(g.addr), linkIndex)};
        AddedDefault(routes - {c}, dst, g.addr, linkIndex);
      }
  }

  /** Re-deciding after the calls took effect, with the same choice, decides
      to do nothing. */
  lemma ReconcileIdempotent(routes: set<Route>, choice: Option<Gateway>, dst: Net, linkIndex: nat, fib: nat)
    requires |DefaultRoutes(routes, dst)| <= 1
    ensures var after := ApplyCalls(routes, Calls(Decide(choice, CurrentDefault(routes, dst), linkIndex), fib, dst));
            Decide(choice, CurrentDefault(after, dst), linkIndex) == NoOp
  {
    ReconcileConverges(routes, choice, dst, linkIndex, fib);
  }

  /** With two or more default routes there is no current default, and the
      calls change nothing: a chosen gateway is only ever added with an
      exclusive create, which the existing defaults block. Reconciling then
      never converges on one default route. */
  lemma {:induction false} SeveralDefaultsStay(routes: set<Route>, choice: Option<Gateway>, dst: Net, linkIndex: nat, fib: nat)
    requires |DefaultRoutes(routes, dst)| >= 2
    ensures CurrentDefault(routes, dst).None?
    ensures ApplyCalls(routes, Calls(Decide(choice, CurrentDefault(routes, dst), linkIndex), fib, dst)) == routes
  {
    var cs := Calls(Decide(choice, None, linkIndex), fib, dst);
    if choice.Some? {
      assert DefaultRoutes(routes, dst) != {};
      assert ApplyCall(routes, cs[0]) == routes;
      assert ApplyCalls(routes, cs) == ApplyCalls(routes, cs[1..]);
    }
  }

  /** As written, replacing a default that goes through another gateway
      deletes it, raises, and leaves the family with no default route. */
  lemma {:induction false} ReplaceAsWrittenDropsDefault(routes: set<Route>, g: Gateway, dst: Net, linkIndex: nat, fib: nat)
    requires CurrentDefault(routes, dst).Some?
    requires CurrentDefault(routes, dst).value.gw != Some(g.addr)
    ensures Decide(Some(g), CurrentDefault(routes, dst), linkIndex).Update?
    ensures var (cs, raised) := CallsAsWritten(Decide(Some(g), CurrentDefault(routes, dst), linkIndex), fib, dst);
            raised && CurrentDefault(ApplyCalls(routes, cs), dst).None?
  {
    var c := CurrentDefault(routes, dst).value;
    var cs := CallsAsWritten(Decide(Some(g), Some(c), linkIndex), fib, dst).0;
    assert ApplyCalls(routes, cs) == routes - {c};
    EmptyDefaults(routes, dst, c);
  }

  /** The lazy `filter` of `normalize_default`: test the ranked gateways in
      order and stop at the first `True`; an exception of the test escapes. */
  method FirstDefault(tables: NetTables, ds: seq<Gateway>) returns (r: Result<Option<Gateway>>)
    ensures r == FirstAsWritten(ds, tables.Snapshot())
  {
    ghost var t := tables.Snapshot();
    var i := 0;
    while i < |ds|
      invariant 0 <= i <= |ds|
      invariant FirstAsWritten(ds[i..], t) == FirstAsWritten(ds, t)
    {
      var ok := DefaultTest(tables, ds[i]);
      assert ds[i..][0] == ds[i];
      if ok.Failure? {
        return Failure(ok.error);
      }
      if ok.value {
        return Success(Some(ds[i]));
      }
      assert ds[i..][1..] == ds[i + 1..];
      i := i + 1;
    }
    return Success(None);
  }

  /** `normalize_default` for one family: rank the family's gateways, take the
      first usable one, find the current default route to `DefaultNet(af)`,
      and decide. An exception from `default_test` escapes before anything
      else is done. `ifIndex` stands for the kernel query `if_nametoindex`. */
  method NormalizeDefault(conf: DefaultConf, tables: NetTables, af: Family, ifIndex: string -> nat)
    returns (defaults: seq<Gateway>, action: Result<Action>)
    ensures NoDup(defaults) && Ranked(conf.priority, defaults)
    ensures forall g :: g in defaults <==>
              g in Selected(conf.state.gateways, conf.state.disabled, GatewaySelect(Some(af), None, None))
    ensures action.Failure? <==> FirstAsWritten(defaults, tables.Snapshot()).Failure?
    ensures action.Failure? ==> action.error == NoNetworkAttribute
    ensures var choice := FirstUsable(defaults, tables.Snapshot());
            action.Success? ==>
              action.value == Decide(choice, CurrentDefault(tables.routes, DefaultNet(af)),
                                     if choice.Some? then ifIndex(choice.value.link) else 0)
  {
    var dst := DefaultNet(af);
    defaults := conf.GetDefaults(GatewaySelect(Some(af), None, None));
    var first := FirstDefault(tables, defaults);
    if first.Failure? {
      return defaults, Failure(first.error);
    }
    var choice := first.value;
    var linkIndex := if choice.Some? then ifIndex(choice.value.link) else 0;
    var current: Option<Route> := None;
    var candidates := tables.GetRoutes((r: Route) => r.dst == dst);
    assert candidates == DefaultRoutes(tables.routes, dst);
    if |candidates| == 1 {
      var r :| r in candidates;
      SingletonSet(candidates, r);
      current := Some(r);
    }
    action := Success(Decide(choice, current, linkIndex));
  }
}
