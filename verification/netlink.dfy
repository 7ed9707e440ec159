/**
 * The kernel state mirror of `src/defaultconf/bsdnetlink.py`: the link,
 * address and route tables (`NetTables`) that netlink notifications keep up to
 * date, the message-type dispatch of `parse_nlmsg` and of the notification
 * handler, and `addr_to_af`. Message decoding, sockets and threads are not
 * modelled: a notification arrives as its type and its decoded record.
 */
module NetLink {
  import opened Wrappers
  import opened IpAddr

  /** Netlink message types (FreeBSD's netlink/route/common.h, Linux values). */
  const RTM_NEWLINK: int := 16
  const RTM_DELLINK: int := 17
  const RTM_NEWADDR: int := 20
  const RTM_DELADDR: int := 21
  const RTM_NEWROUTE: int := 24
  const RTM_DELROUTE: int := 25

  /** An interface: name, index, and whether `IFF_UP` is set. */
  datatype Link = Link(name: string, index: nat, up: bool)

  /** An address configured on the interface with index `linkIndex`. */
  datatype LinkAddress = LinkAddress(linkIndex: nat, address: IfAddr)

  /** A route; `gw` is `None` unless the route has `RTF_GATEWAY`. */
  datatype Route = Route(dst: Net, gw: Option<Addr>, linkIndex: nat)

  /** The value Python's `ipaddress` objects stand for in `addr_to_af`:
      `type(x) is ...` accepts exact address and network classes only, so an
      interface address (a subclass of the address class) is rejected. */
  datatype IpObject = AddressObj(addr: Addr) | NetworkObj(net: Net) | InterfaceObj(iface: IfAddr) | OtherObj

  /** `addr_to_af`. Its failure branch formats a name that is not defined, so
      what it raises is a `NameError`; either way the call fails. */
  function AddrToAf(o: IpObject): (r: Result<Family>)
    ensures r.Success? <==> o.AddressObj? || o.NetworkObj?
    ensures o.AddressObj? ==> r == Success(o.addr.af)
    ensures o.NetworkObj? ==> r == Success(o.net.af)
  {
    match o
    case AddressObj(a) => Success(a.af)
    case NetworkObj(n) => Success(n.af)
    case _ => Failure("name 'dst' is not defined")
  }

  /** The parser `parse_nlmsg` picks for a message type. */
  datatype Parser = LinkParser | AddrParser | RouteParser

  /** The decoded record a parser yields. */
  datatype NlBody = LinkBody(link: Link) | AddrBody(addr: LinkAddress) | RouteBody(route: Route) {
    function Parser(): Parser {
      match this
      case LinkBody(_) => LinkParser
      case AddrBody(_) => AddrParser
      case RouteBody(_) => RouteParser
    }
  }

  const KnownTypes: set<int> := {RTM_NEWLINK, RTM_DELLINK, RTM_NEWADDR, RTM_DELADDR, RTM_NEWROUTE, RTM_DELROUTE}

  /** `parse_nlmsg`: the parser for a link, address or route message pair,
      failure for any other type. */
  function ParseNlMsg(msgType: int): (r: Result<Parser>)
    ensures r.Success? <==> msgType in KnownTypes
    ensures r == Success(LinkParser) <==> msgType == RTM_NEWLINK || msgType == RTM_DELLINK
    ensures r == Success(AddrParser) <==> msgType == RTM_NEWADDR || msgType == RTM_DELADDR
    ensures r == Success(RouteParser) <==> msgType == RTM_NEWROUTE || msgType == RTM_DELROUTE
  {
    if msgType == RTM_NEWLINK || msgType == RTM_DELLINK then Success(LinkParser)
    else if msgType == RTM_NEWADDR || msgType == RTM_DELADDR then Success(AddrParser)
    else if msgType == RTM_NEWROUTE || msgType == RTM_DELROUTE then Success(RouteParser)
    else Failure("unsupported nlmsg_type")
  }

  /** A notification as the handler receives it: its type and the record that
      `parse_nlmsg` decoded from it with the parser of that type. */
  datatype Notification = Notification(msgType: int, body: NlBody)

  predicate Decoded(n: Notification) {
    ParseNlMsg(n.msgType).Success? ==> ParseNlMsg(n.msgType).value == n.body.Parser()
  }

  /** A snapshot of the three tables. */
  datatype Tables = Tables(links: set<Link>, addrs: set<LinkAddress>, routes: set<Route>) {

    /** `new_link`: the link replaces every link with its index. */
    function NewLink(l: Link): (t: Tables)
      ensures l in t.links
      ensures forall x :: x in t.links && x.index == l.index ==> x == l
      ensures forall x: Link :: x.index != l.index ==> (x in t.links <==> x in links)
      ensures t.addrs == addrs && t.routes == routes
    {
      var t := DelLink(l);
      t.(links := t.links + {l})
    }

    /** `del_link`: every link with the index goes, whatever its name or flag. */
    function DelLink(l: Link): (t: Tables)
      ensures forall x :: x in t.links ==> x.index != l.index
      ensures forall x: Link :: x.index != l.index ==> (x in t.links <==> x in links)
      ensures t.addrs == addrs && t.routes == routes
    {
      this.(links := links - set x | x in links && x.index == l.index)
    }

    function NewAddr(a: LinkAddress): Tables {
      this.(addrs := addrs + {a})
    }

    function DelAddr(a: LinkAddress): Tables {
      this.(addrs := addrs - {a})
    }

    function NewRoute(r: Route): Tables {
      this.(routes := routes + {r})
    }

    function DelRoute(r: Route): Tables {
      this.(routes := routes - {r})
    }

    /** The handler's dispatch on the message type; any other type is only
        logged. */
    function Handle(n: Notification): Tables
      requires Decoded(n)
    {
      if n.msgType == RTM_NEWLINK then NewLink(n.body.link)
      else if n.msgType == RTM_DELLINK then DelLink(n.body.link)
      else if n.msgType == RTM_NEWADDR then NewAddr(n.body.addr)
      else if n.msgType == RTM_DELADDR then DelAddr(n.body.addr)
      else if n.msgType == RTM_NEWROUTE then NewRoute(n.body.route)
      else if n.msgType == RTM_DELROUTE then DelRoute(n.body.route)
      else this
    }

    /** The tables after handling the notifications in order. */
    function HandleAll(ns: seq<Notification>): Tables
      requires forall i :: 0 <= i < |ns| ==> Decoded(ns[i])
      decreases |ns|
    {
      if ns == [] then this else Handle(ns[0]).HandleAll(ns[1..])
    }
  }

  /** Adding an address or a route twice is adding it once. */
  lemma NewIdempotent(t: Tables, a: LinkAddress, r: Route)
    ensures t.NewAddr(a).NewAddr(a) == t.NewAddr(a)
    ensures t.NewRoute(r).NewRoute(r) == t.NewRoute(r)
    ensures a in t.NewAddr(a).addrs && r in t.NewRoute(r).routes
  {
  }

  /** Deleting removes exactly the element; deleting an absent one changes
      nothing. */
  lemma DelExact(t: Tables, a: LinkAddress, r: Route)
    ensures forall x :: x in t.DelAddr(a).addrs <==> x in t.addrs && x != a
    ensures forall x :: x in t.DelRoute(r).routes <==> x in t.routes && x != r
    ensures a !in t.addrs ==> t.DelAddr(a) == t
    ensures r !in t.routes ==> t.DelRoute(r) == t
  {
  }

  /** A later `new_link` for the same index overrides an earlier one. */
  lemma {:induction false} NewLinkLastWins(t: Tables, l1: Link, l2: Link)
    requires l1.index == l2.index
    ensures t.NewLink(l1).NewLink(l2) == t.NewLink(l2)
  {
    var a := t.NewLink(l1).NewLink(l2);
    var b := t.NewLink(l2);
    assert a.links == b.links by {
      forall x ensures x in a.links <==> x in b.links {
        if x.index == l2.index {
          assert x in a.links <==> x == l2;
          assert x in b.links <==> x == l2;
        }
      }
    }
  }

  /** Notifications about addresses and links commute: an address announced
      before its link is still associated with the link by index once the
      link arrives. */
  lemma AddrBeforeLink(t: Tables, a: LinkAddress, l: Link)
    ensures t.NewAddr(a).NewLink(l) == t.NewLink(l).NewAddr(a)
    ensures a in t.NewAddr(a).NewLink(l).addrs
  {
  }

  /** The handler changes only the table whose parser `parse_nlmsg` picks,
      and nothing at all for a type it rejects. */
  lemma {:induction false} HandleTouchesParsedTable(t: Tables, n: Notification)
    requires Decoded(n)
    ensures ParseNlMsg(n.msgType).Failure? ==> t.Handle(n) == t
    ensures ParseNlMsg(n.msgType) == Success(LinkParser) ==>
              t.Handle(n).addrs == t.addrs && t.Handle(n).routes == t.routes
    ensures ParseNlMsg(n.msgType) == Success(AddrParser) ==>
              t.Handle(n).links == t.links && t.Handle(n).routes == t.routes
    ensures ParseNlMsg(n.msgType) == Success(RouteParser) ==>
              t.Handle(n).links == t.links && t.Handle(n).addrs == t.addrs
  {
    if n.msgType == RTM_NEWLINK || n.msgType == RTM_DELLINK {
      assert n.body.LinkBody?;
    }
  }

  /** `NetTables`: the three sets, updated in place by the notification
      handler and read by the selection code. */
  class NetTables {
    var links: set<Link>
    var addrs: set<LinkAddress>
    var routes: set<Route>

    constructor()
      ensures links == {} && addrs == {} && routes == {}
    {
      links, addrs, routes := {}, {}, {};
    }

    function Snapshot(): Tables
      reads this
    {
      Tables(links, addrs, routes)
    }

    method NewLink(l: Link)
      modifies this
      ensures Snapshot() == old(Snapshot()).NewLink(l)
    {
      DelLink(l);
      links := links + {l};
    }

    method DelLink(l: Link)
      modifies this
      ensures Snapshot() == old(Snapshot()).DelLink(l)
    {
      var toRemove := set x | x in links && x.index == l.index;
      links := links - toRemove;
    }

    /** `get_links(p)`: the links satisfying `p`; nothing is modified. */
    function GetLinks(p: Link -> bool): (r: set<Link>)
      reads this
      ensures r <= links
      ensures forall l :: l in links && p(l) ==> l in r
      ensures forall l :: l in r ==> p(l)
    {
      set l | l in links && p(l)
    }

    method NewAddr(a: LinkAddress)
      modifies this
      ensures Snapshot() == old(Snapshot()).NewAddr(a)
    {
      addrs := addrs + {a};
    }

    method DelAddr(a: LinkAddress)
      modifies this
      ensures Snapshot() == old(Snapshot()).DelAddr(a)
    {
      addrs := addrs - {a};
    }

    /** `get_addrs(p)`: the addresses satisfying `p`. */
    function GetAddrs(p: LinkAddress -> bool): (r: set<LinkAddress>)
      reads this
      ensures r <= addrs
      ensures forall a :: a in addrs && p(a) ==> a in r
      ensures forall a :: a in r ==> p(a)
    {
      set a | a in addrs && p(a)
    }

    method NewRoute(r: Route)
      modifies this
      ensures Snapshot() == old(Snapshot()).NewRoute(r)
    {
      routes := routes + {r};
    }

    method DelRoute(r: Route)
      modifies this
      ensures Snapshot() == old(Snapshot()).DelRoute(r)
    {
      routes := routes - {r};
    }

    /** `get_routes(p)`: the routes satisfying `p`. */
    function GetRoutes(p: Route -> bool): (r: set<Route>)
      reads this
      ensures r <= routes
      ensures forall x :: x in routes && p(x) ==> x in r
      ensures forall x :: x in r ==> p(x)
    {
      set x | x in routes && p(x)
    }

    /** One step of `nlmsg_handler`. */
    method HandleNotification(n: Notification)
      requires Decoded(n)
      modifies this
      ensures Snapshot() == old(Snapshot()).Handle(n)
    {
      if n.msgType == RTM_NEWLINK {
        NewLink(n.body.link);
      } else if n.msgType == RTM_DELLINK {
        DelLink(n.body.link);
      } else if n.msgType == RTM_NEWADDR {
        NewAddr(n.body.addr);
      } else if n.msgType == RTM_DELADDR {
        DelAddr(n.body.addr);
      } else if n.msgType == RTM_NEWROUTE {
        NewRoute(n.body.route);
      } else if n.msgType == RTM_DELROUTE {
        DelRoute(n.body.route);
      }
    }

    /** The loop of `nlmsg_handler` over the queued notifications. */
    method HandleNotifications(ns: seq<Notification>)
      requires forall i :: 0 <= i < |ns| ==> Decoded(ns[i])
      modifies this
      ensures Snapshot() == old(Snapshot()).HandleAll(ns)
    {
      for i := 0 to |ns|
        invariant Snapshot().HandleAll(ns[i..]) == old(Snapshot()).HandleAll(ns)
      {
        assert ns[i..][1..] == ns[i + 1..];
        HandleNotification(ns[i]);
      }
    }
  }
}
