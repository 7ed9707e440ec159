/**
 * The gateway registry and its priority ranking: `Gateway`, `GatewaySelect`,
 * `State` and `DefaultConf.get_defaults` of `src/defaultconf/common.py`.
 * (`src/defaultconf/defaultconf.py` carries the same classes, with the field
 * `link` named `iface`; this module models both.)
 */
module Registry {
  import opened Wrappers
  import opened IpAddr

  /** A registered candidate default gateway. `ts` is the registration time
      stamp, passed in rather than read from a clock. */
  datatype Gateway = Gateway(af: Family, link: string, protocol: string, addr: Addr, ts: nat)

  /** One requirement that a set selector field puts on the object it is
      compared with. `matches` reads the `af`, `link` and `protocol`
      attributes of its argument, which may be a gateway or another selector,
      so the compared fields are Options (a gateway's are always `Some`). */
  datatype Constraint = AfIs(af: Family) | LinkIs(link: string) | ProtocolIs(protocol: string) {
    predicate HeldBy(oaf: Option<Family>, olink: Option<string>, oprotocol: Option<string>) {
      match this
      case AfIs(a) => oaf == Some(a)
      case LinkIs(l) => olink == Some(l)
      case ProtocolIs(p) => oprotocol == Some(p)
    }
  }

  /** A selector: every field that is not `None` must equal the object's. */
  datatype GatewaySelect = GatewaySelect(af: Option<Family>, link: Option<string>, protocol: Option<string>) {

    /** The constraints of the fields that are set. */
    function Constraints(): set<Constraint> {
      (if af.Some? then {AfIs(af.value)} else {})
      + (if link.Some? then {LinkIs(link.value)} else {})
      + (if protocol.Some? then {ProtocolIs(protocol.value)} else {})
    }

    /** `matches` on any object with `af`, `link` and `protocol` attributes,
        checking the three fields in turn and failing at the first mismatch. */
    function MatchesFields(oaf: Option<Family>, olink: Option<string>, oprotocol: Option<string>): (r: bool)
      ensures r <==> forall c :: c in Constraints() ==> c.HeldBy(oaf, olink, oprotocol)
    {
      assert af.Some? ==> AfIs(af.value) in Constraints();
      assert link.Some? ==> LinkIs(link.value) in Constraints();
      assert protocol.Some? ==> ProtocolIs(protocol.value) in Constraints();
      if af.Some? && Some(af.value) != oaf then false
      else if link.Some? && Some(link.value) != olink then false
      else if protocol.Some? && Some(protocol.value) != oprotocol then false
      else true
    }

    /** `matches(gateway)`. */
    function Matches(g: Gateway): (r: bool)
      ensures r <==> (af.None? || af.value == g.af) && (link.None? || link.value == g.link)
                     && (protocol.None? || protocol.value == g.protocol)
    {
      MatchesFields(Some(g.af), Some(g.link), Some(g.protocol))
    }

    /** `matches(selector)`, as `State.enable` uses it on the disabled
        selectors: a `None` field of the other selector equals no set field. */
    function MatchesSelect(d: GatewaySelect): bool {
      MatchesFields(d.af, d.link, d.protocol)
    }
  }

  /** `GatewaySelect()`, all fields `None`. */
  function MatchAll(): (s: GatewaySelect)
    ensures s.Constraints() == {}
    ensures forall g :: s.Matches(g)
  {
    GatewaySelect(None, None, None)
  }

  /** The key a registration replaces: `(af, link, protocol)`. */
  function Key(g: Gateway): (Family, string, string) {
    (g.af, g.link, g.protocol)
  }

  /** The selector `add` removes with: all three fields set. */
  function KeySelect(af: Family, link: string, protocol: string): (s: GatewaySelect)
    ensures forall g :: s.Matches(g) <==> Key(g) == (af, link, protocol)
  {
    GatewaySelect(Some(af), Some(link), Some(protocol))
  }

  /** At most one gateway per key. */
  predicate UniqueKeys(gs: set<Gateway>) {
    forall x, y :: x in gs && y in gs && Key(x) == Key(y) ==> x == y
  }

  /** The gateways `remove(select)` keeps. */
  function Without(gs: set<Gateway>, select: GatewaySelect): set<Gateway> {
    set g | g in gs && !select.Matches(g)
  }

  /** The gateways after `add`: every gateway with the new one's key is
      replaced by it. */
  function WithGateway(gs: set<Gateway>, g: Gateway): (r: set<Gateway>)
    ensures g in r
    ensures forall x :: x in r && Key(x) == Key(g) ==> x == g
    ensures forall x :: Key(x) != Key(g) ==> (x in r <==> x in gs)
  {
    Without(gs, KeySelect(g.af, g.link, g.protocol)) + {g}
  }

  /** The disabled selectors `enable(select)` keeps. */
  function Enabling(ds: set<GatewaySelect>, select: GatewaySelect): set<GatewaySelect> {
    set d | d in ds && !select.MatchesSelect(d)
  }

  /** No disabled selector matches `g`. */
  predicate Enabled(disabled: set<GatewaySelect>, g: Gateway) {
    forall d :: d in disabled ==> !d.Matches(g)
  }

  lemma AddKeepsKeysUnique(gs: set<Gateway>, g: Gateway)
    requires UniqueKeys(gs)
    ensures UniqueKeys(WithGateway(gs, g))
    ensures |set x | x in WithGateway(gs, g) && Key(x) == Key(g)| == 1
  {
    var r := WithGateway(gs, g);
    assert (set x | x in r && Key(x) == Key(g)) == {g};
  }

  lemma RemoveKeepsKeysUnique(gs: set<Gateway>, select: GatewaySelect)
    requires UniqueKeys(gs)
    ensures UniqueKeys(Without(gs, select))
    ensures forall g :: g in Without(gs, select) ==> !select.Matches(g)
  {
  }

  /** A selector matches itself, so enabling with the selector that was
      disabled takes it out of `disabled` again. */
  lemma {:induction false} DisableThenEnable(ds: set<GatewaySelect>, s: GatewaySelect)
    ensures s !in Enabling(ds + {s}, s)
    ensures Enabling(ds + {s}, s) == Enabling(ds, s)
  {
    assert s.MatchesSelect(s);
  }

  /** A disabled selector that `enable(select)` keeps disagrees with a set
      field of `select`; so `enable(MatchAll())` re-enables everything. */
  lemma EnableAll(ds: set<GatewaySelect>)
    ensures Enabling(ds, MatchAll()) == {}
  {
  }

  /** The registry state: the registered gateways and the disabled selectors,
      both Python sets updated in place. */
  class State {
    var gateways: set<Gateway>
    var disabled: set<GatewaySelect>

    constructor(gateways: set<Gateway>, disabled: set<GatewaySelect>)
      ensures this.gateways == gateways && this.disabled == disabled
    {
      this.gateways := gateways;
      this.disabled := disabled;
    }

    /** `remove`: drop every gateway the selector matches. */
    method Remove(select: GatewaySelect)
      modifies this
      ensures gateways == Without(old(gateways), select)
      ensures disabled == old(disabled)
    {
      gateways := gateways - (set g | g in gateways && select.Matches(g));
    }

    /** `add`: remove the gateways with the same key, then insert the new one. */
    method Add(af: Family, link: string, protocol: string, addr: Addr, ts: nat)
      modifies this
      ensures gateways == WithGateway(old(gateways), Gateway(af, link, protocol, addr, ts))
      ensures disabled == old(disabled)
    {
      Remove(KeySelect(af, link, protocol));
      gateways := gateways + {Gateway(af, link, protocol, addr, ts)};
    }

    /** `disable`: add exactly the selector. */
    method Disable(select: GatewaySelect)
      modifies this
      ensures disabled == old(disabled) + {select}
      ensures gateways == old(gateways)
    {
      disabled := disabled + {select};
    }

    /** `enable`: drop the disabled selectors that `select` matches. */
    method Enable(select: GatewaySelect)
      modifies this
      ensures disabled == Enabling(old(disabled), select)
      ensures gateways == old(gateways)
    {
      disabled := disabled - (set d | d in disabled && select.MatchesSelect(d));
    }
  }

  /** The gateways `get_defaults(select)` ranks. */
  function Selected(gs: set<Gateway>, disabled: set<GatewaySelect>, select: GatewaySelect): set<Gateway> {
    set g | g in gs && select.Matches(g) && Enabled(disabled, g)
  }

  /** Index of the first rule from `i` on that matches `g`, or `|priority|`. */
  function RankFrom(priority: seq<GatewaySelect>, g: Gateway, i: nat): (k: nat)
    requires i <= |priority|
    ensures i <= k <= |priority|
    ensures k < |priority| ==> priority[k].Matches(g)
    ensures forall j :: i <= j < k ==> !priority[j].Matches(g)
    decreases |priority| - i
  {
    if i == |priority| then |priority|
    else if priority[i].Matches(g) then i
    else RankFrom(priority, g, i + 1)
  }

  /** The bucket of `g`: the first matching rule, or the catch-all `|priority|`. */
  function Rank(priority: seq<GatewaySelect>, g: Gateway): nat {
    RankFrom(priority, g, 0)
  }

  predicate NoDup<T(==)>(s: seq<T>) {
    forall i, j :: 0 <= i < j < |s| ==> s[i] != s[j]
  }

  /** Non-increasing `ts`. */
  predicate TsDescending(s: seq<Gateway>) {
    forall i, j :: 0 <= i < j < |s| ==> s[i].ts >= s[j].ts
  }

  /** Lower bucket first; within a bucket, newest first. */
  predicate Ranked(priority: seq<GatewaySelect>, s: seq<Gateway>) {
    forall i, j :: 0 <= i < j < |s| ==>
      Rank(priority, s[i]) < Rank(priority, s[j])
      || (Rank(priority, s[i]) == Rank(priority, s[j]) && s[i].ts >= s[j].ts)
  }

  lemma {:induction false} NoDupMultiset<T>(s: seq<T>)
    ensures NoDup(s) <==> forall x :: multiset(s)[x] <= 1
  {
    if s != [] {
      NoDupMultiset(s[1..]);
      assert s == [s[0]] + s[1..];
      assert multiset(s) == multiset{s[0]} + multiset(s[1..]);
      if NoDup(s) {
        assert s[0] !in s[1..];
        assert NoDup(s[1..]) by {
          forall i, j | 0 <= i < j < |s[1..]| ensures s[1..][i] != s[1..][j] {
            assert s[1..][i] == s[i + 1] && s[1..][j] == s[j + 1];
          }
        }
      } else {
        var i, j :| 0 <= i < j < |s| && s[i] == s[j];
        if i == 0 {
          assert s[0] in s[1..] by { assert s[1..][j - 1] == s[j]; }
          assert multiset(s)[s[0]] >= 2;
        } else {
          assert s[1..][i - 1] == s[1..][j - 1];
          assert !NoDup(s[1..]);
          var x :| multiset(s[1..])[x] > 1;
          assert multiset(s)[x] > 1;
        }
      }
    }
  }

  /** Two sequences with the same multiset are duplicate-free together. */
  lemma NoDupPermutation<T>(a: seq<T>, b: seq<T>)
    requires multiset(a) == multiset(b)
    requires NoDup(b)
    ensures NoDup(a)
  {
    NoDupMultiset(a);
    NoDupMultiset(b);
  }

  /** `sorted(bucket, key=ts, reverse=True)`: an insertion sort. */
  method SortByTsDesc(s: seq<Gateway>) returns (r: seq<Gateway>)
    ensures multiset(r) == multiset(s)
    ensures TsDescending(r)
  {
    r := [];
    for i := 0 to |s|
      invariant multiset(r) == multiset(s[..i])
      invariant TsDescending(r)
    {
      assert s[..i + 1] == s[..i] + [s[i]];
      r := InsertByTs(r, s[i]);
    }
    assert s[..|s|] == s;
  }

  /** Inserts `x` after every element at least as new, so that equal keys
      keep their order, as Python's stable sort does. */
  method InsertByTs(r: seq<Gateway>, x: Gateway) returns (r': seq<Gateway>)
    requires TsDescending(r)
    ensures multiset(r') == multiset(r) + multiset{x}
    ensures TsDescending(r')
  {
    var j := 0;
    while j < |r| && r[j].ts >= x.ts
      invariant 0 <= j <= |r|
      invariant forall k :: 0 <= k < j ==> r[k].ts >= x.ts
    {
      j := j + 1;
    }
    InsertKeepsDescending(r, x, j);
    r' := r[..j] + [x] + r[j..];
    assert r == r[..j] + r[j..];
  }

  lemma InsertKeepsDescending(r: seq<Gateway>, x: Gateway, j: nat)
    requires TsDescending(r)
    requires j <= |r|
    requires forall k :: 0 <= k < j ==> r[k].ts >= x.ts
    requires j < |r| ==> r[j].ts < x.ts
    ensures TsDescending(r[..j] + [x] + r[j..])
  {
    var r' := r[..j] + [x] + r[j..];
    forall a, b | 0 <= a < b < |r'| ensures r'[a].ts >= r'[b].ts {
      if b < j {
        assert r'[a] == r[a] && r'[b] == r[b];
      } else if b == j {
        assert r'[b] == x && r'[a] == r[a];
      } else if a < j {
        assert r'[a] == r[a] && r'[b] == r[b - 1];
      } else if a == j {
        assert r'[a] == x && r'[b] == r[b - 1];
        assert r[j].ts < x.ts;
      } else {
        assert r'[a] == r[a - 1] && r'[b] == r[b - 1];
      }
    }
  }

  /** `get_defaults` puts the head of its result first: no selected gateway
      lies in a lower bucket, and none in the same bucket is newer. */
  lemma HeadIsBest(priority: seq<GatewaySelect>, r: seq<Gateway>, selected: set<Gateway>)
    requires Ranked(priority, r)
    requires forall g :: g in r <==> g in selected
    requires |r| > 0
    ensures r[0] in selected
    ensures forall g :: g in selected ==>
      Rank(priority, r[0]) < Rank(priority, g)
      || (Rank(priority, r[0]) == Rank(priority, g) && r[0].ts >= g.ts)
  {
    forall g | g in selected
      ensures Rank(priority, r[0]) < Rank(priority, g)
              || (Rank(priority, r[0]) == Rank(priority, g) && r[0].ts >= g.ts)
    {
      var j :| 0 <= j < |r| && r[j] == g;
      if j > 0 {
        assert Rank(priority, r[0]) < Rank(priority, r[j])
               || (Rank(priority, r[0]) == Rank(priority, r[j]) && r[0].ts >= r[j].ts);
      }
    }
  }

  /** A duplicate-free sequence has as many elements as its set. */
  lemma {:induction false} NoDupCardinality<T>(r: seq<T>, elems: set<T>)
    requires NoDup(r)
    requires forall x :: x in r <==> x in elems
    ensures |r| == |elems|
  {
    if r != [] {
      var rest := elems - {r[0]};
      assert NoDup(r[1..]) by {
        forall i, j | 0 <= i < j < |r[1..]| ensures r[1..][i] != r[1..][j] {
          assert r[1..][i] == r[i + 1] && r[1..][j] == r[j + 1];
        }
      }
      forall x ensures x in r[1..] <==> x in rest {
        if x in r[1..] {
          var k :| 0 <= k < |r[1..]| && r[1..][k] == x;
          assert r[k + 1] == x;
        }
        if x in rest {
          var k :| 0 <= k < |r| && r[k] == x;
          assert k != 0;
          assert r[1..][k - 1] == x;
        }
      }
      NoDupCardinality(r[1..], rest);
    } else {
      assert elems == {};
    }
  }

  /** `DefaultConf`: the immutable priority rule list of the configuration and
      the registry state it ranks. */
  class DefaultConf {
    const priority: seq<GatewaySelect>
    var state: State

    constructor(priority: seq<GatewaySelect>, state: State)
      ensures this.priority == priority && this.state == state
    {
      this.priority := priority;
      this.state := state;
    }

    /** `enabled_filter`: looks through the disabled selectors and fails at
        the first one that matches. */
    method IsEnabled(g: Gateway) returns (b: bool)
      ensures b == Enabled(state.disabled, g)
    {
      var rest := state.disabled;
      while rest != {}
        invariant rest <= state.disabled
        invariant forall d :: d in state.disabled && d !in rest ==> !d.Matches(g)
        decreases rest
      {
        var d :| d in rest;
        if d.Matches(g) {
          return false;
        }
        rest := rest - {d};
      }
      return true;
    }

    /** The inner loop of `get_defaults`: the first rule that matches, else
        the catch-all bucket. */
    method BucketOf(g: Gateway) returns (k: nat)
      ensures k == Rank(priority, g)
    {
      var i := 0;
      while i < |priority|
        invariant 0 <= i <= |priority|
        invariant forall j :: 0 <= j < i ==> !priority[j].Matches(g)
      {
        if priority[i].Matches(g) {
          return i;
        }
        i := i + 1;
      }
      return |priority|;
    }

    /** `get_defaults(select)`: the selected, enabled gateways, bucketed by
        first matching rule and sorted newest first within each bucket. The
        order among equal `ts` follows Python's set iteration order, which is
        unspecified; the result is a permutation of the selected gateways. */
    method GetDefaults(select: GatewaySelect) returns (r: seq<Gateway>)
      ensures NoDup(r)
      ensures forall g :: g in r <==> g in Selected(state.gateways, state.disabled, select)
      ensures Ranked(priority, r)
      ensures |r| == |Selected(state.gateways, state.disabled, select)|
    {
      ghost var sel := Selected(state.gateways, state.disabled, select);
      var remaining := state.gateways;
      var buckets: seq<seq<Gateway>> := seq(|priority| + 1, _ => []);
      while remaining != {}
        invariant remaining <= state.gateways
        invariant |buckets| == |priority| + 1
        invariant forall k, x :: 0 <= k < |buckets| && x in buckets[k] ==>
                    x in sel && x !in remaining && Rank(priority, x) == k
        invariant forall x :: x in sel && x !in remaining ==> x in buckets[Rank(priority, x)]
        invariant forall k :: 0 <= k < |buckets| ==> NoDup(buckets[k])
        decreases remaining
      {
        var g :| g in remaining;
        remaining := remaining - {g};
        if select.Matches(g) {
          var enabled := IsEnabled(g);
          if enabled {
            var k := BucketOf(g);
            assert g !in buckets[k];
            buckets := buckets[k := buckets[k] + [g]];
          }
        }
      }
      r := [];
      for k := 0 to |buckets|
        invariant NoDup(r)
        invariant forall x :: x in r <==> x in sel && Rank(priority, x) < k
        invariant Ranked(priority, r)
      {
        var sorted := SortByTsDesc(buckets[k]);
        NoDupPermutation(sorted, buckets[k]);
        assert forall x :: x in sorted <==> x in buckets[k] by {
          forall x ensures x in sorted <==> x in buckets[k] {
            assert x in sorted <==> x in multiset(sorted);
            assert x in buckets[k] <==> x in multiset(buckets[k]);
          }
        }
        AppendBucket(priority, r, sorted, k);
        r := r + sorted;
      }
      NoDupCardinality(r, sel);
    }
  }

  /** Appending a newest-first bucket of rank `k` after gateways of lower rank
      keeps the sequence ranked and duplicate-free. */
  lemma AppendBucket(priority: seq<GatewaySelect>, r: seq<Gateway>, b: seq<Gateway>, k: nat)
    requires NoDup(r) && NoDup(b) && Ranked(priority, r) && TsDescending(b)
    requires forall x :: x in r ==> Rank(priority, x) < k
    requires forall x :: x in b ==> Rank(priority, x) == k
    ensures NoDup(r + b)
    ensures Ranked(priority, r + b)
  {
    var s := r + b;
    forall i, j | 0 <= i < j < |s|
      ensures s[i] != s[j]
      ensures Rank(priority, s[i]) < Rank(priority, s[j])
              || (Rank(priority, s[i]) == Rank(priority, s[j]) && s[i].ts >= s[j].ts)
    {
      if j < |r| {
        assert s[i] == r[i] && s[j] == r[j];
      } else if i < |r| {
        assert s[i] == r[i] && s[j] == b[j - |r|];
        assert s[i] in r && s[j] in b;
      } else {
        assert s[i] == b[i - |r|] && s[j] == b[j - |r|];
        assert s[i] in b && s[j] in b;
      }
    }
  }
}
