/**
 * Abstract IP addresses, networks and interface addresses, standing in for
 * Python's `ipaddress` objects. An address is a family and an unsigned integer
 * of the family's width; a network adds a prefix length; containment is
 * equality of the leading `prefixlen` bits.
 */
module IpAddr {

  datatype Family = Inet | Inet6

  /** Bit width of an address of the family. */
  function Width(af: Family): nat {
    match af
    case Inet => 32
    case Inet6 => 128
  }

  function Pow2(n: nat): (r: nat)
    ensures r >= 1
  {
    if n == 0 then 1 else 2 * Pow2(n - 1)
  }

  /** `x` with its `k` low bits shifted out. */
  function Shift(x: nat, k: nat): nat {
    if k == 0 then x else Shift(x / 2, k - 1)
  }

  /** `x` with its `k` low bits cleared. */
  function ClearLow(x: nat, k: nat): nat {
    if k == 0 then x else 2 * ClearLow(x / 2, k - 1)
  }

  datatype Addr = Addr(af: Family, bits: nat) {
    predicate Valid() { bits < Pow2(Width(af)) }
  }

  /** A network: `bits` is the network address, `prefixlen` the mask length. */
  datatype Net = Net(af: Family, bits: nat, prefixlen: nat) {

    /** Number of host bits, 0 when the prefix is as long as the address. */
    function HostBits(): nat {
      if prefixlen >= Width(af) then 0 else Width(af) - prefixlen
    }

    /** `a in net` for Python's `ipaddress`: false across families, otherwise the
        leading `prefixlen` bits agree. */
    predicate Contains(a: Addr) {
      a.af == af && Shift(a.bits, HostBits()) == Shift(bits, HostBits())
    }
  }

  /** The whole address space of a family: `0.0.0.0/0` or `::/0`. */
  function DefaultNet(af: Family): (n: Net)
    ensures n.af == af && n.prefixlen == 0
    ensures forall a: Addr :: a.af == af && a.Valid() ==> n.Contains(a)
  {
    forall a: Addr | a.af == af && a.Valid()
      ensures Net(af, 0, 0).Contains(a)
    {
      ShiftBelow(a.bits, Width(af));
      ShiftBelow(0, Width(af));
    }
    Net(af, 0, 0)
  }

  /** An interface address (`ip_interface`): an address with its prefix length. */
  datatype IfAddr = IfAddr(addr: Addr, prefixlen: nat) {

    /** The attached network (`.network`), host bits cleared. */
    function Network(): (n: Net)
      ensures n.af == addr.af && n.prefixlen == prefixlen
      ensures n.Contains(addr)
    {
      var h := Net(addr.af, 0, prefixlen).HostBits();
      ShiftClearLow(addr.bits, h);
      Net(addr.af, ClearLow(addr.bits, h), prefixlen)
    }
  }

  lemma {:induction false} ShiftBelow(x: nat, k: nat)
    requires x < Pow2(k)
    ensures Shift(x, k) == 0
  {
    if k > 0 {
      ShiftBelow(x / 2, k - 1);
    }
  }

  lemma {:induction false} ShiftClearLow(x: nat, k: nat)
    ensures Shift(ClearLow(x, k), k) == Shift(x, k)
  {
    if k > 0 {
      ShiftClearLow(x / 2, k - 1);
      assert ClearLow(x, k) / 2 == ClearLow(x / 2, k - 1);
    }
  }
}
