/**
 * The PF_ROUTE side of `src/defaultconf/bsdroute.py`: the walk over the
 * sockaddrs that follow a routing message header (`get_rtm_addrs`), the
 * alignment rule `SA_SIZE`, the buffer-padding helper `ensure_buffer`, and the
 * text forms of link-layer sockaddrs (`str_sockaddr`) and of flag words
 * (`str_flags`). A message is a sequence of bytes; a sockaddr is the bytes of
 * the C structure overlaid on it, read in the little-endian layout of FreeBSD
 * on amd64.
 */
module RouteSocket {
  import opened Wrappers
  import opened IpAddr

  newtype byte = b: int | 0 <= b < 256

  /** `sizeof(long)`. */
  const LongSize: nat := 8

  /** Address families (sys/socket.h). */
  const AF_INET: byte := 2
  const AF_LINK: byte := 18
  const AF_INET6: byte := 28

  /** Sizes of the overlaid C structures. */
  const SockaddrSize: nat := 16
  const SockaddrInSize: nat := 16
  const SockaddrIn6Size: nat := 28
  const SockaddrDlSize: nat := 54

  // ---------------------------------------------------------------------
  // SA_SIZE

  /** A byte value as an 8-bit vector. */
  function ToBv8(n: nat): (x: bv8)
    requires n < 256
  {
    if n == 0 then 0 else ToBv8(n - 1) + 1
  }

  lemma {:induction false} ToBv8Value(n: nat)
    requires n < 256
    ensures ToBv8(n) as int == n
  {
    if n != 0 {
      ToBv8Value(n - 1);
      var y := ToBv8(n - 1);
      assert (y + 1) as int == y as int + 1;
    }
  }

  /** Setting the three low bits rounds down to a multiple of eight and adds
      seven. */
  lemma OrLow(x: bv8)
    ensures (x | 7) as int == (x as int / 8) * 8 + 7
  {
  }

  lemma RoundUp(n: int)
    ensures var r := (n / 8) * 8 + 8; LongAligned(r) && n + 1 <= r < n + 9
  {
  }

  /** SA_SIZE: the room a sockaddr takes in a message,
      `1 + ((len - 1) | (sizeof(long) - 1))`, its length rounded up to a
      whole number of longs; a zero length still takes one long. */
  function SaSize(saLen: byte): (r: nat)
    ensures LongAligned(r)
    ensures saLen == 0 ==> r == LongSize
    ensures saLen != 0 ==> saLen as int <= r < saLen as int + LongSize
  {
    if saLen == 0 then LongSize
    else
      var x := ToBv8(saLen as int - 1);
      ToBv8Value(saLen as int - 1);
      OrLow(x);
      RoundUp(saLen as int - 1);
      1 + (x | 7) as int
  }

  // ---------------------------------------------------------------------
  // ensure_buffer

  function Zeros(n: nat): (r: seq<byte>)
    ensures |r| == n && forall k | 0 <= k < n :: r[k] == 0
  {
    seq(n, _ => 0)
  }

  /** `ensure_buffer` as written: when fewer than `sz` bytes remain after
      `offset`, the WHOLE source is copied to the start of a zero-filled
      buffer of `sz` bytes (which grows to the source's length if that is
      longer) and offset 0 is returned. */
  function EnsureBuffer(source: seq<byte>, offset: nat, sz: nat): (r: (seq<byte>, nat))
    ensures r.1 + sz <= |r.0|
    ensures |source| - offset >= sz ==> r == (source, offset)
    ensures |source| - offset < sz ==> r.1 == 0 && source <= r.0
  {
    if |source| - offset >= sz then (source, offset)
    else if |source| >= sz then (source, 0)
    else (source + Zeros(sz - |source|), 0)
  }

  /** With a 100-byte message and a link-layer sockaddr at 92, the padded
      window starts at the message's first byte, not at byte 92. */
  lemma EnsureBufferLosesOffset()
    ensures var source := seq(100, k requires 0 <= k < 100 => k as byte);
            var r := EnsureBuffer(source, 92, SockaddrDlSize);
            r.1 == 0 && r.0[r.1] == source[0] && r.0[r.1] != source[92]
  {
  }

  /** The `sz` bytes from `offset` on, zero past the end of `source`: what a
      structure overlaid at `offset` is meant to see. */
  function Window(source: seq<byte>, offset: nat, sz: nat): (w: seq<byte>)
    ensures |w| == sz
  {
    seq(sz, k requires 0 <= k < sz => if offset + k < |source| then source[offset + k] else 0)
  }

  /** `ensure_buffer` as evidently intended: the `sz` bytes at the returned
      offset are the source's bytes from `offset` on, zero-padded past its
      end. */
  function EnsureBufferAt(source: seq<byte>, offset: nat, sz: nat): (r: (seq<byte>, nat))
    ensures r.1 + sz <= |r.0|
    ensures r.0[r.1..r.1 + sz] == Window(source, offset, sz)
    ensures |source| - offset >= sz ==> r == (source, offset)
  {
    if |source| - offset >= sz then
      assert source[offset..offset + sz] == Window(source, offset, sz);
      (source, offset)
    else if offset >= |source| then
      assert Zeros(sz) == Window(source, offset, sz);
      (Zeros(sz), 0)
    else
      var b := source[offset..] + Zeros(sz - (|source| - offset));
      assert b[..sz] == Window(source, offset, sz);
      (b, 0)
  }

  // ---------------------------------------------------------------------
  // Sockaddrs

  /** The `RTM_ADDR` flags, in the order `get_rtm_addrs` visits them. */
  datatype AddrKind = Dst | Gateway | Netmask | Genmask | Ifp | Ifa | Author | Brd

  const Kinds: seq<AddrKind> := [Dst, Gateway, Netmask, Genmask, Ifp, Ifa, Author, Brd]

  function Bit(k: AddrKind): bv32 {
    match k
    case Dst => 0x1
    case Gateway => 0x2
    case Netmask => 0x4
    case Genmask => 0x8
    case Ifp => 0x10
    case Ifa => 0x20
    case Author => 0x40
    case Brd => 0x80
  }

  /** The test `mask & kind.value` of the walk. */
  predicate Has(mask: bv32, k: AddrKind) {
    mask & Bit(k) != 0
  }

  function Index(k: AddrKind): (i: nat)
    ensures i < |Kinds| && Kinds[i] == k
  {
    match k
    case Dst => 0
    case Gateway => 1
    case Netmask => 2
    case Genmask => 3
    case Ifp => 4
    case Ifa => 5
    case Author => 6
    case Brd => 7
  }

  /** A sockaddr as `get_rtm_addrs` returns it: the bytes of the structure
      its family selects. */
  datatype Sockaddr = SockaddrIn(raw: seq<byte>) | SockaddrIn6(raw: seq<byte>) | SockaddrDl(raw: seq<byte>) {
    function Size(): nat {
      match this
      case SockaddrIn(_) => SockaddrInSize
      case SockaddrIn6(_) => SockaddrIn6Size
      case SockaddrDl(_) => SockaddrDlSize
    }

    function Family(): byte {
      match this
      case SockaddrIn(_) => AF_INET
      case SockaddrIn6(_) => AF_INET6
      case SockaddrDl(_) => AF_LINK
    }

    /** Exactly the structure's size, a non-zero length byte and the family
        byte its type stands for. */
    predicate WellFormed() {
      |raw| == Size() && raw[0] != 0 && raw[1] == Family()
    }
  }

  /** One step of `get_rtm_addrs`: overlay a generic sockaddr at `p` (which
      needs 16 bytes), refuse a zero length, overlay the structure the family
      names, and report how far the cursor moves. A link-layer sockaddr is
      overlaid on what `ensure_buffer` returns, so one read within 54 bytes of
      the end of the message is overlaid on the message's first 54 bytes. */
  function ReadSockaddr(buf: seq<byte>, p: nat): (r: Result<(Sockaddr, nat)>)
    ensures r.Success? <==>
              p + SockaddrSize <= |buf| && buf[p] != 0 &&
              (buf[p + 1] == AF_INET || buf[p + 1] == AF_LINK ||
               (buf[p + 1] == AF_INET6 && p + SockaddrIn6Size <= |buf|))
    ensures r.Success? ==> r.value.0.Family() == buf[p + 1] && r.value.1 == SaSize(buf[p])
    ensures r.Success? && p + r.value.0.Size() <= |buf| ==>
              r.value.0.raw == buf[p..p + r.value.0.Size()] && r.value.0.WellFormed()
    ensures r.Success? && p + r.value.0.Size() > |buf| ==>
              r.value.0.SockaddrDl? && r.value.0.raw == Window(buf, 0, SockaddrDlSize)
  {
    if p + SockaddrSize > |buf| then Failure("buffer too small")
    else
      var saLen := buf[p];
      var family := buf[p + 1];
      if saLen == 0 then Failure("sa.sa_len == 0")
      else if family == AF_INET6 then
        if p + SockaddrIn6Size > |buf| then Failure("buffer too small")
        else Success((SockaddrIn6(buf[p..p + SockaddrIn6Size]), SaSize(saLen)))
      else if family == AF_INET then
        Success((SockaddrIn(buf[p..p + SockaddrInSize]), SaSize(saLen)))
      else if family == AF_LINK then
        var e := EnsureBuffer(buf, p, SockaddrDlSize);
        assert |buf| - p < SockaddrDlSize ==> e.0[e.1..e.1 + SockaddrDlSize] == Window(buf, 0, SockaddrDlSize);
        Success((SockaddrDl(e.0[e.1..e.1 + SockaddrDlSize]), SaSize(saLen)))
      else Failure("unknown sa.sa_family: " + Decimal(family as nat))
  }

  /** The same step with `ensure_buffer` as intended: a link-layer sockaddr
      is overlaid on the message's bytes from the cursor on, zero-padded. */
  function ReadSockaddrAt(buf: seq<byte>, p: nat): (r: Result<(Sockaddr, nat)>)
    ensures r.Success? <==> ReadSockaddr(buf, p).Success?
    ensures r.Success? ==> r.value.0.WellFormed() && r.value.1 == SaSize(buf[p])
    ensures r.Success? ==> r.value.0.raw == Window(buf, p, r.value.0.Size())
  {
    var r := ReadSockaddr(buf, p);
    if r.Success? && r.value.0.SockaddrDl? then
      var e := EnsureBufferAt(buf, p, SockaddrDlSize);
      Success((SockaddrDl(e.0[e.1..e.1 + SockaddrDlSize]), r.value.1))
    else
      assert r.Success? ==> r.value.0.raw == Window(buf, p, r.value.0.Size());
      r
  }

  /** The two readers fail alike and move the cursor alike; they read the
      same sockaddr except a link-layer one within 54 bytes of the end. */
  lemma ReadersAgree(buf: seq<byte>, p: nat)
    ensures ReadSockaddr(buf, p).Failure? ==> ReadSockaddrAt(buf, p) == ReadSockaddr(buf, p)
    ensures ReadSockaddr(buf, p).Success? ==>
              ReadSockaddrAt(buf, p).value.1 == ReadSockaddr(buf, p).value.1 &&
              ReadSockaddrAt(buf, p).value.0.Family() == ReadSockaddr(buf, p).value.0.Family()
    ensures ReadSockaddr(buf, p).Success? && ReadSockaddrAt(buf, p).value.0 != ReadSockaddr(buf, p).value.0 ==>
              ReadSockaddr(buf, p).value.0.SockaddrDl? && p + SockaddrDlSize > |buf|
  {
  }

  // ---------------------------------------------------------------------
  // get_rtm_addrs

  /** A reader of one sockaddr at a cursor, as `ReadSockaddr` is. */
  type Reader = (seq<byte>, nat) -> Result<(Sockaddr, nat)>

  /** A size rule for a sockaddr, given its length byte, as `SA_SIZE` is. */
  type SizeRule = byte -> nat

  /** A reader whose sockaddrs are well formed. */
  ghost predicate ReadsWellFormed(read: Reader) {
    forall buf: seq<byte>, p: nat | read(buf, p).Success? :: read(buf, p).value.0.WellFormed()
  }

  /** A reader that moves the cursor by `size` of the length byte of the
      sockaddr it read. */
  ghost predicate MovesBy(read: Reader, size: SizeRule) {
    forall buf: seq<byte>, p: nat | read(buf, p).Success? ::
      |read(buf, p).value.0.raw| > 0 && read(buf, p).value.1 == size(read(buf, p).value.0.raw[0])
  }

  /** A size rule that never gives less than one long. */
  ghost predicate AtLeastLong(size: SizeRule) {
    forall b: byte :: size(b) >= LongSize
  }

  /** A size rule that always gives a whole number of longs. */
  ghost predicate LongMultiples(size: SizeRule) {
    forall b: byte :: LongAligned(size(b))
  }

  /** The length byte of a sockaddr read at `p` is the message's byte at `p`. */
  lemma ReadSockaddrAtLength(buf: seq<byte>, p: nat)
    requires ReadSockaddrAt(buf, p).Success?
    ensures ReadSockaddrAt(buf, p).value.0.raw[0] == buf[p]
  {
    var sa := ReadSockaddrAt(buf, p).value.0;
    assert Window(buf, p, sa.Size())[0] == buf[p];
  }

  /** `ReadSockaddrAt` reads well-formed sockaddrs and moves the cursor by
      `SA_SIZE` of their own length byte. */
  lemma ReadSockaddrAtSound()
    ensures ReadsWellFormed(ReadSockaddrAt) && MovesBy(ReadSockaddrAt, SaSize)
  {
    forall buf: seq<byte>, p: nat | ReadSockaddrAt(buf, p).Success?
      ensures ReadSockaddrAt(buf, p).value.0.WellFormed() &&
              |ReadSockaddrAt(buf, p).value.0.raw| > 0 &&
              ReadSockaddrAt(buf, p).value.1 == SaSize(ReadSockaddrAt(buf, p).value.0.raw[0])
    {
      ReadSockaddrAtLength(buf, p);
    }
  }

  /** An order of visit that names no kind twice. */
  predicate Distinct(kinds: seq<AddrKind>) {
    forall a, b | 0 <= a < b < |kinds| :: kinds[a] != kinds[b]
  }

  /** The walk over `kinds` from position `i` on, reading a sockaddr for
      each kind in `want`: cursor `p`, sockaddrs found so far `acc`.
      `get_rtm_addrs` is the walk with `ReadSockaddr` over `Kinds` from
      position 0, wanting the kinds its mask names. */
  function Walk(read: Reader, buf: seq<byte>, p: nat, want: set<AddrKind>, kinds: seq<AddrKind>, i: nat,
                acc: map<AddrKind, Sockaddr>): Result<(nat, map<AddrKind, Sockaddr>)>
    requires i <= |kinds|
    decreases |kinds| - i
  {
    if i == |kinds| then Success((p, acc))
    else if kinds[i] !in want then Walk(read, buf, p, want, kinds, i + 1, acc)
    else
      match read(buf, p)
      case Failure(e) => Failure(e)
      case Success(step) => Walk(read, buf, p + step.1, want, kinds, i + 1, acc[kinds[i] := step.0])
  }

  /** The kinds whose bit is set in `mask`. */
  function Requested(mask: bv32): set<AddrKind> {
    set k: AddrKind | Has(mask, k)
  }

  /** The wanted kinds from position `i` of `kinds` on. */
  function RequestedFrom(want: set<AddrKind>, kinds: seq<AddrKind>, i: nat): set<AddrKind>
    requires i <= |kinds|
    decreases |kinds| - i
  {
    if i == |kinds| then {}
    else (if kinds[i] in want then {kinds[i]} else {}) + RequestedFrom(want, kinds, i + 1)
  }

  /** How many kinds from position `i` of `kinds` on are wanted. */
  function CountFrom(want: set<AddrKind>, kinds: seq<AddrKind>, i: nat): nat
    requires i <= |kinds|
    decreases |kinds| - i
  {
    if i == |kinds| then 0
    else (if kinds[i] in want then 1 else 0) + CountFrom(want, kinds, i + 1)
  }

  /** The wanted kinds from position `i` on are the wanted kinds that occur
      in `kinds` at `i` or later. */
  lemma {:induction false} RequestedFromMembers(want: set<AddrKind>, kinds: seq<AddrKind>, i: nat, k: AddrKind)
    requires i <= |kinds|
    ensures k in RequestedFrom(want, kinds, i) <==> k in want && k in kinds[i..]
    decreases |kinds| - i
  {
    if i < |kinds| {
      RequestedFromMembers(want, kinds, i + 1, k);
      assert kinds[i..] == [kinds[i]] + kinds[i + 1..];
    }
  }

  /** The position of the kind at position `i` of `Kinds` is `i`. */
  lemma IndexOfKind(i: nat)
    requires i < |Kinds|
    ensures Index(Kinds[i]) == i
  {
    if i == 0 || i == 1 || i == 2 || i == 3 {
      assert Index(Kinds[i]) == i;
    } else {
      assert Index(Kinds[i]) == i;
    }
  }

  /** `get_rtm_addrs` visits each kind once. */
  lemma KindsDistinct()
    ensures Distinct(Kinds)
  {
    forall a: nat, b: nat | 0 <= a < b < |Kinds| ensures Kinds[a] != Kinds[b] {
      IndexOfKind(a);
      IndexOfKind(b);
    }
  }

  /** The walk over `Kinds` from the start wants every wanted kind. */
  lemma RequestedFromStart(want: set<AddrKind>)
    ensures RequestedFrom(want, Kinds, 0) == want
  {
    assert Kinds[0..] == Kinds;
    forall k: AddrKind ensures k in RequestedFrom(want, Kinds, 0) <==> k in want {
      RequestedFromMembers(want, Kinds, 0, k);
      assert Kinds[Index(k)] == k;
    }
  }

  /** A successful walk from position `i` adds exactly the wanted kinds from
      `i` on to the ones already found. */
  lemma {:induction false} WalkKeys(read: Reader, buf: seq<byte>, p: nat, want: set<AddrKind>, kinds: seq<AddrKind>, i: nat,
                                    acc: map<AddrKind, Sockaddr>)
    requires i <= |kinds|
    requires Walk(read, buf, p, want, kinds, i, acc).Success?
    ensures Walk(read, buf, p, want, kinds, i, acc).value.1.Keys == acc.Keys + RequestedFrom(want, kinds, i)
    decreases |kinds| - i
  {
    if i < |kinds| {
      if kinds[i] !in want {
        assert Walk(read, buf, p, want, kinds, i, acc) == Walk(read, buf, p, want, kinds, i + 1, acc);
        WalkKeys(read, buf, p, want, kinds, i + 1, acc);
      } else {
        var step := read(buf, p).value;
        var acc' := acc[kinds[i] := step.0];
        assert Walk(read, buf, p, want, kinds, i, acc) == Walk(read, buf, p + step.1, want, kinds, i + 1, acc');
        WalkKeys(read, buf, p + step.1, want, kinds, i + 1, acc');
        assert acc'.Keys == acc.Keys + {kinds[i]};
      }
    }
  }

  /** Every sockaddr a successful walk binds is well formed. */
  lemma {:induction false} WalkWellFormed(read: Reader, buf: seq<byte>, p: nat, want: set<AddrKind>, kinds: seq<AddrKind>, i: nat,
                                          acc: map<AddrKind, Sockaddr>)
    requires i <= |kinds| && ReadsWellFormed(read)
    requires forall k | k in acc :: acc[k].WellFormed()
    requires Walk(read, buf, p, want, kinds, i, acc).Success?
    ensures var m := Walk(read, buf, p, want, kinds, i, acc).value.1;
            forall k | k in m :: m[k].WellFormed()
    decreases |kinds| - i
  {
    if i < |kinds| {
      if kinds[i] !in want {
        assert Walk(read, buf, p, want, kinds, i, acc) == Walk(read, buf, p, want, kinds, i + 1, acc);
        WalkWellFormed(read, buf, p, want, kinds, i + 1, acc);
      } else {
        var step := read(buf, p).value;
        assert step.0.WellFormed();
        var acc' := acc[kinds[i] := step.0];
        assert forall k | k in acc' :: acc'[k].WellFormed();
        assert Walk(read, buf, p, want, kinds, i, acc) == Walk(read, buf, p + step.1, want, kinds, i + 1, acc');
        WalkWellFormed(read, buf, p + step.1, want, kinds, i + 1, acc');
      }
    }
  }

  /** A whole number of longs. */
  predicate LongAligned(n: int) {
    n % LongSize == 0
  }

  lemma AddMultiples(a: int, b: int)
    requires LongAligned(a) && LongAligned(b)
    ensures LongAligned(a + b)
  {
    assert a == LongSize * (a / LongSize) && b == LongSize * (b / LongSize);
    assert a + b == LongSize * (a / LongSize + b / LongSize);
  }

  /** A successful walk moves the cursor by at least one long per sockaddr
      read, when each move is at least a long. */
  lemma {:induction false} WalkAtLeast(read: Reader, size: SizeRule, buf: seq<byte>, p: nat, want: set<AddrKind>,
                                       kinds: seq<AddrKind>, i: nat, acc: map<AddrKind, Sockaddr>)
    requires i <= |kinds| && MovesBy(read, size) && AtLeastLong(size)
    requires Walk(read, buf, p, want, kinds, i, acc).Success?
    ensures Walk(read, buf, p, want, kinds, i, acc).value.0 >= p + LongSize * CountFrom(want, kinds, i)
    decreases |kinds| - i
  {
    if i < |kinds| {
      if kinds[i] !in want {
        assert Walk(read, buf, p, want, kinds, i, acc) == Walk(read, buf, p, want, kinds, i + 1, acc);
        WalkAtLeast(read, size, buf, p, want, kinds, i + 1, acc);
      } else {
        var step := read(buf, p).value;
        assert step.1 == size(step.0.raw[0]) >= LongSize;
        var acc' := acc[kinds[i] := step.0];
        assert Walk(read, buf, p, want, kinds, i, acc) == Walk(read, buf, p + step.1, want, kinds, i + 1, acc');
        WalkAtLeast(read, size, buf, p + step.1, want, kinds, i + 1, acc');
      }
    }
  }

  /** The sum of the sizes of the sockaddrs bound to the wanted kinds from
      position `i` on, each taken from its own length byte. */
  function SizesFrom(size: SizeRule, m: map<AddrKind, Sockaddr>, want: set<AddrKind>, kinds: seq<AddrKind>, i: nat): nat
    requires i <= |kinds|
    decreases |kinds| - i
  {
    if i == |kinds| then 0
    else if kinds[i] in want && kinds[i] in m && |m[kinds[i]].raw| > 0 then
      size(m[kinds[i]].raw[0]) + SizesFrom(size, m, want, kinds, i + 1)
    else SizesFrom(size, m, want, kinds, i + 1)
  }

  /** When every size is a whole number of longs, so is their sum. */
  lemma {:induction false} SizesAligned(size: SizeRule, m: map<AddrKind, Sockaddr>, want: set<AddrKind>, kinds: seq<AddrKind>, i: nat)
    requires i <= |kinds| && LongMultiples(size)
    ensures LongAligned(SizesFrom(size, m, want, kinds, i))
    decreases |kinds| - i
  {
    if i < |kinds| {
      SizesAligned(size, m, want, kinds, i + 1);
      if kinds[i] in want && kinds[i] in m && |m[kinds[i]].raw| > 0 {
        AddMultiples(size(m[kinds[i]].raw[0]), SizesFrom(size, m, want, kinds, i + 1));
      }
    }
  }

  /** A walk from position `i` leaves alone what was found for a kind at an
      earlier position. */
  lemma {:induction false} WalkKeeps(read: Reader, buf: seq<byte>, p: nat, want: set<AddrKind>, kinds: seq<AddrKind>, i: nat,
                                     acc: map<AddrKind, Sockaddr>, j: nat)
    requires Distinct(kinds) && j < i <= |kinds|
    requires Walk(read, buf, p, want, kinds, i, acc).Success?
    requires kinds[j] in acc
    ensures var m := Walk(read, buf, p, want, kinds, i, acc).value.1;
            kinds[j] in m && m[kinds[j]] == acc[kinds[j]]
    decreases |kinds| - i
  {
    if i < |kinds| {
      if kinds[i] !in want {
        assert Walk(read, buf, p, want, kinds, i, acc) == Walk(read, buf, p, want, kinds, i + 1, acc);
        WalkKeeps(read, buf, p, want, kinds, i + 1, acc, j);
      } else {
        var step := read(buf, p).value;
        assert kinds[j] != kinds[i];
        WalkKeeps(read, buf, p + step.1, want, kinds, i + 1, acc[kinds[i] := step.0], j);
      }
    }
  }

  /** A successful walk ends exactly the sum of the sizes of the sockaddrs
      it read past where it started. */
  lemma {:induction false} WalkOffset(read: Reader, size: SizeRule, buf: seq<byte>, p: nat, want: set<AddrKind>,
                                      kinds: seq<AddrKind>, i: nat, acc: map<AddrKind, Sockaddr>)
    requires Distinct(kinds) && i <= |kinds| && MovesBy(read, size)
    requires Walk(read, buf, p, want, kinds, i, acc).Success?
    ensures Walk(read, buf, p, want, kinds, i, acc).value.0 ==
            p + SizesFrom(size, Walk(read, buf, p, want, kinds, i, acc).value.1, want, kinds, i)
    decreases |kinds| - i
  {
    if i < |kinds| {
      if kinds[i] !in want {
        assert Walk(read, buf, p, want, kinds, i, acc) == Walk(read, buf, p, want, kinds, i + 1, acc);
        WalkOffset(read, size, buf, p, want, kinds, i + 1, acc);
      } else {
        var step := read(buf, p).value;
        assert |step.0.raw| > 0 && step.1 == size(step.0.raw[0]);
        var acc' := acc[kinds[i] := step.0];
        var w := Walk(read, buf, p + step.1, want, kinds, i + 1, acc');
        assert Walk(read, buf, p, want, kinds, i, acc) == w;
        WalkOffset(read, size, buf, p + step.1, want, kinds, i + 1, acc');
        WalkKeeps(read, buf, p + step.1, want, kinds, i + 1, acc', i);
        assert w.value.1[kinds[i]] == step.0;
        assert SizesFrom(size, w.value.1, want, kinds, i) == step.1 + SizesFrom(size, w.value.1, want, kinds, i + 1);
      }
    }
  }

  /** A successful walk from the start, over an order that names no kind
      twice, with a reader that moves by a size rule, moves the cursor by
      the sum of the sizes of what it found; when the rule rounds to longs,
      that is a whole number of longs and at least one per sockaddr. */
  lemma WalkTotals(read: Reader, size: SizeRule, buf: seq<byte>, p0: nat, want: set<AddrKind>, kinds: seq<AddrKind>)
    requires Distinct(kinds) && MovesBy(read, size) && AtLeastLong(size) && LongMultiples(size)
    requires Walk(read, buf, p0, want, kinds, 0, map[]).Success?
    ensures var w := Walk(read, buf, p0, want, kinds, 0, map[]).value;
            w.0 == p0 + SizesFrom(size, w.1, want, kinds, 0) &&
            LongAligned(w.0 - p0) &&
            w.0 >= p0 + LongSize * CountFrom(want, kinds, 0)
  {
    var w := Walk(read, buf, p0, want, kinds, 0, map[]).value;
    WalkOffset(read, size, buf, p0, want, kinds, 0, map[]);
    SizesAligned(size, w.1, want, kinds, 0);
    WalkAtLeast(read, size, buf, p0, want, kinds, 0, map[]);
  }

  /** Two maps of sockaddrs with the same kinds, binding the same sockaddr
      to each kind except, possibly, a link-layer one. */
  ghost predicate SameButLinks(m1: map<AddrKind, Sockaddr>, m2: map<AddrKind, Sockaddr>) {
    m1.Keys == m2.Keys &&
    forall k | k in m1 :: m1[k] == m2[k] || (m1[k].SockaddrDl? && m2[k].SockaddrDl?)
  }

  /** Two readers that fail alike, move the cursor alike and read the same
      sockaddr except, possibly, a link-layer one. */
  ghost predicate AgreeButLinks(r1: Reader, r2: Reader) {
    forall buf: seq<byte>, p: nat ::
      (r1(buf, p).Failure? ==> r2(buf, p) == r1(buf, p)) &&
      (r1(buf, p).Success? ==>
         r2(buf, p).Success? && r2(buf, p).value.1 == r1(buf, p).value.1 &&
         (r2(buf, p).value.0 == r1(buf, p).value.0 || (r1(buf, p).value.0.SockaddrDl? && r2(buf, p).value.0.SockaddrDl?)))
  }

  /** Walks with two such readers fail alike, and otherwise end at the same
      cursor with the same sockaddrs except link-layer ones. */
  lemma {:induction false} WalkAgrees(r1: Reader, r2: Reader, buf: seq<byte>, p: nat, want: set<AddrKind>,
                                      kinds: seq<AddrKind>, i: nat, acc1: map<AddrKind, Sockaddr>,
                                      acc2: map<AddrKind, Sockaddr>)
    requires i <= |kinds| && AgreeButLinks(r1, r2) && SameButLinks(acc1, acc2)
    ensures var w1 := Walk(r1, buf, p, want, kinds, i, acc1);
            var w2 := Walk(r2, buf, p, want, kinds, i, acc2);
            (w1.Failure? ==> w2 == w1) &&
            (w1.Success? ==> w2.Success? && w2.value.0 == w1.value.0 && SameButLinks(w1.value.1, w2.value.1))
    decreases |kinds| - i
  {
    if i == |kinds| {
      assert Walk(r1, buf, p, want, kinds, i, acc1) == Success((p, acc1));
      assert Walk(r2, buf, p, want, kinds, i, acc2) == Success((p, acc2));
    } else if kinds[i] !in want {
      assert Walk(r1, buf, p, want, kinds, i, acc1) == Walk(r1, buf, p, want, kinds, i + 1, acc1);
      assert Walk(r2, buf, p, want, kinds, i, acc2) == Walk(r2, buf, p, want, kinds, i + 1, acc2);
      WalkAgrees(r1, r2, buf, p, want, kinds, i + 1, acc1, acc2);
    } else if r1(buf, p).Failure? {
      assert r2(buf, p) == r1(buf, p);
      assert Walk(r1, buf, p, want, kinds, i, acc1) == Failure(r1(buf, p).error);
      assert Walk(r2, buf, p, want, kinds, i, acc2) == Failure(r1(buf, p).error);
    } else {
      var s1 := r1(buf, p).value;
      var s2 := r2(buf, p).value;
      assert s2.1 == s1.1;
      var acc1' := acc1[kinds[i] := s1.0];
      var acc2' := acc2[kinds[i] := s2.0];
      assert Walk(r1, buf, p, want, kinds, i, acc1) == Walk(r1, buf, p + s1.1, want, kinds, i + 1, acc1');
      assert Walk(r2, buf, p, want, kinds, i, acc2) == Walk(r2, buf, p + s1.1, want, kinds, i + 1, acc2');
      WalkAgrees(r1, r2, buf, p + s1.1, want, kinds, i + 1, acc1', acc2');
    }
  }

  /** The walk of the code and the walk with the intended reader fail alike,
      and otherwise end at the same cursor with the same sockaddrs except
      link-layer ones. */
  lemma WalkAsWritten(buf: seq<byte>, p0: nat, want: set<AddrKind>)
    ensures var w1 := Walk(ReadSockaddr, buf, p0, want, Kinds, 0, map[]);
            var w2 := Walk(ReadSockaddrAt, buf, p0, want, Kinds, 0, map[]);
            (w1.Failure? ==> w2 == w1) &&
            (w1.Success? ==> w2.Success? && w2.value.0 == w1.value.0 && SameButLinks(w1.value.1, w2.value.1))
  {
    forall buf: seq<byte>, p: nat
      ensures (ReadSockaddr(buf, p).Failure? ==> ReadSockaddrAt(buf, p) == ReadSockaddr(buf, p)) &&
              (ReadSockaddr(buf, p).Success? ==>
                 ReadSockaddrAt(buf, p).Success? && ReadSockaddrAt(buf, p).value.1 == ReadSockaddr(buf, p).value.1 &&
                 (ReadSockaddrAt(buf, p).value.0 == ReadSockaddr(buf, p).value.0 ||
                  (ReadSockaddr(buf, p).value.0.SockaddrDl? && ReadSockaddrAt(buf, p).value.0.SockaddrDl?)))
    {
      ReadersAgree(buf, p);
    }
    assert AgreeButLinks(ReadSockaddr, ReadSockaddrAt);
    WalkAgrees(ReadSockaddr, ReadSockaddrAt, buf, p0, want, Kinds, 0, map[], map[]);
  }

  /** A successful walk with `ReadSockaddrAt` over `Kinds` finds one
      well-formed sockaddr for each wanted kind, and no other. */
  lemma WalkFinds(buf: seq<byte>, p0: nat, want: set<AddrKind>)
    requires Walk(ReadSockaddrAt, buf, p0, want, Kinds, 0, map[]).Success?
    ensures var m := Walk(ReadSockaddrAt, buf, p0, want, Kinds, 0, map[]).value.1;
            m.Keys == want && forall k | k in m :: m[k].WellFormed()
  {
    WalkKeys(ReadSockaddrAt, buf, p0, want, Kinds, 0, map[]);
    RequestedFromStart(want);
    ReadSockaddrAtSound();
    WalkWellFormed(ReadSockaddrAt, buf, p0, want, Kinds, 0, map[]);
  }

  /** `SA_SIZE` rounds every length up to a non-zero whole number of longs. */
  lemma SaSizeRounds()
    ensures AtLeastLong(SaSize) && LongMultiples(SaSize)
  {
    forall b: byte ensures SaSize(b) >= LongSize && LongAligned(SaSize(b)) {
      if b != 0 {
        assert SaSize(b) > 0;
      }
    }
  }

  /** A successful walk with `ReadSockaddrAt` over `Kinds` moves the cursor
      by the sum of the `SA_SIZE`s of what it found, a whole number of longs
      and at least one long per sockaddr. */
  lemma WalkMoves(buf: seq<byte>, p0: nat, want: set<AddrKind>)
    requires Walk(ReadSockaddrAt, buf, p0, want, Kinds, 0, map[]).Success?
    ensures var w := Walk(ReadSockaddrAt, buf, p0, want, Kinds, 0, map[]).value;
            w.0 == p0 + SizesFrom(SaSize, w.1, want, Kinds, 0) &&
            LongAligned(w.0 - p0) &&
            w.0 >= p0 + LongSize * CountFrom(want, Kinds, 0)
  {
    KindsDistinct();
    ReadSockaddrAtSound();
    SaSizeRounds();
    WalkTotals(ReadSockaddrAt, SaSize, buf, p0, want, Kinds);
  }

  /** `w1` succeeds exactly when `w2` does; it then finds the kinds `want`,
      binds the same sockaddrs as `w2` except link-layer ones, and ends at
      the same cursor, the start plus the `SA_SIZE`s `w2` read. */
  ghost predicate WalksAgree(w1: Result<(nat, map<AddrKind, Sockaddr>)>, w2: Result<(nat, map<AddrKind, Sockaddr>)>,
                             p0: nat, want: set<AddrKind>) {
    (w1.Success? <==> w2.Success?) &&
    (w1.Success? ==>
       w1.value.1.Keys == want && SameButLinks(w1.value.1, w2.value.1) &&
       w1.value.0 == w2.value.0 == p0 + SizesFrom(SaSize, w2.value.1, want, Kinds, 0))
  }

  /** The walk of the code agrees with the walk with the intended reader. */
  lemma RtmAddrsAsWritten(buf: seq<byte>, p0: nat, want: set<AddrKind>)
    ensures WalksAgree(Walk(ReadSockaddr, buf, p0, want, Kinds, 0, map[]),
                       Walk(ReadSockaddrAt, buf, p0, want, Kinds, 0, map[]), p0, want)
  {
    WalkAsWritten(buf, p0, want);
    if Walk(ReadSockaddr, buf, p0, want, Kinds, 0, map[]).Success? {
      WalkFinds(buf, p0, want);
      WalkMoves(buf, p0, want);
    }
  }

  /** `get_rtm_addrs`: visit the kinds in order, reading one sockaddr for
      every bit set in `mask`, and return the cursor past the last one with
      the sockaddrs by kind: the walk with `ReadSockaddr`, which
      `RtmAddrsAsWritten` relates to the walk with the intended reader. */
  method GetRtmAddrs(buf: seq<byte>, p0: nat, mask: bv32) returns (r: Result<(nat, map<AddrKind, Sockaddr>)>)
    ensures r == Walk(ReadSockaddr, buf, p0, Requested(mask), Kinds, 0, map[])
  {
    var want := Requested(mask);
    var p: nat := p0;
    var addrs: map<AddrKind, Sockaddr> := map[];
    for i := 0 to |Kinds|
      invariant Walk(ReadSockaddr, buf, p, want, Kinds, i, addrs) == Walk(ReadSockaddr, buf, p0, want, Kinds, 0, map[])
    {
      var kind := Kinds[i];
      if !Has(mask, kind) {
        assert Walk(ReadSockaddr, buf, p, want, Kinds, i, addrs) == Walk(ReadSockaddr, buf, p, want, Kinds, i + 1, addrs);
        continue;
      }
      var sa := ReadSockaddr(buf, p);
      if sa.Failure? {
        assert Walk(ReadSockaddr, buf, p, want, Kinds, i, addrs) == Failure(sa.error);
        return Failure(sa.error);
      }
      assert Walk(ReadSockaddr, buf, p, want, Kinds, i, addrs) ==
             Walk(ReadSockaddr, buf, p + sa.value.1, want, Kinds, i + 1, addrs[kind := sa.value.0]);
      addrs := addrs[kind := sa.value.0];
      p := p + sa.value.1;
    }
    r := Success((p, addrs));
    assert r == Walk(ReadSockaddr, buf, p0, want, Kinds, 0, map[]);
  }

  // ---------------------------------------------------------------------
  // Addresses of internet sockaddrs

  function BigEndian(bs: seq<byte>): (r: nat)
    ensures r < Pow2(8 * |bs|)
  {
    if |bs| == 0 then 0
    else
      var h := BigEndian(bs[..|bs| - 1]);
      Pow2Add8(8 * (|bs| - 1));
      h * 256 + bs[|bs| - 1] as nat
  }

  lemma Pow2Add8(n: nat)
    ensures Pow2(n + 8) == 256 * Pow2(n)
  {
    assert Pow2(n + 8) == 2 * Pow2(n + 7) == 4 * Pow2(n + 6) == 8 * Pow2(n + 5) == 16 * Pow2(n + 4)
        == 32 * Pow2(n + 3) == 64 * Pow2(n + 2) == 128 * Pow2(n + 1) == 256 * Pow2(n);
  }

  /** The address an internet sockaddr carries (`sin_addr` at offset 4,
      `sin6_addr` at offset 8, both in network byte order), the value
      `str_sockaddr` prints. */
  function SockaddrAddr(sa: Sockaddr): (r: Option<Addr>)
    requires sa.WellFormed()
    ensures r.Some? <==> !sa.SockaddrDl?
    ensures r.Some? ==> r.value.Valid() && (r.value.af == Inet <==> sa.SockaddrIn?)
  {
    match sa
    case SockaddrIn(raw) => Some(Addr(Inet, BigEndian(raw[4..8])))
    case SockaddrIn6(raw) => Some(Addr(Inet6, BigEndian(raw[8..24])))
    case SockaddrDl(_) => None
  }

  // ---------------------------------------------------------------------
  // Text forms

  function Digit(d: nat): (c: char)
    requires d < 10
  {
    ('0' as int + d) as char
  }

  function DigitVal(c: char): nat {
    if '0' <= c <= '9' then (c as int - '0' as int) as nat else 0
  }

  /** Decimal notation of `n`, as an f-string prints it. */
  function Decimal(n: nat): (s: string)
    ensures |s| >= 1 && forall k | 0 <= k < |s| :: '0' <= s[k] <= '9'
  {
    if n < 10 then [Digit(n)] else Decimal(n / 10) + [Digit(n % 10)]
  }

  function ParseDecimal(s: string): nat {
    if |s| == 0 then 0 else ParseDecimal(s[..|s| - 1]) * 10 + DigitVal(s[|s| - 1])
  }

  lemma {:induction false} DecimalRoundTrip(n: nat)
    ensures ParseDecimal(Decimal(n)) == n
  {
    if n >= 10 {
      var s := Decimal(n);
      assert s[..|s| - 1] == Decimal(n / 10);
      DecimalRoundTrip(n / 10);
    }
  }

  function HexDigit(d: nat): char
    requires d < 16
  {
    if d < 10 then ('0' as int + d) as char else ('a' as int + d - 10) as char
  }

  predicate IsHex(c: char) {
    '0' <= c <= '9' || 'a' <= c <= 'f'
  }

  function HexVal(c: char): (v: nat)
    ensures v < 16
  {
    if '0' <= c <= '9' then (c as int - '0' as int) as nat
    else if 'a' <= c <= 'f' then (c as int - 'a' as int + 10) as nat
    else 0
  }

  /** `bytes.hex()` of one byte: two lower-case digits. */
  function Hex2(b: byte): string {
    [HexDigit(b as nat / 16), HexDigit(b as nat % 16)]
  }

  /** The hex of `bs` cut into two-digit groups joined by ':'. */
  function ColonHex(bs: seq<byte>): (s: string)
    ensures |s| == if |bs| == 0 then 0 else 3 * |bs| - 1
  {
    if |bs| == 0 then ""
    else if |bs| == 1 then Hex2(bs[0])
    else Hex2(bs[0]) + ":" + ColonHex(bs[1..])
  }

  function ParseColonHex(s: string): Option<seq<byte>> {
    if |s| == 0 then Some([])
    else if |s| < 2 || !IsHex(s[0]) || !IsHex(s[1]) then None
    else
      var b := (HexVal(s[0]) * 16 + HexVal(s[1])) as byte;
      if |s| == 2 then Some([b])
      else if |s| == 3 || s[2] != ':' then None
      else
        match ParseColonHex(s[3..])
        case None => None
        case Some(rest) => Some([b] + rest)
  }

  lemma HexByte(b: byte)
    ensures IsHex(Hex2(b)[0]) && IsHex(Hex2(b)[1])
    ensures (HexVal(Hex2(b)[0]) * 16 + HexVal(Hex2(b)[1])) as byte == b
  {
  }

  /** The colon-separated hex form of a link-layer address determines the
      address. */
  lemma {:induction false} ColonHexRoundTrip(bs: seq<byte>)
    ensures ParseColonHex(ColonHex(bs)) == Some(bs)
    decreases |bs|
  {
    if |bs| >= 1 {
      HexByte(bs[0]);
      if |bs| == 1 {
        assert [bs[0]] == bs;
      } else {
        var s := ColonHex(bs);
        assert s == Hex2(bs[0]) + ":" + ColonHex(bs[1..]);
        assert s[0] == Hex2(bs[0])[0] && s[1] == Hex2(bs[0])[1] && s[2] == ':';
        assert s[3..] == ColonHex(bs[1..]);
        ColonHexRoundTrip(bs[1..]);
        assert [bs[0]] + bs[1..] == bs;
      }
    }
  }

  /** The bytes a ctypes `c_char` array field yields: those before the first
      NUL. */
  function CString(data: seq<byte>): (r: seq<byte>)
    ensures r <= data && 0 !in r
    ensures |r| < |data| ==> data[|r|] == 0
  {
    if |data| == 0 || data[0] == 0 then [] else [data[0]] + CString(data[1..])
  }

  /** A Python slice `s[:n]`. */
  function Take(s: seq<byte>, n: nat): (r: seq<byte>)
    ensures |r| == if n <= |s| then n else |s|
    ensures r <= s
  {
    if n <= |s| then s[..n] else s
  }

  /** Bytes as characters, one per byte. */
  function Latin(bs: seq<byte>): (s: string)
    ensures |s| == |bs|
  {
    seq(|bs|, k requires 0 <= k < |bs| => bs[k] as int as char)
  }

  /** The link-layer branch of `str_sockaddr` over the data bytes it sees:
      the interface name if there is one, else the hardware address in hex,
      else `link#` and the interface index; none of the three is an error. */
  function LinkText(index: nat, nlen: byte, alen: byte, data: seq<byte>): Result<string> {
    if nlen != 0 then Success(Latin(Take(data, nlen as nat)))
    else if alen != 0 then Success(ColonHex(Take(data, alen as nat)))
    else if index != 0 then Success("link#" + Decimal(index))
    else Failure("")
  }

  /** `sdl_index`, a little-endian unsigned short at offset 2. */
  function DlIndex(raw: seq<byte>): nat
    requires |raw| == SockaddrDlSize
  {
    raw[2] as nat + 256 * raw[3] as nat
  }

  /** `sdl_data`, the 46 bytes from offset 8. */
  function DlData(raw: seq<byte>): seq<byte>
    requires |raw| == SockaddrDlSize
  {
    raw[8..]
  }

  /** `str_sockaddr` of a link-layer sockaddr as written: `sdl_data` is read
      through the `c_char` field, so it stops at the first zero byte. */
  function StrSockaddrDlAsWritten(raw: seq<byte>): (r: Result<string>)
    requires |raw| == SockaddrDlSize
    ensures r.Success? <==> raw[5] != 0 || raw[6] != 0 || DlIndex(raw) != 0
    ensures raw[5] == 0 && raw[6] != 0 ==>
              ParseColonHex(r.value) == Some(Take(CString(DlData(raw)), raw[6] as nat))
  {
    var r := LinkText(DlIndex(raw), raw[5], raw[6], CString(DlData(raw)));
    ColonHexRoundTrip(Take(CString(DlData(raw)), raw[6] as nat));
    r
  }

  /** A link-layer sockaddr with no name and hardware address
      02:00:00:00:00:01 prints as "02" as written. */
  lemma LinkAddressTruncatedAtZero()
    ensures var raw := [54, AF_LINK, 1, 0, 6, 0, 6, 0, 2, 0, 0, 0, 0, 1] + Zeros(40);
            |raw| == SockaddrDlSize &&
            StrSockaddrDlAsWritten(raw) == Success("02") &&
            StrSockaddrDl(raw) == Success("02:00:00:00:00:01")
  {
    var raw: seq<byte> := [54, AF_LINK, 1, 0, 6, 0, 6, 0, 2, 0, 0, 0, 0, 1] + Zeros(40);
    var data := DlData(raw);
    assert data[..6] == [2, 0, 0, 0, 0, 1];
    assert CString(data[1..]) == [];
    assert CString(data) == [2];
    assert Take(data, 6) == [2, 0, 0, 0, 0, 1];
    assert Hex2(2) == "02";
    SampleHex();
    assert raw[5] == 0 && raw[6] == 6;
  }

  lemma SampleHex()
    ensures ColonHex([2, 0, 0, 0, 0, 1]) == "02:00:00:00:00:01"
  {
    var bs: seq<byte> := [2, 0, 0, 0, 0, 1];
    assert bs[1..] == [0, 0, 0, 0, 1];
    assert ColonHex(bs) == Hex2(2) + ":" + ColonHex([0, 0, 0, 0, 1]);
    SampleHexTail();
    assert Hex2(2) == "02";
    assert "02" + ":" + "00:00:00:00:01" == "02:00:00:00:00:01";
  }

  lemma SampleHexTail()
    ensures ColonHex([0, 0, 0, 0, 1]) == "00:00:00:00:01"
  {
    assert Hex2(0) == "00" && Hex2(1) == "01";
    assert ColonHex([1]) == "01";
    assert ColonHex([0, 1]) == "00:01";
    assert ColonHex([0, 0, 1]) == "00:00:01";
    assert ColonHex([0, 0, 0, 1]) == "00:00:00:01";
  }

  /** `str_sockaddr` of a link-layer sockaddr as evidently intended: the
      name, or the full hardware address, taken from the raw `sdl_data`. */
  function StrSockaddrDl(raw: seq<byte>): (r: Result<string>)
    requires |raw| == SockaddrDlSize
    ensures r.Success? <==> raw[5] != 0 || raw[6] != 0 || DlIndex(raw) != 0
    ensures raw[5] != 0 ==> r.value == Latin(Take(DlData(raw), raw[5] as nat))
    ensures raw[5] == 0 && raw[6] != 0 ==>
              ParseColonHex(r.value) == Some(Take(DlData(raw), raw[6] as nat)) &&
              |r.value| == 3 * |Take(DlData(raw), raw[6] as nat)| - 1
    ensures raw[5] == 0 && raw[6] == 0 && DlIndex(raw) != 0 ==>
              |r.value| > 5 && r.value[..5] == "link#" && ParseDecimal(r.value[5..]) == DlIndex(raw)
  {
    var r := LinkText(DlIndex(raw), raw[5], raw[6], DlData(raw));
    ColonHexRoundTrip(Take(DlData(raw), raw[6] as nat));
    DecimalRoundTrip(DlIndex(raw));
    assert raw[5] == 0 && raw[6] == 0 && DlIndex(raw) != 0 ==> r.value[5..] == Decimal(DlIndex(raw));
    r
  }

  // ---------------------------------------------------------------------
  // str_flags

  /** `RTM_FLAG` as Python's Enum iterates it: `RTF_LLDATA` shares the value
      of `RTF_LLINFO`, so it is an alias and is not visited. */
  const RtmFlags: seq<(string, bv32)> := [
    ("RTF_UP", 0x1), ("RTF_GATEWAY", 0x2), ("RTF_HOST", 0x4), ("RTF_REJECT", 0x8),
    ("RTF_DYNAMIC", 0x10), ("RTF_MODIFIED", 0x20), ("RTF_DONE", 0x40),
    ("RTF_XRESOLVE", 0x200), ("RTF_LLINFO", 0x400), ("RTF_STATIC", 0x800),
    ("RTF_BLACKHOLE", 0x1000), ("RTF_PROTO2", 0x4000), ("RTF_PROTO1", 0x8000),
    ("RTF_PROTO3", 0x40000), ("RTF_FIXEDMTU", 0x80000), ("RTF_PINNED", 0x100000),
    ("RTF_LOCAL", 0x200000), ("RTF_BROADCAST", 0x400000), ("RTF_MULTICAST", 0x800000),
    ("RTF_STICKY", 0x10000000), ("RTF_GWFLAG_COMPAT", 0x80000000)
  ]

  /** The test `n & flag.value` of `str_flags`. */
  predicate Shares(n: bv32, v: bv32) {
    n & v != 0
  }

  /** The flags of `flags` whose value shares a bit with `n`, in order. */
  function Raised(flags: seq<(string, bv32)>, n: bv32): seq<(string, bv32)> {
    if |flags| == 0 then []
    else
      var last := flags[|flags| - 1];
      Raised(flags[..|flags| - 1], n) + (if Shares(n, last.1) then [last] else [])
  }

  function Names(fs: seq<(string, bv32)>): (r: seq<string>)
    ensures |r| == |fs| && forall k | 0 <= k < |fs| :: r[k] == fs[k].0
  {
    if |fs| == 0 then [] else Names(fs[..|fs| - 1]) + [fs[|fs| - 1].0]
  }

  /** `sep.join(ws)`. */
  function Join(ws: seq<string>, sep: char): string {
    if |ws| == 0 then ""
    else if |ws| == 1 then ws[0]
    else ws[0] + [sep] + Join(ws[1..], sep)
  }

  /** `s.split(sep)`. */
  function Split(s: string, sep: char): (r: seq<string>)
    ensures |r| >= 1
  {
    if |s| == 0 then [""]
    else
      var t := Split(s[1..], sep);
      if s[0] == sep then [""] + t else [[s[0]] + t[0]] + t[1..]
  }

  lemma {:induction false} SplitWord(w: string, sep: char)
    requires sep !in w
    ensures Split(w, sep) == [w]
  {
    if |w| > 0 {
      SplitWord(w[1..], sep);
      assert [w[0]] + w[1..] == w;
    }
  }

  lemma {:induction false} SplitAfterWord(w: string, sep: char, rest: string)
    requires sep !in w
    ensures Split(w + [sep] + rest, sep) == [w] + Split(rest, sep)
  {
    var s := w + [sep] + rest;
    if |w| == 0 {
      assert s[1..] == rest;
    } else {
      assert s[1..] == w[1..] + [sep] + rest;
      SplitAfterWord(w[1..], sep, rest);
      assert [w[0]] + w[1..] == w;
    }
  }

  /** Splitting a join gives back the words, as long as there is at least
      one and none contains the separator. */
  lemma {:induction false} SplitJoin(ws: seq<string>, sep: char)
    requires |ws| >= 1
    requires forall k | 0 <= k < |ws| :: sep !in ws[k]
    ensures Split(Join(ws, sep), sep) == ws
  {
    if |ws| == 1 {
      SplitWord(ws[0], sep);
    } else {
      SplitAfterWord(ws[0], sep, Join(ws[1..], sep));
      SplitJoin(ws[1..], sep);
      assert [ws[0]] + ws[1..] == ws;
    }
  }

  /** A flag is raised exactly when it is one of `flags` and shares a bit
      with `n`. */
  lemma {:induction false} RaisedMembers(flags: seq<(string, bv32)>, n: bv32, f: (string, bv32))
    ensures f in Raised(flags, n) <==> f in flags && Shares(n, f.1)
  {
    if |flags| > 0 {
      RaisedMembers(flags[..|flags| - 1], n, f);
      assert flags == flags[..|flags| - 1] + [flags[|flags| - 1]];
    }
  }

  /** Nothing is raised exactly when no flag of the table shares a bit with
      `n`; in particular when `n` is zero. */
  lemma {:induction false} NoneRaised(flags: seq<(string, bv32)>, n: bv32)
    ensures Raised(flags, n) == [] <==> forall k | 0 <= k < |flags| :: !Shares(n, flags[k].1)
    ensures n == 0 ==> Raised(flags, n) == []
  {
    if |flags| > 0 {
      var init := flags[..|flags| - 1];
      NoneRaised(init, n);
      assert forall k | 0 <= k < |init| :: init[k] == flags[k];
    }
  }

  lemma {:induction false} JoinEmpty(ws: seq<string>, sep: char)
    requires forall k | 0 <= k < |ws| :: |ws[k]| > 0
    ensures Join(ws, sep) == "" <==> |ws| == 0
  {
    if |ws| > 1 {
      assert |Join(ws, sep)| >= |ws[0]|;
    }
  }

  /** Every name of the routing-flag table is a non-empty word without '|'. */
  lemma RtmFlagNames()
    ensures forall k | 0 <= k < |RtmFlags| :: '|' !in RtmFlags[k].0 && |RtmFlags[k].0| > 0
  {
  }

  /** `str_flags`: the names of the flags set in `n`, in table order, joined
      by '|'. With non-empty names free of '|', the text is empty exactly when
      no flag is set, and otherwise splits back into exactly the names of the
      flags that are set. */
  method StrFlags(flags: seq<(string, bv32)>, n: bv32) returns (s: string)
    ensures s == Join(Names(Raised(flags, n)), '|')
    ensures n == 0 ==> s == ""
    ensures (forall k | 0 <= k < |flags| :: |flags[k].0| > 0) ==>
              (s == "" <==> forall k | 0 <= k < |flags| :: !Shares(n, flags[k].1))
    ensures (forall k | 0 <= k < |flags| :: '|' !in flags[k].0) && s != "" ==>
              Split(s, '|') == Names(Raised(flags, n))
  {
    var flagNames: seq<string> := [];
    for i := 0 to |flags|
      invariant flagNames == Names(Raised(flags[..i], n))
    {
      assert flags[..i + 1][..i] == flags[..i];
      if Shares(n, flags[i].1) {
        flagNames := flagNames + [flags[i].0];
      }
    }
    assert flags[..|flags|] == flags;
    s := Join(flagNames, '|');
    NoneRaised(flags, n);
    forall k | 0 <= k < |flagNames| ensures flagNames[k] == Raised(flags, n)[k].0 && Raised(flags, n)[k] in flags {
      RaisedMembers(flags, n, Raised(flags, n)[k]);
    }
    if forall k | 0 <= k < |flags| :: |flags[k].0| > 0 {
      JoinEmpty(flagNames, '|');
    }
    if (forall k | 0 <= k < |flags| :: '|' !in flags[k].0) && s != "" {
      SplitJoin(flagNames, '|');
    }
  }
}
