/**
 * The socket-address record of util.c: a `struct sockaddr` that is really a
 * `struct sockaddr_in` or `struct sockaddr_in6` (or something else), read and
 * written through its family field.
 *
 * The record's layout (which C structure the bytes form) and its `sa_family`
 * field are kept apart, because addr_copy produces records whose layout is
 * sockaddr_in or sockaddr_in6 but whose family field is zero.
 */
module SockAddrs {
  import opened Wrappers

  type byte = b: int | 0 <= b < 0x100
  type uint16 = n: int | 0 <= n < 0x1_0000
  type uint32 = n: int | 0 <= n < 0x1_0000_0000

  /** A 16-bit field as it lies in memory in network byte order: high byte first. */
  type NetU16 = b: seq<byte> | |b| == 2 witness [0, 0]
  /** `struct in_addr`: four address bytes in network order. */
  type InAddr = b: seq<byte> | |b| == 4 witness [0, 0, 0, 0]
  /** `struct in6_addr`: sixteen address bytes in network order. */
  type In6Addr = b: seq<byte> | |b| == 16 witness [0, 0, 0, 0, 0, 0, 0, 0, 0, 0, 0, 0, 0, 0, 0, 0]

  /** `sa_family_t`, with the values Linux gives the three families used here. */
  type Family = uint16
  const AF_UNSPEC: Family := 0
  const AF_INET: Family := 2
  const AF_INET6: Family := 10

  datatype SockAddr =
    | SockAddrIn(family: Family, port: NetU16, inAddr: InAddr)
    | SockAddrIn6(family: Family, port: NetU16, flowInfo: uint32, in6Addr: In6Addr, scopeId: uint32)
    | SockAddrOther(family: Family)

  predicate IsInetFamily(f: Family) {
    f == AF_INET || f == AF_INET6
  }

  /**
   * The cast in every switch arm is sound: a record whose family field says
   * AF_INET is a sockaddr_in, one that says AF_INET6 is a sockaddr_in6.
   * Any other family value may sit in any layout.
   */
  predicate WellFormed(sa: SockAddr) {
    && (sa.family == AF_INET ==> sa.SockAddrIn?)
    && (sa.family == AF_INET6 ==> sa.SockAddrIn6?)
  }

  /** The address field of a sockaddr_in or sockaddr_in6 record. */
  function AddrBytes(sa: SockAddr): (a: seq<byte>)
    requires !sa.SockAddrOther?
    ensures |a| == if sa.SockAddrIn? then 4 else 16
  {
    if sa.SockAddrIn? then sa.inAddr else sa.in6Addr
  }

  /** The record with its port field overwritten; a record without one is returned as it is. */
  function ReplacePort(sa: SockAddr, port: NetU16): SockAddr {
    match sa
    case SockAddrIn(family, _, inAddr) => SockAddrIn(family, port, inAddr)
    case SockAddrIn6(family, _, flowInfo, in6Addr, scopeId) => SockAddrIn6(family, port, flowInfo, in6Addr, scopeId)
    case SockAddrOther(_) => sa
  }

  /** The two records are one layout and agree on every field except the port. */
  predicate SameExceptPort(a: SockAddr, b: SockAddr) {
    !a.SockAddrOther? && !b.SockAddrOther? && ReplacePort(a, b.port) == b
  }

  // ----- htons / ntohs -----

  /** `htons`: the network-order bytes of a host-order port. */
  function HostToNet16(p: uint16): (b: NetU16)
    ensures b[0] as int * 0x100 + b[1] as int == p
  {
    [p / 0x100, p % 0x100]
  }

  /** `ntohs`: the host-order value of a network-order field; undoes HostToNet16. */
  function NetToHost16(b: NetU16): (p: uint16)
    ensures HostToNet16(p) == b
  {
    b[0] as int * 0x100 + b[1] as int
  }

  lemma HostToNet16RoundTrip(p: uint16)
    ensures NetToHost16(HostToNet16(p)) == p
  {
  }

  /** htons is one-to-one: distinct ports are stored as distinct bytes. */
  lemma HostToNet16Injective(p: uint16, q: uint16)
    ensures HostToNet16(p) == HostToNet16(q) ==> p == q
  {
  }

  // ----- port_get / port_set -----

  /** port_get: the host-order port of an IPv4 or IPv6 record, 0 for any other family. */
  function PortGet(sa: SockAddr): (p: uint16)
    requires WellFormed(sa)
    ensures IsInetFamily(sa.family) ==> HostToNet16(p) == sa.port
    ensures !IsInetFamily(sa.family) ==> p == 0
  {
    if sa.family == AF_INET then NetToHost16(sa.port)
    else if sa.family == AF_INET6 then NetToHost16(sa.port)
    else 0
  }

  /** The record port_set leaves behind. */
  function WithPort(sa: SockAddr, p: uint16): (r: SockAddr)
    requires WellFormed(sa)
    ensures WellFormed(r) && r.family == sa.family
    ensures IsInetFamily(sa.family) ==> PortGet(r) == p && SameExceptPort(sa, r)
    ensures !IsInetFamily(sa.family) ==> r == sa
  {
    if sa.family == AF_INET then ReplacePort(sa, HostToNet16(p))
    else if sa.family == AF_INET6 then ReplacePort(sa, HostToNet16(p))
    else sa
  }

  /** Setting the port twice keeps only the second value. */
  lemma WithPortTwice(sa: SockAddr, p: uint16, q: uint16)
    requires WellFormed(sa)
    ensures WithPort(WithPort(sa, p), q) == WithPort(sa, q)
  {
  }

  /** Writing back the port a record already has changes nothing. */
  lemma WithPortOwnPort(sa: SockAddr)
    requires WellFormed(sa)
    ensures WithPort(sa, PortGet(sa)) == sa
  {
  }

  // ----- addr_equal -----

  /**
   * addr_equal: the address bytes agree, compared in the layout that `a`'s
   * family names; false for any other family of `a`. `b` is read through
   * the same cast, so it must have that layout.
   */
  function AddrEqual(a: SockAddr, b: SockAddr): (eq: bool)
    requires WellFormed(a)
    requires a.family == AF_INET ==> b.SockAddrIn?
    requires a.family == AF_INET6 ==> b.SockAddrIn6?
    ensures eq <==> IsInetFamily(a.family) && AddrBytes(a) == AddrBytes(b)
  {
    if a.family == AF_INET then a.inAddr == b.inAddr
    else if a.family == AF_INET6 then a.in6Addr == b.in6Addr
    else false
  }

  /** Ports take no part in the comparison, on either side. */
  lemma AddrEqualIgnoresPort(a: SockAddr, b: SockAddr, p: uint16, q: uint16)
    requires WellFormed(a) && WellFormed(b)
    requires a.family == AF_INET ==> b.SockAddrIn?
    requires a.family == AF_INET6 ==> b.SockAddrIn6?
    ensures AddrEqual(WithPort(a, p), WithPort(b, q)) == AddrEqual(a, b)
  {
  }

  /** Every IPv4 or IPv6 record equals itself; one of any other family equals nothing. */
  lemma AddrEqualReflexive(a: SockAddr)
    requires WellFormed(a)
    ensures AddrEqual(a, a) <==> IsInetFamily(a.family)
  {
  }

  /** For two records of one family the comparison is symmetric. */
  lemma AddrEqualSymmetric(a: SockAddr, b: SockAddr)
    requires WellFormed(a) && WellFormed(b) && a.family == b.family
    ensures AddrEqual(a, b) == AddrEqual(b, a)
  {
  }

  // ----- addr_copy -----

  /**
   * The record addr_copy builds, or None when it returns NULL for want of a
   * known family: a zeroed structure of the input's layout into which only
   * the address field has been copied. The family field stays zero.
   */
  function CopyOf(sa: SockAddr): (r: Option<SockAddr>)
    requires WellFormed(sa)
    ensures r.Some? <==> IsInetFamily(sa.family)
    ensures r.Some? ==>
      && WellFormed(r.value)
      && r.value.family == AF_UNSPEC
      && r.value.SockAddrIn? == sa.SockAddrIn?
      && r.value.SockAddrIn6? == sa.SockAddrIn6?
      && AddrBytes(r.value) == AddrBytes(sa)
      && r.value.port == HostToNet16(0)
      && (r.value.SockAddrIn6? ==> r.value.flowInfo == 0 && r.value.scopeId == 0)
  {
    if sa.family == AF_INET then Some(SockAddrIn(AF_UNSPEC, [0, 0], sa.inAddr))
    else if sa.family == AF_INET6 then Some(SockAddrIn6(AF_UNSPEC, [0, 0], 0, sa.in6Addr, 0))
    else None
  }

  /** The original compares equal to its copy (original on the left). */
  lemma CopyEqualsOriginal(sa: SockAddr)
    requires WellFormed(sa) && IsInetFamily(sa.family)
    ensures AddrEqual(sa, CopyOf(sa).value)
  {
  }

  /**
   * The copy carries family 0, so with the copy on the left addr_equal
   * answers false, port_get answers 0, and copying the copy gives NULL.
   */
  lemma CopyHasNoFamily(sa: SockAddr, p: uint16)
    requires WellFormed(sa) && IsInetFamily(sa.family)
    ensures !AddrEqual(CopyOf(sa).value, sa)
    ensures PortGet(CopyOf(sa).value) == 0
    ensures WithPort(CopyOf(sa).value, p) == CopyOf(sa).value
    ensures CopyOf(CopyOf(sa).value).None?
  {
  }

  /** The copy does not depend on the original's port. */
  lemma CopyIgnoresPort(sa: SockAddr, p: uint16)
    requires WellFormed(sa)
    ensures CopyOf(WithPort(sa, p)) == CopyOf(sa)
  {
  }

  // ----- the records in memory -----

  /** A `struct sockaddr` on the heap, reached through a `struct sockaddr *`. */
  class SockAddrRecord {
    var contents: SockAddr

    constructor (sa: SockAddr)
      ensures contents == sa
    {
      contents := sa;
    }
  }

  /** port_set: writes the network-order port into the record, for IPv4 and IPv6 only. */
  method PortSet(rec: SockAddrRecord, p: uint16)
    requires WellFormed(rec.contents)
    modifies rec
    ensures rec.contents == WithPort(old(rec.contents), p)
  {
    var sa := rec.contents;
    if sa.family == AF_INET {
      rec.contents := ReplacePort(sa, HostToNet16(p));
    } else if sa.family == AF_INET6 {
      rec.contents := ReplacePort(sa, HostToNet16(p));
    }
  }

  /**
   * addr_copy: a freshly allocated record for an IPv4 or IPv6 input, or null
   * for another family or when malloc fails (`mallocSucceeds` stands for
   * malloc's answer). The input is not written.
   */
  method AddrCopy(inp: SockAddrRecord, mallocSucceeds: bool) returns (out: SockAddrRecord?)
    requires WellFormed(inp.contents)
    ensures out == null <==> !IsInetFamily(inp.contents.family) || !mallocSucceeds
    ensures out != null ==> fresh(out) && Some(out.contents) == CopyOf(inp.contents)
  {
    out := null;
    var sa := inp.contents;
    if sa.family == AF_INET {
      if mallocSucceeds {
        out := new SockAddrRecord(SockAddrIn(AF_UNSPEC, [0, 0], [0, 0, 0, 0]));
        out.contents := SockAddrIn(out.contents.family, out.contents.port, sa.inAddr);
      }
    } else if sa.family == AF_INET6 {
      if mallocSucceeds {
        var zero: In6Addr := [0, 0, 0, 0, 0, 0, 0, 0, 0, 0, 0, 0, 0, 0, 0, 0];
        out := new SockAddrRecord(SockAddrIn6(AF_UNSPEC, [0, 0], 0, zero, 0));
        var z := out.contents;
        out.contents := SockAddrIn6(z.family, z.port, z.flowInfo, sa.in6Addr, z.scopeId);
      }
    }
  }

  /**
   * The copy and the original are separate records: setting the original's
   * port afterwards leaves the copy as it was, and the two still compare
   * equal with the original on the left.
   */
  method CopyThenSetPort(inp: SockAddrRecord, p: uint16) returns (out: SockAddrRecord?)
    requires WellFormed(inp.contents) && IsInetFamily(inp.contents.family)
    modifies inp
    ensures out != null && out != inp
    ensures inp.contents == WithPort(old(inp.contents), p)
    ensures Some(out.contents) == CopyOf(old(inp.contents))
    ensures AddrEqual(inp.contents, out.contents)
  {
    out := AddrCopy(inp, true);
    PortSet(inp, p);
  }
}
