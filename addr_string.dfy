/**
 * addr2string: the numeric text of a socket address, with IPv4-mapped IPv6
 * addresses shown as plain IPv4, written into one of two static buffers
 * that are used in turn.
 */
module AddrString {
  import opened Wrappers
  import opened SockAddrs

  /** sizeof(struct sockaddr_in) and sizeof(struct sockaddr_in6). */
  const SockAddrInSize: nat := 16
  const SockAddrIn6Size: nat := 28

  /** The text returned when getnameinfo fails. */
  const FailureText: string := "getnameinfo_failed"

  /**
   * IN6_IS_ADDR_V4MAPPED: the address has the form ::ffff:a.b.c.d of section
   * 2.5.5.2 of RFC 4291, ten zero bytes, two 0xff bytes, then the IPv4 address.
   */
  predicate IsV4Mapped(a: In6Addr): (mapped: bool)
    ensures mapped <==> a[..12] == V4MappedPrefix
  {
    && (forall i :: 0 <= i < 10 ==> a[i] == 0)
    && a[10] == 0xff && a[11] == 0xff
  }

  /** The first twelve bytes of every IPv4-mapped IPv6 address. */
  const V4MappedPrefix: seq<byte> := [0, 0, 0, 0, 0, 0, 0, 0, 0, 0, 0xff, 0xff]

  /** The IPv4-mapped form of an IPv4 address. */
  function MapToV6(a: InAddr): (m: In6Addr)
    ensures IsV4Mapped(m)
  {
    V4MappedPrefix + a
  }

  /**
   * The temporary sockaddr_in addr2string builds for an IPv4-mapped IPv6
   * address: zeroed, family AF_INET, the same port, the last four bytes as
   * the IPv4 address.
   */
  function V4View(sa: SockAddr): (v: SockAddr)
    requires sa.SockAddrIn6? && sa.family == AF_INET6 && IsV4Mapped(sa.in6Addr)
    ensures WellFormed(v) && v.SockAddrIn? && v.family == AF_INET
    ensures PortGet(v) == PortGet(sa)
    ensures MapToV6(v.inAddr) == sa.in6Addr
  {
    var v := SockAddrIn(AF_INET, sa.port, sa.in6Addr[12..16]);
    assert MapToV6(v.inAddr) == sa.in6Addr by {
      assert forall i :: 0 <= i < 16 ==> MapToV6(v.inAddr)[i] == sa.in6Addr[i];
    }
    v
  }

  /** The address addr2string hands to getnameinfo: the IPv4 view of a mapped address, else the address itself. */
  function DisplayAddr(sa: SockAddr): (d: SockAddr)
    requires WellFormed(sa)
    ensures WellFormed(d) && PortGet(d) == PortGet(sa)
    ensures sa.family == AF_INET6 && IsV4Mapped(sa.in6Addr) ==>
      d.family == AF_INET && MapToV6(d.inAddr) == sa.in6Addr
    ensures !(sa.family == AF_INET6 && IsV4Mapped(sa.in6Addr)) ==> d == sa
  {
    if sa.family == AF_INET6 && IsV4Mapped(sa.in6Addr) then V4View(sa) else sa
  }

  /**
   * The length addr2string passes with the address, whatever length its
   * caller gave: the size of the structure an IPv4 or IPv6 record is stored
   * in; any other family is passed with the size of a sockaddr_in6.
   */
  function SockLen(sa: SockAddr): (len: nat)
    ensures len == SockAddrInSize || len == SockAddrIn6Size
    ensures len == SockAddrInSize <==> sa.family == AF_INET
    ensures WellFormed(sa) && IsInetFamily(sa.family) ==>
      len == (if sa.SockAddrIn? then SockAddrInSize else SockAddrIn6Size)
  {
    if sa.family == AF_INET then SockAddrInSize else SockAddrIn6Size
  }

  /**
   * For every IPv4 or IPv6 address, the length handed to getnameinfo is the
   * size of the structure actually handed to it, the IPv4 view included.
   */
  lemma DisplayLenMatchesLayout(sa: SockAddr)
    requires WellFormed(sa) && IsInetFamily(sa.family)
    ensures IsInetFamily(DisplayAddr(sa).family)
    ensures SockLen(DisplayAddr(sa)) ==
      (if DisplayAddr(sa).SockAddrIn? then SockAddrInSize else SockAddrIn6Size)
  {
  }

  /**
   * An IPv4-mapped IPv6 address is shown exactly as the plain IPv4 address
   * with the same port: getnameinfo receives the same record and length.
   */
  lemma MappedShownAsV4(v4: SockAddr, flowInfo: uint32, scopeId: uint32)
    requires v4.SockAddrIn? && v4.family == AF_INET
    ensures var v6 := SockAddrIn6(AF_INET6, v4.port, flowInfo, MapToV6(v4.inAddr), scopeId);
      && DisplayAddr(v6) == DisplayAddr(v4)
      && SockLen(DisplayAddr(v6)) == SockLen(DisplayAddr(v4))
  {
  }

  /** What the returned `char *` addresses: one of the two static buffers, or a string literal. */
  datatype AddrText = InBuffer(index: nat) | Literal(text: string)

  /** The static state of addr2string: the buffer index `i` and the buffers `addr_buf[2]`. */
  class AddrStringState {
    var slot: nat
    const buf: array<string>

    ghost predicate Valid()
      reads this
    {
      buf.Length == 2 && slot < 2
    }

    /** Program start: both statics zero-initialised. */
    constructor ()
      ensures Valid() && fresh(buf)
      ensures slot == 0 && buf[..] == ["", ""]
    {
      slot := 0;
      buf := new string[2](_ => "");
    }

    /** The text a returned `char *` reads now. */
    function Text(t: AddrText): string
      requires Valid() && (t.InBuffer? ==> t.index < 2)
      reads this, buf
    {
      match t
      case InBuffer(k) => buf[k]
      case Literal(s) => s
    }

    /**
     * addr2string: flips the buffer index, then writes getnameinfo's numeric
     * text for the displayed address into that buffer and points at it, or
     * points at "getnameinfo_failed" when getnameinfo fails. `nameInfo`
     * stands for getnameinfo with NI_NUMERICHOST; the caller's `len` is not
     * used, and the caller's address is not written.
     */
    method AddrToString(addr: SockAddr, len: nat, nameInfo: (SockAddr, nat) -> Option<string>)
      returns (t: AddrText)
      requires Valid() && WellFormed(addr)
      modifies this, buf
      ensures Valid()
      ensures slot == 1 - old(slot)
      ensures buf[old(slot)] == old(buf[slot])
      ensures match nameInfo(DisplayAddr(addr), SockLen(DisplayAddr(addr)))
        case None => t == Literal(FailureText) && buf[..] == old(buf[..])
        case Some(s) => t == InBuffer(slot) && buf[slot] == s
    {
      slot := if slot == 0 then 1 else 0;
      var a := addr;
      if a.family == AF_INET6 {
        if IsV4Mapped(a.in6Addr) {
          a := V4View(a);
        }
      }
      assert a == DisplayAddr(addr);
      var n := if a.family == AF_INET then SockAddrInSize else SockAddrIn6Size;
      var r := nameInfo(a, n);
      if r.None? {
        return Literal(FailureText);
      }
      buf[slot] := r.value;
      t := InBuffer(slot);
    }
  }

  /**
   * The reuse window of the two buffers: a result still reads its text after
   * one further call, and a successful call after that writes into its buffer.
   */
  method ThreeCalls(st: AddrStringState, a: SockAddr, b: SockAddr, c: SockAddr,
                    nameInfo: (SockAddr, nat) -> Option<string>)
    returns (first: AddrText, firstText: string, firstAfterSecond: string, third: AddrText)
    requires st.Valid() && WellFormed(a) && WellFormed(b) && WellFormed(c)
    requires nameInfo(DisplayAddr(a), SockLen(DisplayAddr(a))).Some?
    requires nameInfo(DisplayAddr(c), SockLen(DisplayAddr(c))).Some?
    modifies st, st.buf
    ensures first.InBuffer? && first.index < 2
    ensures firstText == nameInfo(DisplayAddr(a), SockLen(DisplayAddr(a))).value
    ensures firstAfterSecond == firstText
    ensures third == first
    ensures st.Valid() && st.Text(first) == nameInfo(DisplayAddr(c), SockLen(DisplayAddr(c))).value
  {
    first := st.AddrToString(a, 0, nameInfo);
    firstText := st.Text(first);
    var second := st.AddrToString(b, 0, nameInfo);
    firstAfterSecond := st.Text(first);
    third := st.AddrToString(c, 0, nameInfo);
  }
}
