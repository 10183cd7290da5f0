/**
 * connectport: resolve a host and port, then try the candidates in the
 * resolver's order until one gets a socket that connects.
 */
module Connect {
  import opened Wrappers
  import opened SockAddrs

  /** What socket() and then connect() do for one candidate. */
  datatype Outcome =
    | SocketFails            // socket() returns -1
    | ConnectFails(fd: nat)  // socket() returns fd, connect() fails
    | Connects(fd: nat)      // socket() returns fd, connect() returns 0

  /** One entry of getaddrinfo's result list. */
  datatype Candidate = Candidate(addr: SockAddr, outcome: Outcome)

  /**
   * getaddrinfo with hints {ai_family = AF_UNSPEC, ai_socktype = type}:
   * the candidates in list order, or None when resolution fails.
   */
  type Resolver = (int, string, string) -> Option<seq<Candidate>>

  /** The index of the first candidate that connects, if any. */
  function FirstConnecting(cs: seq<Candidate>): (k: Option<nat>)
    ensures k.Some? ==> k.value < |cs| && cs[k.value].outcome.Connects?
    ensures k.Some? ==> forall j :: 0 <= j < k.value ==> !cs[j].outcome.Connects?
    ensures k.None? <==> forall j :: 0 <= j < |cs| ==> !cs[j].outcome.Connects?
  {
    if cs == [] then None
    else if cs[0].outcome.Connects? then Some(0)
    else match FirstConnecting(cs[1..])
      case None => None
      case Some(k) => Some(k + 1)
  }

  /** The descriptors that were opened and then closed after a failed connect, in order. */
  function ClosedAfterFailure(cs: seq<Candidate>): (fds: seq<nat>)
    ensures |fds| <= |cs|
    ensures forall fd :: fd in fds <==>
      exists j :: 0 <= j < |cs| && cs[j].outcome == ConnectFails(fd)
  {
    if cs == [] then []
    else
      var init := cs[..|cs| - 1];
      var last := cs[|cs| - 1];
      assert forall j :: 0 <= j < |init| ==> init[j] == cs[j];
      ClosedAfterFailure(init) + (if last.outcome.ConnectFails? then [last.outcome.fd] else [])
  }

  /**
   * connectport: -1 without trying anything when resolution fails; otherwise
   * the socket of the first candidate that connects, having closed every
   * socket opened for an earlier candidate; -1 when none connects.
   * `attempts` counts the candidates tried; `closed` lists the descriptors
   * passed to close(), in order.
   */
  method ConnectPort(sockType: int, host: string, port: string, resolve: Resolver)
    returns (s: int, attempts: nat, closed: seq<nat>)
    ensures resolve(sockType, host, port).None? ==> s == -1 && attempts == 0 && closed == []
    ensures resolve(sockType, host, port).Some? ==>
      var cs := resolve(sockType, host, port).value;
      match FirstConnecting(cs)
      case Some(k) => s == cs[k].outcome.fd && attempts == k + 1 && closed == ClosedAfterFailure(cs[..k])
      case None => s == -1 && attempts == |cs| && closed == ClosedAfterFailure(cs)
    ensures s >= 0 <==>
      && resolve(sockType, host, port).Some?
      && exists j :: 0 <= j < |resolve(sockType, host, port).value| &&
           resolve(sockType, host, port).value[j].outcome.Connects?
    ensures s >= 0 || s == -1
  {
    s := -1;
    closed := [];
    var res0 := resolve(sockType, host, port);
    if res0.None? {
      return -1, 0, [];
    }
    var cs := res0.value;
    var i := 0;
    while i < |cs|
      invariant 0 <= i <= |cs|
      invariant s == -1
      invariant forall j :: 0 <= j < i ==> !cs[j].outcome.Connects?
      invariant closed == ClosedAfterFailure(cs[..i])
    {
      assert cs[..i + 1][..i] == cs[..i];
      match cs[i].outcome {
        case SocketFails =>
          s := -1;
        case Connects(fd) =>
          s := fd;
          break;
        case ConnectFails(fd) =>
          s := fd;
          closed := closed + [fd];
          s := -1;
      }
      i := i + 1;
    }
    if s >= 0 {
      attempts := i + 1;
    } else {
      assert cs[..i] == cs;
      attempts := i;
    }
  }
}
