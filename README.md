# Socket-address helpers and the connect loop of radsecproxy's util.c

This project models the address helpers and the resolve-and-connect loop of
radsecproxy's `util.c` in Dafny, and proves what they promise.

- **SockAddrs** (`sockaddr.dfy`) models a `struct sockaddr` as a datatype. The
  variant gives the record's layout: `sockaddr_in`, `sockaddr_in6` or another
  structure. The `sa_family` field is stored apart from the layout, because
  `addr_copy` builds `sockaddr_in`/`sockaddr_in6` records whose family field is
  0. The port is two bytes in network order, high byte first. `htons`/`ntohs`
  are `HostToNet16`/`NetToHost16`. `port_get` and `addr_equal` are functions
  that dispatch on the family field, as the C `switch` does. `port_set` and
  `addr_copy` are methods on a heap record (`SockAddrRecord`), and the pure
  functions `WithPort` and `CopyOf` specify them.
- **AddrString** (`addr_string.dfy`) models `addr2string`. It covers the
  IPv4-mapped test (section 2.5.5.2 of RFC 4291), the temporary IPv4 view, and
  the length handed to `getnameinfo`. The two static buffers and their index
  are a class, `AddrStringState`, with fields `slot` and `buf`.
- **Connect** (`connect.dfy`) models `connectport`. The resolver is a function
  parameter that returns the candidates in list order, or nothing when
  resolution fails. Each candidate carries an abstract outcome: socket fails,
  connect fails, or connect succeeds. The method returns the descriptor, the
  number of candidates tried, and the log of descriptors passed to `close`.
- **StringCopy** (`string_copy.dfy`) models `stringcopy` and the `strlen` it
  relies on.

`addr_copy` is modelled as written. Its `memset` zeroes the whole new record,
and only the address field is copied back, so the copy has port 0 and family
field 0. So `addr_equal(original, copy)` holds, but `addr_equal(copy,
original)` is false. `port_get` on the copy answers 0, `port_set` on it does
nothing, and `addr_copy` of the copy returns NULL (`CopyHasNoFamily`).

Family values are Linux's: `AF_UNSPEC` 0, `AF_INET` 2, `AF_INET6` 10. The
structure sizes passed to `getnameinfo` are 16 for `sockaddr_in` and 28 for
`sockaddr_in6`. An address of any other family is passed with
`sizeof(struct sockaddr_in6)`, whatever its real size.

## Model

| member | source | states |
|---|---|---|
| `SockAddrs.HostToNet16` | util.c:88 | `htons` stores the port high byte first; the two bytes read back as the port |
| `SockAddrs.NetToHost16` | util.c:78 | `ntohs` is the exact inverse of `htons` on stored bytes |
| `SockAddrs.HostToNet16RoundTrip` | util.c:75-94 | `ntohs(htons(p)) == p` for every 16-bit port |
| `SockAddrs.HostToNet16Injective` | util.c:88 | different ports are stored as different bytes |
| `SockAddrs.PortGet` | util.c:75-83 | for IPv4 and IPv6 the result is the port whose network encoding is stored; any other family gives 0 |
| `SockAddrs.WithPort` | util.c:85-94 | for IPv4 and IPv6, `port_get` afterwards returns the new port and every other field, the family included, is unchanged; any other family leaves the record unchanged |
| `SockAddrs.WithPortTwice` | util.c:85-94 | setting the port twice keeps only the second value |
| `SockAddrs.WithPortOwnPort` | util.c:75-94 | setting the port `port_get` reports changes nothing |
| `SockAddrs.PortSet` | util.c:85-94 | the record in memory afterwards is `WithPort` of the record before |
| `SockAddrs.AddrEqual` | util.c:96-109 | true exactly when `a`'s family is IPv4 or IPv6 and the address bytes of that layout agree; false for any other family |
| `SockAddrs.AddrEqualIgnoresPort` | util.c:96-109 | changing either port never changes the answer |
| `SockAddrs.AddrEqualReflexive` | util.c:96-109 | a record equals itself exactly when its family is IPv4 or IPv6 |
| `SockAddrs.AddrEqualSymmetric` | util.c:96-109 | for two records of one family the order of the arguments does not matter |
| `SockAddrs.CopyOf` | util.c:111-131 | NULL exactly for a family other than IPv4/IPv6; otherwise a record of the same layout with the same address bytes, port 0, flow info and scope id 0, and family field 0 |
| `SockAddrs.CopyEqualsOriginal` | util.c:111-131 | `addr_equal(original, copy)` holds |
| `SockAddrs.CopyHasNoFamily` | util.c:116-126 | with the copy first `addr_equal` is false; `port_get` of the copy is 0; `port_set` on it changes nothing; copying it gives NULL |
| `SockAddrs.CopyIgnoresPort` | util.c:116-126 | the copy does not depend on the original's port |
| `SockAddrs.AddrCopy` | util.c:111-131 | returns null exactly when the family is not IPv4/IPv6 or malloc fails; otherwise a fresh record holding `CopyOf` of the input |
| `SockAddrs.CopyThenSetPort` | util.c:111-131 | the copy is a record distinct from the original: setting the original's port afterwards leaves the copy as it was, and the original still compares equal to it |
| `AddrString.IsV4Mapped` | util.c:141 | bytes 0..9 are 0 and bytes 10..11 are 0xff: exactly the addresses that begin with the `::ffff:` prefix of the IPv4-mapped form |
| `AddrString.V4View` | util.c:141-147 | the temporary record has family AF_INET, the same port, and the address whose mapped form is the IPv6 address, i.e. its bytes 12..15 |
| `AddrString.DisplayAddr` | util.c:139-148 | a mapped IPv6 address is replaced by its IPv4 view with the same port; every other address is passed through unchanged |
| `AddrString.SockLen` | util.c:149 | for an IPv4 or IPv6 record the length is the size of the structure it is stored in; any other family gets `sizeof(struct sockaddr_in6)` |
| `AddrString.DisplayLenMatchesLayout` | util.c:139-151 | for every IPv4 or IPv6 address, the length handed to `getnameinfo` is the size of the structure handed with it, the IPv4 view of a mapped address included |
| `AddrString.MappedShownAsV4` | util.c:139-155 | `::ffff:a.b.c.d` with any port, flow info and scope id reaches `getnameinfo` as the same record and length as plain `a.b.c.d` with that port, so both render the same text |
| `AddrString.AddrStringState.constructor` | util.c:136-137 | both statics start zeroed: index 0, both buffers empty |
| `AddrString.AddrStringState.AddrToString` | util.c:133-157 | the index flips on every call; on success the text `getnameinfo` gives for the displayed address is written into the new slot and returned; on failure the literal `"getnameinfo_failed"` is returned; the other buffer is never written |
| `AddrString.ThreeCalls` | util.c:136-156 | a result still reads its text after one further call, and the call after that reuses its buffer |
| `Connect.FirstConnecting` | util.c:172-179 | the first candidate, in resolver order, whose socket and connect both succeed; none exactly when no candidate does |
| `Connect.ClosedAfterFailure` | util.c:180-182 | the closed descriptors are exactly those of candidates whose socket opened and whose connect failed |
| `Connect.ConnectPort` | util.c:159-186 | if resolution fails, returns -1 with nothing tried or closed; otherwise returns the socket of the first connecting candidate, having tried it and all before it and closed each failed one's socket, in order; returns -1 after trying all when none connects; the result is non-negative exactly when some candidate connects |
| `StringCopy.StrLen` | util.c:56 | `strlen` is the index of the first NUL |
| `StringCopy.CopyLength` | util.c:55-56 | the copy length is `len`, or `strlen(s)` when `len` is 0 |
| `StringCopy.CopyString` | util.c:53-63 | a fresh buffer of length n+1 holding the first n characters of `s` and a NUL; with `len` 0 the copy has the same `strlen` as `s` |

## Left out

- `getnameinfo`, `getaddrinfo`, `socket`, `connect`, `close` and `freeaddrinfo` are platform calls. `getnameinfo` and the resolver are function parameters, and each candidate's socket and connect results are given as data. `close` is recorded as a log of descriptors, and `freeaddrinfo` is not modelled.
- The text `getnameinfo` produces (section 6.2 of RFC 3493) and its overflow failure for texts longer than `INET6_ADDRSTRLEN` are left to that parameter. On failure the model leaves the buffer as it was.
- `debug(...)` calls are not modelled. They go to an external logging sink, so the warning and error diagnostics of `connectport` are not counted.
- `printfchars` is not modelled. It only writes to stdout.
- The `#if 0` `errx`/`err` block is not modelled. It is never compiled.
- `CopyString` models `malloc` as always succeeding. The source does not handle a NULL return and goes on to `memcpy` into it, which is undefined behaviour.
- `CopyString` requires `len >= 0`. A negative `len` is not 0, so the C passes it to `malloc(len + 1)` and `memcpy`, where it converts to a huge `size_t`. That is undefined behaviour, so the model leaves it out.
- `CopyString` does not model `strlen`'s result being truncated to `int` for strings longer than `INT_MAX`.
- `AddrEqual` requires `b` to have the layout that `a`'s family names. Reading `b` through a cast to a different structure is outside what the C defines.
- `sin_zero`, the padding of `sockaddr_in`, is not a field of the model. Neither is `sa_len` on platforms that have it.
- The static buffers of `addr2string` are shared by every thread. Only a single-threaded caller is modelled.
- `AddrToString`: the returned `char *` is modelled as a buffer index or a literal, and the fixed `char` array as a string.
