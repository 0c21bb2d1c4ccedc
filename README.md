# UDP transport shim of the CoAPS client sample, modelled in Dafny

`samples/net/coaps_client/src/udp.c` connects a DTLS library to the
network stack's connection contexts. This model covers the part with logic
in it, the receive side:

- the one-slot handoff between the receive callback `udp_received` and the
  reader `udp_rx`, with the context's `rx_nbuf` slot, its `remaining`
  counter and its receive semaphore;
- `udp_rx`'s mapping of the caller's timeout onto the semaphore wait;
- its size check, the loop that flattens a fragmented receive buffer into
  the caller's flat buffer, the release of the held buffer, and its result
  codes;
- `set_destination`, which fills the peer's IPv6 socket address;
- the result table of `udp_tx`, over the results of the calls it makes.

Files:

- `machine.dfy` (module `Machine`): the C target's 16- and 32-bit integers,
  the unsigned-to-signed 32-bit conversion, and `htons` on a little-endian
  host.
- `chains.dfy` (module `Chains`): a received datagram (`RxBuf`) as a
  sequence of fragments, an application-data offset into the first fragment
  and the stack's reported application-data length; the flat payload
  `Payload` and the lemmas about concatenating fragments.
- `udp.dfy` (module `Udp`): `udp_rx` as a state transition `RxSpec` with its
  properties, the context class `UdpContext` whose methods `Rx` and
  `Received` are proved against `RxSpec` and `ReceivedNext`, the copy loop
  `CopyChain` over an `array<bv8>`, `SetDestination`, and `Tx`.

How the environment is modelled:

- The semaphore is a counter. A give adds one up to the limit UINT_MAX set
  when the context is initialised. A take succeeds and consumes one unit
  when the count is positive. A datagram that arrives while `udp_rx` waits
  is modelled as a `Received` call made before `Rx`. So in the model, an
  empty semaphore under a bounded wait times out. An empty semaphore under
  K_FOREVER never returns, and `Rx`'s precondition excludes it.
- The conditional at udp.c:95 has type `unsigned int`. Its value is then
  passed to the kernel's semaphore take, whose timeout parameter is a signed
  32-bit integer (the kernel header is not part of this model). `WaitArg`
  models both conversions. A timeout of 0 becomes K_FOREVER (-1). So does
  0xFFFFFFFF, which has the same bit pattern. Timeouts from 1 to 2^31-1 pass
  through unchanged.
- `net_nbuf_appdata`, `net_nbuf_appdatalen` and the fragment list are inputs:
  the fields of `RxBuf`. `net_nbuf_unref` is an abstract release. It appends
  the buffer to the ghost log `released`.
- The mbedtls error codes are the values of mbedtls 2.x's `ssl.h`:
  TIMEOUT -0x6800, ALLOC_FAILED -0x7F00, INTERNAL_ERROR -0x6C00. That header
  is not part of this model.
- `SERVER_PORT` and `server_addr` are parameters of `SetDestination`.
  `udp_cfg.h` is not part of this model. `AF_INET6` is taken to be 2, the
  value in the network stack's IP header. That header is not part of this
  model either.

What `udp_rx` assumes without checking. Once the semaphore is taken,
`udp_rx` relies on four facts it never tests. `CopyIsSafe`, part of `Rx`'s
precondition, states them:

- the slot is not NULL: udp.c:100 reads `ctx->rx_nbuf` unchecked (conjunct
  `s.rxNbuf.Some?`);
- when the size check passes, the head buffer has a first data fragment:
  udp.c:106-107 dereference `ctx->rx_nbuf->frags` (first half of
  `WellFormed`);
- when the size check passes, the application data starts inside that
  fragment; otherwise `len` at udp.c:107 is negative and the `memcpy` at
  udp.c:111 gets a huge `size_t` (second half of `WellFormed`);
- when the size check passes, the chain's bytes fit the destination
  (conjunct `|Payload(...)| <= size`). This is the chain-length condition.
  The size check at udp.c:101 compares the reported application-data
  length with `size`. The loop at udp.c:110-121 copies the whole chain
  from the application-data pointer on. The length comparison at
  udp.c:126 comes only after the copy. `SizeCheckDoesNotBoundCopy` gives a
  buffer that passes the check and would still overflow a one-byte
  destination.

The refusal path at udp.c:100-103 reads only the reported length, so the
last three facts are demanded only when the size check passes
(`AllocFailureReadsNoChain`). Under this precondition every array access
in `CopyChain` is proved in bounds.

## Model

| member | source | states |
|---|---|---|
| `Udp.WaitArg` | samples/net/coaps_client/src/udp.c:95 | the wait gets K_FOREVER exactly when the timeout is 0 (or 0xFFFFFFFF, the same bit pattern); timeouts below 2^31 pass through unchanged |
| `Machine.ToI32` | samples/net/coaps_client/src/udp.c:95 | the signed 32-bit parameter has the same bit pattern as the unsigned value, negative exactly when bit 31 is set |
| `Udp.TimeoutChangesNothing` | samples/net/coaps_client/src/udp.c:95-98 | `udp_rx` times out exactly when no datagram is signalled; then nothing is written and the slot, semaphore, counter and releases are unchanged |
| `Udp.ZeroTimeoutNeverTimesOut` | samples/net/coaps_client/src/udp.c:95 | with timeout 0 a call that returns never returns the timeout error |
| `Udp.AllocFailureKeepsSlot` | samples/net/coaps_client/src/udp.c:100-103 | ALLOC_FAILED exactly when the reported length exceeds `size`; then nothing is written, `rx_nbuf` keeps its buffer, nothing is released, and only the semaphore unit is consumed |
| `Udp.AllocFailureReadsNoChain` | samples/net/coaps_client/src/udp.c:100-103 | a head buffer with no data fragment that reports more bytes than `size` can be passed to `udp_rx` and is refused with ALLOC_FAILED; the refusal reads no fragment |
| `Udp.CopyFlattensChain` | samples/net/coaps_client/src/udp.c:105-121 | after the size check, the bytes written are the first fragment from the app-data offset followed by every later fragment in chain order; their count is the sum of those lengths and at most `size` |
| `Udp.CopyChain` | samples/net/coaps_client/src/udp.c:105-121 | the loop leaves `buf[0..pos)` equal to the flattened chain, `pos` equal to the sum of the copied lengths, and every byte at or after `pos` untouched; it requires the chain to fit `buf` |
| `Udp.MemCpy` | samples/net/coaps_client/src/udp.c:111 | copies `src` to `dst[at..at+len)` and leaves the rest of `dst` unchanged |
| `Udp.SizeCheckDoesNotBoundCopy` | samples/net/coaps_client/src/udp.c:100-121 | a buffer reporting 1 byte over a 2-byte chain passes the size check for a 1-byte destination, so the check alone does not keep the copy in bounds, and `Rx`'s precondition excludes this state |
| `Udp.SlotReleasedAfterSizeCheck` | samples/net/coaps_client/src/udp.c:123-124 | once the size check passes, the outcome is success or mismatch, `rx_nbuf` is cleared and its buffer released exactly once |
| `Udp.ResultAfterCopy` | samples/net/coaps_client/src/udp.c:126-133 | success exactly when the reported length equals the copied count; success returns that count and sets `remaining` to 0; mismatch returns INTERNAL_ERROR and leaves `remaining` |
| `Udp.ReturnCode` | samples/net/coaps_client/src/udp.c:96-133 | the returned integer is non-negative exactly on success, where it is the byte count; every error is negative |
| `Udp.RxSpec` | samples/net/coaps_client/src/udp.c:85-134 | one `udp_rx` call as outcome, next state and bytes written; it never writes more than `size` bytes |
| `Udp.UdpContext.Rx` | samples/net/coaps_client/src/udp.c:85-134 | returns the code of `RxSpec`'s outcome, leaves the context in `RxSpec`'s next state, writes `RxSpec`'s bytes to the front of `buf`, and leaves the rest of `buf` unchanged |
| `Udp.UdpContext.Received` | samples/net/coaps_client/src/udp.c:39-49 | stores the incoming buffer in `rx_nbuf`, overwriting any previous one, and gives the semaphore once |
| `Udp.ReceivedNext` | samples/net/coaps_client/src/udp.c:47-48 | `udp_received`'s new state: the slot holds the incoming buffer whatever it held before; the semaphore count rises by one below the limit UINT_MAX and stays at the limit; `remaining` and the release log are unchanged |
| `Udp.UdpContext.SemGive` | samples/net/coaps_client/src/udp.c:48 | the count goes up by one unless it is at the limit UINT_MAX |
| `Udp.UdpContext.SemTake` | samples/net/coaps_client/src/udp.c:95 | succeeds with 0 and consumes one unit exactly when the count is positive; otherwise fails and leaves the count |
| `Udp.UdpContext.constructor` | samples/net/coaps_client/src/udp.c:144-180 | the context fields as initialisation leaves them: empty semaphore, no held buffer, `remaining` 0 |
| `Udp.ReceivedIntoEmptySlot` | samples/net/coaps_client/src/udp.c:47-48 | a datagram arriving when no signal is pending leaves exactly one signal, with that buffer in the slot |
| `Udp.RxKeepsSingleSlot` | samples/net/coaps_client/src/udp.c:95-131 | if at most one datagram is pending and a pending one is in the slot, every outcome of `udp_rx` keeps that discipline and consumes the signal |
| `Udp.SecondArrivalBreaksSlot` | samples/net/coaps_client/src/udp.c:39-124 | two arrivals before one read: the read consumes one signal and clears the slot, leaving a signal with no buffer, which the next read would dereference; the first buffer is never released |
| `Udp.AllocFailureLeavesBufferUnreleased` | samples/net/coaps_client/src/udp.c:47-103 | after ALLOC_FAILED, the next arrival overwrites the held buffer, and that buffer has never been released |
| `Udp.SetDestination` | samples/net/coaps_client/src/udp.c:30-37 | sets the address to the server address, the family to AF_INET6 and the port to the server port in network byte order; leaves the scope id unchanged |
| `Machine.Htons` | samples/net/coaps_client/src/udp.c:36 | on a little-endian host, the bytes of `htons(x)` in memory are `x`'s bytes in big-endian (network) order |
| `Chains.ConcatLength` | samples/net/coaps_client/src/udp.c:107-120 | the flattened length is the sum of fragment lengths |
| `Chains.PayloadShape` | samples/net/coaps_client/src/udp.c:105-120 | the payload is the first fragment's tail from the app-data offset followed by the later fragments; its length is `frag.len - offset` plus the later lengths |
| `Udp.Tx` | samples/net/coaps_client/src/udp.c:51-83 | ALLOC_FAILED exactly when no outbound buffer is obtained; INTERNAL_ERROR exactly when the append or the send fails; otherwise the buffer's byte count; the buffer is released only when the send fails |

## Left out

- The semaphore's blocking and waking (udp.c:48, 95) are not modelled. A
  concurrent arrival is a `Received` call before `Rx`. A call that would
  block forever (timeout 0, nothing signalled) is excluded by `Rx`'s
  precondition, because it never returns.
- `Udp.UdpContext.SemTake`: a timeout of 2^31 or more that is not
  0xFFFFFFFF becomes a negative value other than K_FOREVER. The model treats
  it as a bounded wait. What the kernel does with such a value is not part
  of this model.
- `udp_init` (udp.c:136-202) is socket creation, binding, multicast join,
  address parsing and callback registration, which is all I/O setup. Only
  the context fields it initialises are modelled, as the constructor. Its
  error path releases only the first context (udp.c:199-201). A failed
  callback registration returns -EIO and releases nothing (udp.c:192-195).
- `Udp.Tx` models only `udp_tx`'s result table. Getting the buffer,
  appending, the fixed pre-send sleep and the send itself are foreign
  calls, whose results are inputs.
- The end-to-end property "a sent payload is received unchanged" needs the
  network stack and is not modelled.
- The integer widths of `pos` and `len` (C `int`) and of fragment lengths
  (16-bit) are not modelled. The precondition bounds the chain by the
  destination size, and the model's integers are unbounded.
- The NULL slot, the missing data fragment, the app-data pointer outside
  the first fragment, and a chain longer than the destination are not
  modelled as behaviours. They are undefined behaviour in the source
  (udp.c:100, 106-107, 111), and `Rx`'s precondition `CopyIsSafe` excludes
  them.
- `net_nbuf_unref`'s reference counting and the stack's allocator are an
  abstract release log. mbedtls and the `printk` logging are external.
