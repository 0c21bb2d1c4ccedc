/** The UDP transport shim of the CoAPS client sample: the receive path
    `udp_rx`, the receive callback `udp_received` that fills its one-slot
    handoff, the destination fill `set_destination`, and the result table of
    the send path `udp_tx`. */
module Udp {
  import opened Machine
  import opened Chains

  datatype Option<T> = None | Some(value: T)

  // Result codes of the DTLS library's ssl.h (mbedtls 2.x).
  const MBEDTLS_ERR_SSL_TIMEOUT: int := -0x6800
  const MBEDTLS_ERR_SSL_ALLOC_FAILED: int := -0x7F00
  const MBEDTLS_ERR_SSL_INTERNAL_ERROR: int := -0x6C00

  /** The kernel's "wait forever" timeout. */
  const K_FOREVER: i32 := -1
  /** What the kernel's semaphore take returns on an expired wait (-EAGAIN). */
  const SEM_TIMED_OUT: int := -11
  /** The receive semaphore's limit, UINT_MAX, fixed when the context is set up. */
  const RX_SEM_LIMIT: nat := 0xFFFF_FFFF
  /** The IPv6 address family. */
  const AF_INET6: u16 := 2

  /*** Timeout mapping ***/

  /** The timeout `udp_rx` hands to the semaphore wait. The conditional has
      type unsigned int, so it is K_FOREVER's bit pattern or the caller's
      value, then read as the wait's signed 32-bit parameter. */
  function WaitArg(timeout: u32): (t: i32)
    ensures t == K_FOREVER <==> timeout == 0 || timeout == 0xFFFF_FFFF
    ensures 0 < timeout < 0x8000_0000 ==> t as int == timeout as int
  {
    ToI32(if timeout == 0 then 0xFFFF_FFFF else timeout)
  }

  /*** The receive state and `udp_rx` as a state transition ***/

  /** The per-context receive state: the held buffer (`rx_nbuf`, None for
      NULL), the `remaining` counter, the receive semaphore's count, and every
      buffer handed back to the stack's allocator so far, in order. */
  datatype RxState = RxState(rxNbuf: Option<RxBuf>, remaining: int, semCount: nat, released: seq<RxBuf>)

  /** What `udp_rx` reports to the DTLS library. */
  datatype RxOutcome = TimedOut | AllocFailed | LengthMismatch | Read(count: nat)

  /** One call of `udp_rx`: its outcome, the state it leaves, and the bytes it
      writes to the front of the destination buffer. */
  datatype RxStep = RxStep(outcome: RxOutcome, next: RxState, written: seq<bv8>)

  /** The integer `udp_rx` returns for an outcome. */
  function ReturnCode(o: RxOutcome): (rc: int)
    ensures rc >= 0 <==> o.Read?
    ensures o.Read? ==> rc == o.count
  {
    match o
    case TimedOut => MBEDTLS_ERR_SSL_TIMEOUT
    case AllocFailed => MBEDTLS_ERR_SSL_ALLOC_FAILED
    case LengthMismatch => MBEDTLS_ERR_SSL_INTERNAL_ERROR
    case Read(n) => n
  }

  /** The call returns at all: either a datagram has been signalled, or the
      wait is bounded (an unbounded wait on an empty semaphore never ends). */
  predicate WaitReturns(s: RxState, timeout: u32)
  {
    s.semCount > 0 || WaitArg(timeout) != K_FOREVER
  }

  /** What `udp_rx` takes for granted once the semaphore is taken: the slot
      holds a buffer (its reported length is read unchecked), and when the
      size check passes, the buffer has the shape the copy reads and the
      bytes the loop copies fit the destination (the loop copies the whole
      chain, while the check looks only at the reported length). */
  predicate CopyIsSafe(s: RxState, size: nat)
  {
    s.semCount > 0 ==>
      && s.rxNbuf.Some?
      && (s.rxNbuf.value.appdataLen as int <= size ==>
            WellFormed(s.rxNbuf.value) && |Payload(s.rxNbuf.value)| <= size)
  }

  predicate RxPre(s: RxState, size: nat, timeout: u32)
  {
    WaitReturns(s, timeout) && CopyIsSafe(s, size)
  }

  /** `udp_rx` on state `s` with a destination of `size` bytes. */
  function RxSpec(s: RxState, size: nat): (r: RxStep)
    requires CopyIsSafe(s, size)
    ensures |r.written| <= size
  {
    if s.semCount == 0 then RxStep(TimedOut, s, [])
    else
      var taken := s.(semCount := s.semCount - 1);
      var b := s.rxNbuf.value;
      if b.appdataLen as int > size then RxStep(AllocFailed, taken, [])
      else
        var cleared := taken.(rxNbuf := None, released := s.released + [b]);
        var data := Payload(b);
        if b.appdataLen as int != |data| then RxStep(LengthMismatch, cleared, data)
        else RxStep(Read(b.appdataLen as int), cleared.(remaining := 0), data)
  }

  /** `udp_received`: the new buffer replaces whatever the slot held, and the
      semaphore is given once (a give at the limit leaves the count). */
  function ReceivedNext(s: RxState, b: RxBuf): (r: RxState)
    ensures r.rxNbuf == Some(b)
    ensures s.semCount < RX_SEM_LIMIT ==> r.semCount == s.semCount + 1
    ensures s.semCount >= RX_SEM_LIMIT ==> r.semCount == s.semCount
    ensures r.remaining == s.remaining && r.released == s.released
  {
    s.(rxNbuf := Some(b), semCount := if s.semCount < RX_SEM_LIMIT then s.semCount + 1 else s.semCount)
  }

  /*** Properties of the receive path ***/

  /** The call times out exactly when no datagram has been signalled, and then
      nothing is written and nothing changes. */
  lemma TimeoutChangesNothing(s: RxState, size: nat, timeout: u32)
    requires RxPre(s, size, timeout)
    ensures RxSpec(s, size).outcome == TimedOut <==> s.semCount == 0
    ensures RxSpec(s, size).outcome == TimedOut ==> RxSpec(s, size).next == s && RxSpec(s, size).written == []
  {
  }

  /** A zero timeout waits forever, so a call that returns never times out. */
  lemma ZeroTimeoutNeverTimesOut(s: RxState, size: nat)
    requires RxPre(s, size, 0)
    ensures RxSpec(s, size).outcome != TimedOut
  {
  }

  /** A payload longer than the destination is refused: nothing is written,
      the slot keeps its buffer, nothing is released, and the semaphore
      count is still consumed. */
  lemma AllocFailureKeepsSlot(s: RxState, size: nat, timeout: u32)
    requires RxPre(s, size, timeout)
    ensures RxSpec(s, size).outcome == AllocFailed <==> s.semCount > 0 && s.rxNbuf.value.appdataLen as int > size
    ensures RxSpec(s, size).outcome == AllocFailed ==>
      && RxSpec(s, size).written == []
      && RxSpec(s, size).next == s.(semCount := s.semCount - 1)
  {
  }

  /** The refusal reads only the reported length: a head buffer with no data
      fragment at all is refused like any other oversized one. */
  lemma AllocFailureReadsNoChain()
    ensures var s := RxState(Some(RxBuf([], 0, 5)), 0, 1, []);
      && CopyIsSafe(s, 1)
      && !WellFormed(s.rxNbuf.value)
      && RxSpec(s, 1).outcome == AllocFailed
  {
  }

  /** Once the size check passes, the bytes written are the first fragment
      from the application-data offset followed by every later fragment in
      chain order, as many as the fragments' lengths add up to, and within
      the destination. */
  lemma CopyFlattensChain(s: RxState, size: nat, timeout: u32)
    requires RxPre(s, size, timeout)
    requires s.semCount > 0 && s.rxNbuf.value.appdataLen as int <= size
    ensures var b := s.rxNbuf.value;
      && RxSpec(s, size).written == b.frags[0][b.appdataOffset..] + Concat(b.frags[1..])
      && |RxSpec(s, size).written| == |b.frags[0]| - b.appdataOffset + TotalLen(b.frags[1..])
      && |RxSpec(s, size).written| <= size
  {
    PayloadShape(s.rxNbuf.value);
  }

  /** Once the size check passes, the slot is emptied and its buffer released
      exactly once, on the success path and on the mismatch path alike. */
  lemma SlotReleasedAfterSizeCheck(s: RxState, size: nat, timeout: u32)
    requires RxPre(s, size, timeout)
    requires s.semCount > 0 && s.rxNbuf.value.appdataLen as int <= size
    ensures RxSpec(s, size).outcome.LengthMismatch? || RxSpec(s, size).outcome.Read?
    ensures RxSpec(s, size).next.rxNbuf == None
    ensures RxSpec(s, size).next.released == s.released + [s.rxNbuf.value]
    ensures RxSpec(s, size).next.semCount == s.semCount - 1
  {
  }

  /** The copied byte count decides between success and the internal error;
      only success resets `remaining`, and a success returns the reported
      length, which is then the number of bytes written. */
  lemma ResultAfterCopy(s: RxState, size: nat, timeout: u32)
    requires RxPre(s, size, timeout)
    requires s.semCount > 0 && s.rxNbuf.value.appdataLen as int <= size
    ensures var b := s.rxNbuf.value;
      RxSpec(s, size).outcome.Read? <==> b.appdataLen as int == |b.frags[0]| - b.appdataOffset + TotalLen(b.frags[1..])
    ensures RxSpec(s, size).outcome.Read? ==>
      && RxSpec(s, size).outcome.count == s.rxNbuf.value.appdataLen as int == |RxSpec(s, size).written|
      && RxSpec(s, size).next.remaining == 0
      && ReturnCode(RxSpec(s, size).outcome) == |RxSpec(s, size).written|
    ensures RxSpec(s, size).outcome.LengthMismatch? ==>
      && RxSpec(s, size).next.remaining == s.remaining
      && ReturnCode(RxSpec(s, size).outcome) == MBEDTLS_ERR_SSL_INTERNAL_ERROR
  {
    PayloadShape(s.rxNbuf.value);
  }

  /** The size check tests the reported length, not the chain: a buffer whose
      one fragment holds two bytes but which reports one passes the check for
      a one-byte destination, and the copy would write two bytes. The state
      holding it is therefore outside what `udp_rx` may be called on. */
  lemma SizeCheckDoesNotBoundCopy()
    ensures var b := RxBuf([[0, 0]], 0, 1);
      && WellFormed(b)
      && b.appdataLen as int <= 1
      && |Payload(b)| == 2
      && !CopyIsSafe(RxState(Some(b), 0, 1, []), 1)
  {
  }

  /*** The single-slot handoff ***/

  /** The discipline the handoff needs: at most one datagram signalled and not
      yet consumed, and a signalled datagram is in the slot. */
  predicate SingleSlot(s: RxState)
  {
    s.semCount <= 1 && (s.semCount == 1 ==> s.rxNbuf.Some?)
  }

  /** A datagram arriving at a consumed slot establishes the discipline. */
  lemma ReceivedIntoEmptySlot(s: RxState, b: RxBuf)
    requires s.semCount == 0
    ensures SingleSlot(ReceivedNext(s, b))
    ensures ReceivedNext(s, b).rxNbuf == Some(b) && ReceivedNext(s, b).semCount == 1
  {
  }

  /** Every outcome of `udp_rx` leaves the discipline intact and the
      semaphore consumed. */
  lemma RxKeepsSingleSlot(s: RxState, size: nat, timeout: u32)
    requires RxPre(s, size, timeout) && SingleSlot(s)
    ensures SingleSlot(RxSpec(s, size).next)
    ensures RxSpec(s, size).next.semCount == 0
  {
  }

  /** Two datagrams before one read: the read consumes one signal and empties
      the slot, so the next read takes the second signal with a NULL buffer,
      a state outside what `udp_rx` may be called on, and the first buffer
      was never released. */
  lemma SecondArrivalBreaksSlot(s: RxState, b1: RxBuf, b2: RxBuf, size: nat)
    requires s.semCount == 0
    requires WellFormed(b2) && b2.appdataLen as int <= size && |Payload(b2)| <= size
    ensures var s2 := ReceivedNext(ReceivedNext(s, b1), b2);
      && CopyIsSafe(s2, size)
      && RxSpec(s2, size).next.semCount == 1
      && RxSpec(s2, size).next.rxNbuf == None
      && !CopyIsSafe(RxSpec(s2, size).next, size)
      && RxSpec(s2, size).next.released == s.released + [b2]
  {
  }

  /** After a refused payload the buffer stays in the slot with its signal
      consumed; the next arrival overwrites it, and it is never released. */
  lemma AllocFailureLeavesBufferUnreleased(s: RxState, size: nat, timeout: u32, b: RxBuf)
    requires RxPre(s, size, timeout)
    requires RxSpec(s, size).outcome == AllocFailed
    ensures var n := ReceivedNext(RxSpec(s, size).next, b);
      n.rxNbuf == Some(b) && n.released == s.released
  {
  }

  /*** The context object ***/

  /** The transport context as `udp_rx` and `udp_received` update it. */
  class UdpContext {
    var rxNbuf: Option<RxBuf>
    var remaining: int
    var rxSemCount: nat
    /** The buffers handed back to the stack, in order. */
    ghost var released: seq<RxBuf>

    ghost function State(): RxState
      reads this
    {
      RxState(rxNbuf, remaining, rxSemCount, released)
    }

    /** The context fields as setup leaves them: an empty semaphore, no held
        buffer, `remaining` zero. */
    constructor ()
      ensures State() == RxState(None, 0, 0, [])
    {
      rxNbuf := None;
      remaining := 0;
      rxSemCount := 0;
      released := [];
    }

    /** The kernel's semaphore give: one more count, up to the limit. */
    method SemGive()
      modifies this`rxSemCount
      ensures rxSemCount == if old(rxSemCount) < RX_SEM_LIMIT then old(rxSemCount) + 1 else old(rxSemCount)
    {
      if rxSemCount < RX_SEM_LIMIT {
        rxSemCount := rxSemCount + 1;
      }
    }

    /** The kernel's semaphore take: succeed (0) and consume a count when
        there is one; otherwise a bounded wait expires. */
    method SemTake(timeout: i32) returns (rc: int)
      requires rxSemCount > 0 || timeout != K_FOREVER
      modifies this`rxSemCount
      ensures rc == 0 <==> old(rxSemCount) > 0
      ensures rxSemCount == if old(rxSemCount) > 0 then old(rxSemCount) - 1 else old(rxSemCount)
    {
      if rxSemCount > 0 {
        rxSemCount := rxSemCount - 1;
        rc := 0;
      } else {
        rc := SEM_TIMED_OUT;
      }
    }

    /** `udp_received`: store the incoming buffer, then signal. */
    method Received(b: RxBuf)
      modifies this
      ensures State() == ReceivedNext(old(State()), b)
    {
      rxNbuf := Some(b);
      SemGive();
    }

    /** `udp_rx` into `buf`, whose length is the `size` the caller passes. */
    method Rx(buf: array<bv8>, timeout: u32) returns (rc: int)
      requires RxPre(State(), buf.Length, timeout)
      modifies this, buf
      ensures var step := RxSpec(old(State()), buf.Length);
        && rc == ReturnCode(step.outcome)
        && State() == step.next
        && buf[..|step.written|] == step.written
        && buf[|step.written|..] == old(buf[|step.written|..])
    {
      var taken := SemTake(WaitArg(timeout));
      if taken != 0 {
        return MBEDTLS_ERR_SSL_TIMEOUT;
      }

      var nbuf := rxNbuf.value;
      var readBytes := nbuf.appdataLen;
      if readBytes as int > buf.Length {
        return MBEDTLS_ERR_SSL_ALLOC_FAILED;
      }

      var pos := CopyChain(nbuf, buf);

      released := released + [nbuf];
      rxNbuf := None;

      if readBytes as int != pos {
        return MBEDTLS_ERR_SSL_INTERNAL_ERROR;
      }

      rc := readBytes as int;
      remaining := 0;
    }
  }

  /** `memcpy(dst + at, src, |src|)`. */
  method MemCpy(dst: array<bv8>, at: nat, src: seq<bv8>)
    requires at + |src| <= dst.Length
    modifies dst
    ensures dst[..at] == old(dst[..at])
    ensures dst[at..at + |src|] == src
    ensures dst[at + |src|..] == old(dst[at + |src|..])
  {
    var k := 0;
    while k < |src|
      invariant 0 <= k <= |src|
      invariant dst[..at] == old(dst[..at])
      invariant dst[at..at + k] == src[..k]
      invariant dst[at + k..] == old(dst[at + k..])
    {
      dst[at + k] := src[k];
      k := k + 1;
    }
  }

  lemma SliceJoin(s: seq<bv8>, i: nat, j: nat)
    requires i <= j <= |s|
    ensures s[..j] == s[..i] + s[i..j]
  {
  }

  /** The copy loop of `udp_rx`: walk the fragment chain, copying the first
      fragment from the application-data offset and every later fragment
      whole, one after the other, to the front of `buf`. */
  method CopyChain(b: RxBuf, buf: array<bv8>) returns (pos: nat)
    requires WellFormed(b)
    requires |Payload(b)| <= buf.Length
    modifies buf
    ensures pos == |Payload(b)| == |b.frags[0]| - b.appdataOffset + TotalLen(b.frags[1..])
    ensures buf[..pos] == Payload(b)
    ensures buf[pos..] == old(buf[pos..])
  {
    ghost var views := Views(b);
    var frag := 0;
    var ptr := b.appdataOffset;
    var len := |b.frags[0]| - ptr;
    pos := 0;
    while frag < |b.frags|
      invariant 0 <= frag < |b.frags|
      invariant ptr == if frag == 0 then b.appdataOffset else 0
      invariant len == |b.frags[frag]| - ptr
      invariant pos <= buf.Length
      invariant buf[..pos] == Concat(views[..frag])
      invariant buf[pos..] == old(buf[pos..])
      decreases |b.frags| - frag
    {
      assert views[frag] == b.frags[frag][ptr..];
      ConcatSnoc(views[..frag], views[frag]);
      assert views[..frag + 1] == views[..frag] + [views[frag]];
      ConcatSplit(views, frag + 1);
      assert pos + len <= buf.Length;

      ghost var before := buf[..];
      MemCpy(buf, pos, b.frags[frag][ptr..ptr + len]);
      assert buf[..pos + len] == buf[..pos] + buf[pos..pos + len] by {
        SliceJoin(buf[..], pos, pos + len);
      }
      pos := pos + len;
      frag := frag + 1;
      assert buf[..pos] == Concat(views[..frag]);
      assert buf[pos..] == before[pos..];
      if frag == |b.frags| {
        break;
      }
      ptr := 0;
      len := |b.frags[frag]|;
    }
    assert views[..frag] == views;
    PayloadShape(b);
  }

  /*** The destination address ***/

  /** The IPv6 socket address `set_destination` fills. */
  class SockAddrIn6 {
    var family: u16
    var port: u16
    var addr: seq<bv8>
    var scopeId: bv8

    constructor (family: u16, port: u16, addr: seq<bv8>, scopeId: bv8)
      ensures this.family == family && this.port == port && this.addr == addr && this.scopeId == scopeId
    {
      this.family, this.port, this.addr, this.scopeId := family, port, addr, scopeId;
    }
  }

  /** `set_destination`: the peer's address, the IPv6 family and the peer's
      port in network byte order; the scope id is left as it was. */
  method SetDestination(dst: SockAddrIn6, serverAddr: seq<bv8>, serverPort: u16)
    modifies dst
    ensures dst.addr == serverAddr
    ensures dst.family == AF_INET6
    ensures HostBytes(dst.port) == NetworkBytes(serverPort)
    ensures dst.scopeId == old(dst.scopeId)
  {
    dst.addr := serverAddr;
    dst.family := AF_INET6;
    dst.port := Htons(serverPort);
  }

  /*** The send path ***/

  /** The results of the calls `udp_tx` makes: whether an outbound buffer was
      obtained, whether the append succeeded, the buffer's byte count, and the
      send call's result. */
  datatype TxCalls = TxCalls(gotBuf: bool, appended: bool, fragsLen: nat, sendRc: int)

  /** What `udp_tx` returns, and whether it released the outbound buffer. */
  datatype TxResult = TxResult(rc: int, unref: bool)

  function Tx(c: TxCalls): (r: TxResult)
    ensures r.rc == MBEDTLS_ERR_SSL_ALLOC_FAILED <==> !c.gotBuf
    ensures r.rc == MBEDTLS_ERR_SSL_INTERNAL_ERROR <==> c.gotBuf && (!c.appended || c.sendRc < 0)
    ensures r.rc >= 0 <==> c.gotBuf && c.appended && c.sendRc >= 0
    ensures r.rc >= 0 ==> r.rc == c.fragsLen
    ensures r.unref <==> c.gotBuf && c.appended && c.sendRc < 0
  {
    if !c.gotBuf then TxResult(MBEDTLS_ERR_SSL_ALLOC_FAILED, false)
    else if !c.appended then TxResult(MBEDTLS_ERR_SSL_INTERNAL_ERROR, false)
    else if c.sendRc < 0 then TxResult(MBEDTLS_ERR_SSL_INTERNAL_ERROR, true)
    else TxResult(c.fragsLen, false)
  }
}
