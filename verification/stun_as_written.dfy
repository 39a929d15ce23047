/** The attribute loop of `get_external_and_keepalive` exactly as main.cpp
    writes it (lines 89-122), one iteration at a time: reads go into the
    zero-filled 1024-byte receive buffer rather than the received bytes, a
    non-IPv4 address attribute is `continue`d over without moving the
    cursor, and the countdown is decremented by the unpadded length in
    16-bit arithmetic. The lemmas here exhibit where this differs from the
    decoder of StunCodec. */
module StunAsWritten {
  import opened Bytes
  import opened StunCodec
  import opened StunResponses

  /** Byte `i` of `recv_buf` once `received` has been copied into it: the
      datagram's own bytes, then the zeros the buffer was initialised with
      (`recv_buf{}`). Offsets of 1024 and more lie outside the buffer;
      StepAsWritten never reads them. */
  function At(received: seq<uint8>, i: nat): uint8
  {
    if i < |received| then received[i] else 0
  }

  /** The state of the loop: the cursor `attrs` (an offset into the buffer)
      and the countdown `msg_len`, or how the loop has ended. */
  datatype LoopState =
    | Running(attrs: nat, msgLen: uint16)
    | Done(endpoint: Endpoint)  // the `break` after an address was read
    | Exited                    // `msg_len` reached 0: no address
    | OutOfBounds               // a read past the end of the buffer

  /** The address attribute test and the family test of one iteration. */
  predicate StallsAt(received: seq<uint8>, attrs: nat)
    requires attrs + 6 <= RECV_BUFFER_SIZE
  {
    IsAddressType(Be16(At(received, attrs), At(received, attrs + 1))) &&
    At(received, attrs + 5) != FAMILY_IPV4
  }

  /** One pass through the body of `while (msg_len > 0)`. */
  function StepAsWritten(received: seq<uint8>, s: LoopState): (t: LoopState)
    ensures !s.Running? ==> t == s
    ensures s.Running? && s.msgLen == 0 ==> t == Exited
    ensures t.Running? && s.Running? ==> s.attrs <= t.attrs
    ensures s.Running? && s.msgLen > 0 && s.attrs + 6 <= RECV_BUFFER_SIZE ==>
              (t == s <==> StallsAt(received, s.attrs))
  {
    match s
    case Running(attrs, msgLen) =>
      if msgLen == 0 then Exited
      else if attrs + 4 > RECV_BUFFER_SIZE then OutOfBounds
      else
        var attrType := Be16(At(received, attrs), At(received, attrs + 1));
        var attrLen := Be16(At(received, attrs + 2), At(received, attrs + 3));
        if IsAddressType(attrType) then AddressStepAsWritten(received, s, attrType)
        else Running(attrs + 4 + Pad4(attrLen), (msgLen - (4 + attrLen)) % 0x1_0000)
    case _ => s
  }

  /** The address branch of one pass (lines 109-117): `continue` unless
      the family is IPv4, otherwise the endpoint and `break`. */
  function AddressStepAsWritten(received: seq<uint8>, s: LoopState, attrType: uint16): (t: LoopState)
    requires s.Running? && s.attrs + 4 <= RECV_BUFFER_SIZE && IsAddressType(attrType)
    ensures t == s <==> s.attrs + 6 <= RECV_BUFFER_SIZE && At(received, s.attrs + 5) != FAMILY_IPV4
    ensures !t.Running? || t == s
  {
    var p := s.attrs + 4;
    if p + 2 > RECV_BUFFER_SIZE then OutOfBounds
    else if At(received, p + 1) != FAMILY_IPV4 then s
    else if p + 8 > RECV_BUFFER_SIZE then OutOfBounds
    else
      Done(DecodeAddressValue(attrType,
        [At(received, p), At(received, p + 1), At(received, p + 2), At(received, p + 3),
         At(received, p + 4), At(received, p + 5), At(received, p + 6), At(received, p + 7)]))
  }

  /** The loop after at most `k` passes: a loop that has ended stays
      ended, and a running one has its cursor no further back than before. */
  function IterateAsWritten(received: seq<uint8>, s: LoopState, k: nat): (t: LoopState)
    ensures !s.Running? ==> t == s
    ensures t.Running? ==> s.Running? && s.attrs <= t.attrs
    decreases k
  {
    if k == 0 then s else IterateAsWritten(received, StepAsWritten(received, s), k - 1)
  }

  /** The loop as entered after the header checks of lines 93-97. */
  function StartAsWritten(received: seq<uint8>): (s: LoopState)
    requires |received| >= HEADER_SIZE
    ensures s.Running? && s.attrs == HEADER_SIZE && s.msgLen == ParseHeader(received).value.length
  {
    Running(HEADER_SIZE, Be16(received[2], received[3]))
  }

  /** A pass that leaves the state unchanged leaves it unchanged for ever:
      the loop never terminates. */
  lemma {:induction false} StallForever(received: seq<uint8>, s: LoopState, k: nat)
    requires StepAsWritten(received, s) == s
    ensures IterateAsWritten(received, s, k) == s
  {
    if k > 0 {
      StallForever(received, s, k - 1);
    }
  }

  /** A pass over an address attribute whose family is not IPv4 leaves
      the state as it was. */
  lemma StallStep(received: seq<uint8>, attrs: nat, msgLen: uint16)
    requires msgLen > 0 && attrs + 6 <= RECV_BUFFER_SIZE && StallsAt(received, attrs)
    ensures StepAsWritten(received, Running(attrs, msgLen)) == Running(attrs, msgLen)
  {
  }

  /** The received bytes of an attribute encoded at `pos` in the buffer. */
  lemma ReadableInBuffer(buf: seq<uint8>, pos: nat, a: Attribute)
    requires ReadableAt(buf, pos, a) && IsAddressType(a.attrType) && pos + 12 <= |buf|
    ensures Be16(At(buf, pos), At(buf, pos + 1)) == a.attrType
    ensures Be16(At(buf, pos + 2), At(buf, pos + 3)) == |a.value|
    ensures At(buf, pos + 5) == a.value[1]
    ensures [At(buf, pos + 4), At(buf, pos + 5), At(buf, pos + 6), At(buf, pos + 7),
             At(buf, pos + 8), At(buf, pos + 9), At(buf, pos + 10), At(buf, pos + 11)] == a.value[..8]
  {
    assert a.value[..8] == buf[pos + 4..pos + 4 + |a.value|][..8];
  }

  // ---------------------------------------------------------------------
  // The `continue` of line 110

  /** What the loop reads of an encoded response whose first attribute is
      an address attribute: the header, then that attribute at offset 20. */
  lemma FirstAttributeInBuffer(tid: TransactionId, attrs: seq<Attribute>)
    requires AllWellFormed(attrs) && |EncodeAttributes(attrs)| < 0x1_0000
    requires |attrs| > 0 && IsAddressType(attrs[0].attrType)
    ensures var buf := EncodeResponse(BINDING_SUCCESS_RESPONSE, tid, attrs);
            |buf| >= HEADER_SIZE + 12 && Be16(buf[0], buf[1]) == BINDING_SUCCESS_RESPONSE &&
            Be16(buf[2], buf[3]) == |EncodeAttributes(attrs)| &&
            Be16(At(buf, HEADER_SIZE), At(buf, HEADER_SIZE + 1)) == attrs[0].attrType &&
            At(buf, HEADER_SIZE + 5) == attrs[0].value[1]
  {
    ResponseLayout(tid, attrs);
    ReadableInBuffer(EncodeResponse(BINDING_SUCCESS_RESPONSE, tid, attrs), HEADER_SIZE, attrs[0]);
  }

  /** A response whose first attribute is an address attribute of a family
      other than IPv4 (an IPv6 XOR-MAPPED-ADDRESS, say) stalls the
      as-written loop: however many passes it makes, the state stays the
      one it entered with, so the loop never ends. */
  lemma NonIPv4StallsAsWritten(tid: TransactionId, attrs: seq<Attribute>, k: nat)
    requires AllWellFormed(attrs) && |EncodeAttributes(attrs)| < 0x1_0000
    requires |attrs| > 0 && IsAddressType(attrs[0].attrType) && attrs[0].value[1] != FAMILY_IPV4
    ensures var buf := EncodeResponse(BINDING_SUCCESS_RESPONSE, tid, attrs);
            |buf| >= HEADER_SIZE && Be16(buf[0], buf[1]) == BINDING_SUCCESS_RESPONSE &&
            IterateAsWritten(buf, StartAsWritten(buf), k) == StartAsWritten(buf)
  {
    var buf := EncodeResponse(BINDING_SUCCESS_RESPONSE, tid, attrs);
    FirstAttributeInBuffer(tid, attrs);
    StallStep(buf, HEADER_SIZE, Be16(buf[2], buf[3]));
    StallForever(buf, StartAsWritten(buf), k);
  }

  /** The corrected decoder steps over such an attribute and carries on
      with the ones after it. */
  lemma NonIPv4SkippedCorrected(tid: TransactionId, attrs: seq<Attribute>)
    requires AllWellFormed(attrs) && |EncodeAttributes(attrs)| < 0x1_0000
    requires |attrs| > 0 && IsAddressType(attrs[0].attrType) && attrs[0].value[1] != FAMILY_IPV4
    ensures AllWellFormed(attrs[1..])
    ensures Decode(EncodeResponse(BINDING_SUCCESS_RESPONSE, tid, attrs)) == Expected(attrs[1..])
  {
    ExpectedCons(attrs);
    DecodeEncodedResponse(tid, attrs);
  }

  /** An IPv6 XOR-MAPPED-ADDRESS followed by a MAPPED-ADDRESS for `e`: the
      as-written loop never ends, the corrected decoder answers `e`. */
  lemma NonIPv4Example(tid: TransactionId, v6: seq<uint8>, e: Endpoint, k: nat)
    requires |v6| == 20 && v6[1] != FAMILY_IPV4
    ensures var attrs := [Attribute(XOR_MAPPED_ADDRESS, v6), Attribute(MAPPED_ADDRESS, MappedValue(e))];
            AllWellFormed(attrs) && |EncodeAttributes(attrs)| == 36 &&
            var buf := EncodeResponse(BINDING_SUCCESS_RESPONSE, tid, attrs);
            IterateAsWritten(buf, StartAsWritten(buf), k) == StartAsWritten(buf) &&
            Decode(buf) == Ok(e)
  {
    var first, second := Attribute(XOR_MAPPED_ADDRESS, v6), Attribute(MAPPED_ADDRESS, MappedValue(e));
    AddressValueRoundTrip(e);
    NonIPv4Pair(first, second);
    SingleAddressExpected(second, e);
    NonIPv4StallsAsWritten(tid, [first, second], k);
    NonIPv4SkippedCorrected(tid, [first, second]);
  }

  lemma NonIPv4Pair(first: Attribute, second: Attribute)
    requires IsAddressType(first.attrType) && |first.value| == 20
    requires IsAddressType(second.attrType) && |second.value| == 8
    ensures AllWellFormed([first, second]) && |EncodeAttributes([first, second])| == 36
  {
    assert Pad4(20) == 20 && Pad4(8) == 8;
    PairSize(first, second);
  }

  lemma SingleAddressExpected(a: Attribute, e: Endpoint)
    requires IsAddressType(a.attrType) && |a.value| == 8 && a.value[1] == FAMILY_IPV4
    requires DecodeAddressValue(a.attrType, a.value) == e
    ensures AllWellFormed([a]) && Expected([a]) == Ok(e)
  {
    SingletonAddress(a);
  }

  /** A header followed by any bytes: the loop reads the header's type
      and length fields, and the bytes after it from offset 20. */
  lemma HeaderThen(h: StunHeader, rest: seq<uint8>)
    ensures var buf := SerializeHeader(h) + rest;
            |buf| == HEADER_SIZE + |rest| && buf[HEADER_SIZE..] == rest &&
            Be16(buf[0], buf[1]) == h.msgType && Be16(buf[2], buf[3]) == h.length
  {
    var buf := SerializeHeader(h) + rest;
    HeaderRoundTrip(h);
    assert buf[..HEADER_SIZE] == SerializeHeader(h);
  }

  /** A Binding Success Response header declaring `declared` attribute
      bytes, followed by the encodings of `attrs`, which may end before or
      after the declared end. */
  function Message(declared: uint16, tid: TransactionId, attrs: seq<Attribute>): seq<uint8>
    requires AllWellFormed(attrs)
  {
    SerializeHeader(StunHeader(BINDING_SUCCESS_RESPONSE, declared, MAGIC_COOKIE, tid)) + EncodeAttributes(attrs)
  }

  lemma MessageLayout(declared: uint16, tid: TransactionId, attrs: seq<Attribute>)
    requires AllWellFormed(attrs)
    ensures var buf := Message(declared, tid, attrs);
            |buf| == HEADER_SIZE + |EncodeAttributes(attrs)| &&
            Be16(buf[0], buf[1]) == BINDING_SUCCESS_RESPONSE && Be16(buf[2], buf[3]) == declared &&
            LaidOut(buf, HEADER_SIZE, attrs)
  {
    var buf := Message(declared, tid, attrs);
    HeaderThen(StunHeader(BINDING_SUCCESS_RESPONSE, declared, MAGIC_COOKIE, tid), EncodeAttributes(attrs));
    assert buf[HEADER_SIZE..HEADER_SIZE + |EncodeAttributes(attrs)|] == EncodeAttributes(attrs);
    EncodingLaidOut(buf, HEADER_SIZE, attrs);
  }

  lemma ResponseLayout(tid: TransactionId, attrs: seq<Attribute>)
    requires AllWellFormed(attrs) && |EncodeAttributes(attrs)| < 0x1_0000
    ensures var buf := EncodeResponse(BINDING_SUCCESS_RESPONSE, tid, attrs);
            |buf| >= HEADER_SIZE && Be16(buf[0], buf[1]) == BINDING_SUCCESS_RESPONSE &&
            Be16(buf[2], buf[3]) == |EncodeAttributes(attrs)| &&
            LaidOut(buf, HEADER_SIZE, attrs)
  {
    assert EncodeResponse(BINDING_SUCCESS_RESPONSE, tid, attrs) == Message(|EncodeAttributes(attrs)|, tid, attrs);
    MessageLayout(|EncodeAttributes(attrs)|, tid, attrs);
  }

  // ---------------------------------------------------------------------
  // The countdown of line 121

  /** A pass over a non-address attribute readable at the cursor: the
      cursor moves past the padded value, but the countdown only drops by
      four plus the unpadded length, modulo 2^16. */
  lemma SkipStep(received: seq<uint8>, attrs: nat, msgLen: uint16, a: Attribute)
    requires ReadableAt(received, attrs, a) && !IsAddressType(a.attrType)
    requires msgLen > 0 && attrs + 4 <= RECV_BUFFER_SIZE
    ensures StepAsWritten(received, Running(attrs, msgLen))
         == Running(attrs + 4 + Pad4(|a.value|), (msgLen - (4 + |a.value|)) % 0x1_0000)
  {
  }

  /** A pass over an IPv4 address attribute readable at the cursor ends
      the loop with its endpoint. */
  lemma FoundStep(received: seq<uint8>, attrs: nat, msgLen: uint16, a: Attribute)
    requires ReadableAt(received, attrs, a) && IsAddressType(a.attrType) && a.value[1] == FAMILY_IPV4
    requires msgLen > 0 && attrs + 12 <= RECV_BUFFER_SIZE
    ensures StepAsWritten(received, Running(attrs, msgLen)) == Done(DecodeAddressValue(a.attrType, a.value[..8]))
  {
    ReadableInBuffer(received, attrs, a);
  }

  /** The second finding's datagram: the header declares only the 12 bytes
      of `other`, whose value is five bytes long, and the address attribute
      `addr` follows beyond that end. */
  function BeyondEndResponse(tid: TransactionId, other: Attribute, addr: Attribute): seq<uint8>
    requires WellFormed(other) && WellFormed(addr)
  {
    SerializeHeader(StunHeader(BINDING_SUCCESS_RESPONSE, 12, MAGIC_COOKIE, tid)) +
    (EncodeAttribute(other) + EncodeAttribute(addr))
  }

  lemma BeyondEndLayout(tid: TransactionId, other: Attribute, addr: Attribute)
    requires WellFormed(other) && |other.value| == 5
    requires IsAddressType(addr.attrType) && |addr.value| == 8
    ensures var buf := BeyondEndResponse(tid, other, addr);
            |buf| == 44 && Be16(buf[0], buf[1]) == BINDING_SUCCESS_RESPONSE && Be16(buf[2], buf[3]) == 12 &&
            ReadableAt(buf, HEADER_SIZE, other) && ReadableAt(buf, 32, addr)
  {
    HeaderThen(StunHeader(BINDING_SUCCESS_RESPONSE, 12, MAGIC_COOKIE, tid), EncodeAttribute(other) + EncodeAttribute(addr));
    BeyondEndAttributes(tid, other, addr);
  }

  lemma BeyondEndAttributes(tid: TransactionId, other: Attribute, addr: Attribute)
    requires WellFormed(other) && |other.value| == 5
    requires IsAddressType(addr.attrType) && |addr.value| == 8
    ensures var buf := BeyondEndResponse(tid, other, addr);
            ReadableAt(buf, HEADER_SIZE, other) && ReadableAt(buf, 32, addr)
  {
    var header := SerializeHeader(StunHeader(BINDING_SUCCESS_RESPONSE, 12, MAGIC_COOKIE, tid));
    EncodedFirst(header, other, EncodeAttribute(addr));
    BeyondEndAddress(header, other, addr);
  }

  lemma BeyondEndAddress(header: seq<uint8>, other: Attribute, addr: Attribute)
    requires |header| == HEADER_SIZE && WellFormed(other) && |other.value| == 5
    requires IsAddressType(addr.attrType) && |addr.value| == 8
    ensures ReadableAt(header + (EncodeAttribute(other) + EncodeAttribute(addr)), 32, addr)
  {
    assert |EncodeAttribute(other)| == 12;
    EncodedSecond(header, EncodeAttribute(other), addr, 32);
  }

  /** An attribute encoded right after `prefix` reads back there. */
  lemma EncodedFirst(prefix: seq<uint8>, a: Attribute, rest: seq<uint8>)
    requires WellFormed(a)
    ensures ReadableAt(prefix + (EncodeAttribute(a) + rest), |prefix|, a)
  {
    var buf := prefix + (EncodeAttribute(a) + rest);
    assert buf[|prefix|..|prefix| + |EncodeAttribute(a)|] == EncodeAttribute(a);
    AttributeAt(buf, |prefix|, a);
  }

  /** An attribute encoded last reads back after everything before it. */
  lemma EncodedSecond(prefix: seq<uint8>, first: seq<uint8>, a: Attribute, pos: nat)
    requires WellFormed(a) && pos == |prefix| + |first|
    ensures ReadableAt(prefix + (first + EncodeAttribute(a)), pos, a)
  {
    var buf := prefix + (first + EncodeAttribute(a));
    assert buf[pos..pos + |EncodeAttribute(a)|] == EncodeAttribute(a);
    AttributeAt(buf, pos, a);
  }

  /** As written, the countdown ends the first pass at 3 instead of 0, so a
      second pass reads the attribute after the declared end and reports
      its address. */
  lemma BeyondEndAsWritten(tid: TransactionId, other: Attribute, addr: Attribute)
    requires WellFormed(other) && !IsAddressType(other.attrType) && |other.value| == 5
    requires IsAddressType(addr.attrType) && |addr.value| == 8 && addr.value[1] == FAMILY_IPV4
    ensures var buf := BeyondEndResponse(tid, other, addr);
            |buf| >= HEADER_SIZE && Be16(buf[0], buf[1]) == BINDING_SUCCESS_RESPONSE &&
            StepAsWritten(buf, StartAsWritten(buf)) == Running(32, 3) &&
            IterateAsWritten(buf, StartAsWritten(buf), 2) == Done(DecodeAddressValue(addr.attrType, addr.value))
  {
    var buf := BeyondEndResponse(tid, other, addr);
    BeyondEndFirstPass(tid, other, addr);
    FoundPass(buf, 32, 3, addr);
  }

  /** One more pass from a cursor at an IPv4 address attribute ends there. */
  lemma FoundPass(received: seq<uint8>, attrs: nat, msgLen: uint16, a: Attribute)
    requires ReadableAt(received, attrs, a) && IsAddressType(a.attrType) && |a.value| == 8 && a.value[1] == FAMILY_IPV4
    requires msgLen > 0 && attrs + 12 <= RECV_BUFFER_SIZE
    ensures IterateAsWritten(received, Running(attrs, msgLen), 1) == Done(DecodeAddressValue(a.attrType, a.value))
  {
    FoundStep(received, attrs, msgLen, a);
    assert a.value[..8] == a.value;
  }

  lemma BeyondEndFirstPass(tid: TransactionId, other: Attribute, addr: Attribute)
    requires WellFormed(other) && !IsAddressType(other.attrType) && |other.value| == 5
    requires IsAddressType(addr.attrType) && |addr.value| == 8
    ensures var buf := BeyondEndResponse(tid, other, addr);
            |buf| == 44 && Be16(buf[0], buf[1]) == BINDING_SUCCESS_RESPONSE &&
            ReadableAt(buf, 32, addr) && StepAsWritten(buf, StartAsWritten(buf)) == Running(32, 3)
  {
    BeyondEndLayout(tid, other, addr);
    FiveByteFirstPass(BeyondEndResponse(tid, other, addr), other);
  }

  /** As written, a first pass over a five-byte attribute under a header
      declaring 12 bytes leaves the cursor at 32 and the countdown at 3. */
  lemma FiveByteFirstPass(buf: seq<uint8>, other: Attribute)
    requires |buf| >= HEADER_SIZE && Be16(buf[2], buf[3]) == 12
    requires ReadableAt(buf, HEADER_SIZE, other) && !IsAddressType(other.attrType) && |other.value| == 5
    ensures StepAsWritten(buf, StartAsWritten(buf)) == Running(32, 3)
  {
    assert StartAsWritten(buf) == Running(HEADER_SIZE, 12);
    SkipStep(buf, HEADER_SIZE, 12, other);
    assert Pad4(5) == 8 && (12 - (4 + 5)) % 0x1_0000 == 3;
  }

  /** The corrected decoder stops at the declared end: the message holds no
      address attribute. */
  lemma BeyondEndCorrected(tid: TransactionId, other: Attribute, addr: Attribute)
    requires WellFormed(other) && !IsAddressType(other.attrType) && |other.value| == 5
    requires IsAddressType(addr.attrType) && |addr.value| == 8
    ensures Decode(BeyondEndResponse(tid, other, addr)) == Err(NoAddressAttribute)
  {
    BeyondEndLayout(tid, other, addr);
    FiveByteOnly(BeyondEndResponse(tid, other, addr), other);
  }

  /** A header declaring 12 bytes around one five-byte non-address
      attribute: its padded size fills the declared length exactly. */
  lemma FiveByteOnly(buf: seq<uint8>, other: Attribute)
    requires |buf| >= HEADER_SIZE && Be16(buf[0], buf[1]) == BINDING_SUCCESS_RESPONSE && Be16(buf[2], buf[3]) == 12
    requires ReadableAt(buf, HEADER_SIZE, other) && !IsAddressType(other.attrType) && |other.value| == 5
    ensures Decode(buf) == Err(NoAddressAttribute)
  {
    assert Pad4(5) == 8;
    SkippedOnly(buf, other);
  }

  /** A lone non-address attribute readable at offset 20 and filling the
      declared length leaves nothing to find. */
  lemma SkippedOnly(buf: seq<uint8>, other: Attribute)
    requires ReadableAt(buf, HEADER_SIZE, other) && !IsAddressType(other.attrType)
    requires |buf| >= HEADER_SIZE && Be16(buf[0], buf[1]) == BINDING_SUCCESS_RESPONSE
    requires Be16(buf[2], buf[3]) == 4 + Pad4(|other.value|)
    ensures Decode(buf) == Err(NoAddressAttribute)
  {
    ParseReadable(buf, HEADER_SIZE, other);
    ScanStep(buf, HEADER_SIZE, HEADER_SIZE + 4 + Pad4(|other.value|));
  }

  // ---------------------------------------------------------------------
  // The reads of lines 89-91, never checked against the received length

  /** The third finding's datagram: a header declaring `declared` bytes and
      the type and length fields of one attribute whose value, `attrLen`
      bytes, was never received. */
  function TruncatedResponse(tid: TransactionId, declared: uint16, attrType: uint16, attrLen: uint16): seq<uint8>
  {
    SerializeHeader(StunHeader(BINDING_SUCCESS_RESPONSE, declared, MAGIC_COOKIE, tid)) + Be16Bytes(attrType) + Be16Bytes(attrLen)
  }

  lemma TruncatedLayout(tid: TransactionId, declared: uint16, attrType: uint16, attrLen: uint16)
    ensures var buf := TruncatedResponse(tid, declared, attrType, attrLen);
            |buf| == 24 && Be16(buf[0], buf[1]) == BINDING_SUCCESS_RESPONSE && Be16(buf[2], buf[3]) == declared &&
            Be16(buf[20], buf[21]) == attrType && Be16(buf[22], buf[23]) == attrLen
  {
    HeaderThen(StunHeader(BINDING_SUCCESS_RESPONSE, declared, MAGIC_COOKIE, tid), Be16Bytes(attrType) + Be16Bytes(attrLen));
  }

  /** As written, an attribute length reaching past the 1024-byte buffer
      moves the cursor beyond it, and the next pass reads outside it. */
  lemma TruncatedAsWritten(tid: TransactionId, declared: uint16, attrType: uint16, attrLen: uint16)
    requires !IsAddressType(attrType) && HEADER_SIZE + 4 + attrLen > RECV_BUFFER_SIZE && 4 + attrLen < declared
    ensures var buf := TruncatedResponse(tid, declared, attrType, attrLen);
            |buf| >= HEADER_SIZE && Be16(buf[0], buf[1]) == BINDING_SUCCESS_RESPONSE &&
            IterateAsWritten(buf, StartAsWritten(buf), 2) == OutOfBounds
  {
    TruncatedLayout(tid, declared, attrType, attrLen);
  }

  /** The corrected decoder rejects the attribute as truncated. */
  lemma TruncatedCorrected(tid: TransactionId, declared: uint16, attrType: uint16, attrLen: uint16)
    requires 4 <= declared && 0 < attrLen
    ensures Decode(TruncatedResponse(tid, declared, attrType, attrLen)) == Err(TruncatedAttribute)
  {
    var buf := TruncatedResponse(tid, declared, attrType, attrLen);
    TruncatedLayout(tid, declared, attrType, attrLen);
    ScanStep(buf, HEADER_SIZE, HEADER_SIZE + declared);
  }

  // ---------------------------------------------------------------------
  // Where the loop as written agrees with the corrected decoder

  /** How the loop ends for a decoding result: `break` with the endpoint,
      or the countdown reaching 0 with no address found. */
  function Outcome(r: Result<Endpoint, DecodeError>): LoopState
  {
    match r
    case Ok(e) => Done(e)
    case Err(_) => Exited
  }

  /** Attributes that never reach the two defects of the loop: every value
      length is a multiple of four, so padding adds nothing, and every
      address attribute is IPv4. */
  predicate AsWrittenSafe(attrs: seq<Attribute>)
  {
    forall i :: 0 <= i < |attrs| ==>
      |attrs[i].value| % 4 == 0 && (IsAddressType(attrs[i].attrType) ==> |attrs[i].value| >= 2 && attrs[i].value[1] == FAMILY_IPV4)
  }

  /** Once the loop has ended, further passes leave it as it is. */
  lemma EndedStays(received: seq<uint8>, s: LoopState, k: nat)
    requires !s.Running?
    ensures IterateAsWritten(received, s, k) == s
  {
  }

  /** As written, attributes laid out from the cursor, with the countdown
      equal to the bytes they occupy, end the loop within one pass per
      attribute plus one, with the reference result. */
  lemma {:induction false} LaidOutAsWritten(buf: seq<uint8>, pos: nat, attrs: seq<Attribute>)
    requires AllWellFormed(attrs) && AsWrittenSafe(attrs) && LaidOut(buf, pos, attrs)
    requires |buf| <= RECV_BUFFER_SIZE && EncodedSize(attrs) < 0x1_0000
    ensures IterateAsWritten(buf, Running(pos, EncodedSize(attrs)), |attrs| + 1) == Outcome(Expected(attrs))
    decreases |attrs|
  {
    var size := EncodedSize(attrs);
    if |attrs| == 0 {
      assert IterateAsWritten(buf, Running(pos, size), 1) == IterateAsWritten(buf, Exited, 0);
    } else {
      var a := attrs[0];
      ExpectedCons(attrs);
      assert ReadableAt(buf, pos, a) && |a.value| % 4 == 0;
      if IsAddressType(a.attrType) {
        FoundStep(buf, pos, size, a);
        EndedStays(buf, StepAsWritten(buf, Running(pos, size)), |attrs|);
      } else {
        AsWrittenSkip(buf, pos, attrs);
      }
    }
  }

  /** The step over a first attribute that is not an address attribute. */
  lemma {:induction false} AsWrittenSkip(buf: seq<uint8>, pos: nat, attrs: seq<Attribute>)
    requires AllWellFormed(attrs) && AsWrittenSafe(attrs) && LaidOut(buf, pos, attrs)
    requires |buf| <= RECV_BUFFER_SIZE && EncodedSize(attrs) < 0x1_0000
    requires |attrs| > 0 && !IsAddressType(attrs[0].attrType)
    ensures IterateAsWritten(buf, Running(pos, EncodedSize(attrs)), |attrs| + 1) == Outcome(Expected(attrs))
    decreases |attrs|, 0
  {
    var a, rest := attrs[0], attrs[1..];
    var size, next := EncodedSize(attrs), pos + 4 + |a.value|;
    RestLaidOut(buf, pos, attrs);
    assert StepAsWritten(buf, Running(pos, size)) == Running(next, EncodedSize(rest)) by {
      AlignedSkipStep(buf, pos, size, a, EncodedSize(rest));
    }
    assert IterateAsWritten(buf, Running(pos, size), |attrs| + 1)
        == IterateAsWritten(buf, Running(next, EncodedSize(rest)), |rest| + 1);
    LaidOutAsWritten(buf, next, rest);
    assert Expected(attrs) == Expected(rest) by {
      ExpectedCons(attrs);
    }
  }

  /** Behind an aligned first attribute, the rest is laid out where the
      loop as written moves its cursor. */
  lemma RestLaidOut(buf: seq<uint8>, pos: nat, attrs: seq<Attribute>)
    requires AllWellFormed(attrs) && AsWrittenSafe(attrs) && LaidOut(buf, pos, attrs) && |attrs| > 0
    ensures ReadableAt(buf, pos, attrs[0]) && |attrs[0].value| % 4 == 0
    ensures EncodedSize(attrs) == 4 + Pad4(|attrs[0].value|) + EncodedSize(attrs[1..])
    ensures var next := pos + 4 + |attrs[0].value|;
            AllWellFormed(attrs[1..]) && AsWrittenSafe(attrs[1..]) && LaidOut(buf, next, attrs[1..])
  {
    TailSafe(attrs);
    PadAligned(|attrs[0].value|);
  }

  /** The conditions on a list hold of its tail, and its head is aligned. */
  lemma TailSafe(attrs: seq<Attribute>)
    requires AllWellFormed(attrs) && AsWrittenSafe(attrs) && |attrs| > 0
    ensures |attrs[0].value| % 4 == 0 && AllWellFormed(attrs[1..]) && AsWrittenSafe(attrs[1..])
  {
    assert forall i :: 0 <= i < |attrs| - 1 ==> attrs[1..][i] == attrs[i + 1];
  }

  lemma PadAligned(n: nat)
    requires n % 4 == 0
    ensures Pad4(n) == n
  {
  }

  /** As written, a pass over a non-address attribute whose length is a
      multiple of four moves the cursor and the countdown by the same step. */
  lemma AlignedSkipStep(received: seq<uint8>, attrs: nat, msgLen: uint16, a: Attribute, after: nat)
    requires ReadableAt(received, attrs, a) && !IsAddressType(a.attrType) && |a.value| % 4 == 0
    requires msgLen == 4 + Pad4(|a.value|) + after && attrs + 4 <= RECV_BUFFER_SIZE
    ensures StepAsWritten(received, Running(attrs, msgLen)) == Running(attrs + 4 + |a.value|, after)
  {
    SkipStep(received, attrs, msgLen, a);
    AlignedCountdown(msgLen, |a.value|, after);
  }

  /** The arithmetic of that step: an aligned length is its own padding,
      and the countdown does not wrap. */
  lemma AlignedCountdown(msgLen: uint16, n: nat, after: nat)
    requires n % 4 == 0 && msgLen == 4 + Pad4(n) + after
    ensures Pad4(n) == n && (msgLen - (4 + n)) % 0x1_0000 == after
  {
  }

  /** Where a Binding Success Response that fits the receive buffer holds
      only attributes that reach neither defect, the loop as written ends
      within one pass per attribute plus one, with what the corrected
      decoder returns. */
  lemma DecodeAgreesAsWritten(tid: TransactionId, attrs: seq<Attribute>)
    requires AllWellFormed(attrs) && AsWrittenSafe(attrs)
    requires HEADER_SIZE + |EncodeAttributes(attrs)| <= RECV_BUFFER_SIZE
    ensures var buf := EncodeResponse(BINDING_SUCCESS_RESPONSE, tid, attrs);
            |buf| >= HEADER_SIZE &&
            IterateAsWritten(buf, StartAsWritten(buf), |attrs| + 1) == Outcome(Decode(buf))
  {
    var buf := EncodeResponse(BINDING_SUCCESS_RESPONSE, tid, attrs);
    EncodingLaidOut(buf, HEADER_SIZE, attrs);
    assert StartAsWritten(buf) == Running(HEADER_SIZE, EncodedSize(attrs));
    LaidOutAsWritten(buf, HEADER_SIZE, attrs);
    DecodeEncodedResponse(tid, attrs);
  }

  /** The worked response of StunResponses, byte for byte: the as-written
      loop takes its XOR-MAPPED-ADDRESS in one pass. */
  lemma WorkedResponseAsWritten(tid: TransactionId)
    ensures var buf := WorkedResponse(tid);
            IterateAsWritten(buf, StartAsWritten(buf), 1) == Done(Endpoint(0xCB00_7105, 54321))
  {
    var buf := WorkedResponse(tid);
    var v := buf[24..32];
    WorkedReadable(tid, buf);
    assert StartAsWritten(buf) == Running(HEADER_SIZE, 12);
    FoundPass(buf, HEADER_SIZE, 12, Attribute(XOR_MAPPED_ADDRESS, v));
    WorkedValue(v);
  }

  lemma WorkedReadable(tid: TransactionId, buf: seq<uint8>)
    requires buf == WorkedResponse(tid)
    ensures buf[2] == 0x00 && buf[3] == 0x0C
    ensures buf[24..32] == [0x00, 0x01, 0xF5, 0x23, 0xEA, 0x12, 0xD5, 0x47]
    ensures ReadableAt(buf, HEADER_SIZE, Attribute(XOR_MAPPED_ADDRESS, buf[24..32]))
  {
    assert buf[20..] == [0x00, 0x20, 0x00, 0x08, 0x00, 0x01, 0xF5, 0x23, 0xEA, 0x12, 0xD5, 0x47];
    assert buf[24..32] == buf[20..][4..];
    assert buf[20] == 0x00 && buf[21] == 0x20 && buf[22] == 0x00 && buf[23] == 0x08 by {
      assert buf[20..][0] == 0x00 && buf[20..][1] == 0x20 && buf[20..][2] == 0x00 && buf[20..][3] == 0x08;
    }
  }
}
