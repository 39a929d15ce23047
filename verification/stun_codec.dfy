/** The STUN Binding exchange of `get_external_and_keepalive` (main.cpp):
    the 20-byte Binding Request it sends, and the parsing of the Binding
    Success Response it receives into the external IPv4 endpoint
    (section 6 and sections 15.1, 15.2 of RFC 5389). */
module StunCodec {
  import opened Bytes

  const HEADER_SIZE: nat := 20
  /** `boost::array<uint8_t, 1024> recv_buf{}`: no datagram longer than
      this is ever seen by the parser. */
  const RECV_BUFFER_SIZE: nat := 1024
  const BINDING_REQUEST: uint16 := 0x0001
  const BINDING_SUCCESS_RESPONSE: uint16 := 0x0101
  const MAGIC_COOKIE: uint32 := 0x2112A442
  /** `STUN_MAGIC_COOKIE >> 16`, the key the port is XOR-ed with. */
  const PORT_XOR_KEY: uint16 := MAGIC_COOKIE / 0x1_0000
  const MAPPED_ADDRESS: uint16 := 0x0001
  const XOR_MAPPED_ADDRESS: uint16 := 0x0020
  const FAMILY_IPV4: uint8 := 0x01

  datatype Option<T> = None | Some(value: T)
  datatype Result<T, E> = Ok(value: T) | Err(error: E)

  type TransactionId = s: seq<uint8> | |s| == 12
    witness [0, 0, 0, 0, 0, 0, 0, 0, 0, 0, 0, 0]

  /** The fixed STUN message header, field by field as in `struct StunHeader`. */
  datatype StunHeader = StunHeader(
    msgType: uint16,
    length: uint16,      // attribute bytes following the header
    cookie: uint32,
    transactionId: TransactionId)

  /** An external transport address: IPv4 address and UDP port, host order. */
  datatype Endpoint = Endpoint(ip: uint32, port: uint16)

  /** Why a received datagram yields no external address. */
  datatype DecodeError =
    | TooShort            // fewer bytes than a header
    | WrongMessageType    // not a Binding Success Response
    | TruncatedAttribute  // an attribute reaches past the received bytes
    | NoAddressAttribute  // the declared attributes hold no IPv4 address

  /** The wire image of a header: every field in network order, no padding
      (the `htons`/`htonl` field writes followed by the `memcpy`). */
  function SerializeHeader(h: StunHeader): (bs: seq<uint8>)
    ensures |bs| == HEADER_SIZE
    ensures Be16(bs[0], bs[1]) == h.msgType && Be16(bs[2], bs[3]) == h.length
    ensures bs[8..] == h.transactionId
  {
    Be16Bytes(h.msgType) + Be16Bytes(h.length) + Be32Bytes(h.cookie) + h.transactionId
  }

  /** The header read back from the first 20 bytes of a datagram
      (the `reinterpret_cast<StunHeader*>` followed by `ntohs`). */
  function ParseHeader(bs: seq<uint8>): (r: Option<StunHeader>)
    ensures r.Some? <==> |bs| >= HEADER_SIZE
  {
    if |bs| < HEADER_SIZE then None
    else Some(StunHeader(Be16(bs[0], bs[1]), Be16(bs[2], bs[3]),
                         Be32(bs[4], bs[5], bs[6], bs[7]), bs[8..20]))
  }

  /** The Binding Request sent to the STUN server: type 0x0001, no
      attributes, the magic cookie and the caller's transaction id. */
  function EncodeBindingRequest(tid: TransactionId): (r: seq<uint8>)
    ensures |r| == HEADER_SIZE
    ensures r[..8] == [0x00, 0x01, 0x00, 0x00, 0x21, 0x12, 0xA4, 0x42]
    ensures r[8..] == tid
  {
    RequestPrefix(tid);
    SerializeHeader(StunHeader(BINDING_REQUEST, 0, MAGIC_COOKIE, tid))
  }

  /** The first eight bytes of a header with no attributes are its type and
      the cookie, in network order. */
  lemma RequestPrefix(tid: TransactionId)
    ensures SerializeHeader(StunHeader(BINDING_REQUEST, 0, MAGIC_COOKIE, tid))[..8]
         == [0x00, 0x01, 0x00, 0x00, 0x21, 0x12, 0xA4, 0x42]
  {
    var prefix := Be16Bytes(BINDING_REQUEST) + Be16Bytes(0) + Be32Bytes(MAGIC_COOKIE);
    assert SerializeHeader(StunHeader(BINDING_REQUEST, 0, MAGIC_COOKIE, tid))[..8] == prefix;
    RequestConstants();
  }

  lemma RequestConstants()
    ensures Be16Bytes(BINDING_REQUEST) + Be16Bytes(0) + Be32Bytes(MAGIC_COOKIE)
         == [0x00, 0x01, 0x00, 0x00, 0x21, 0x12, 0xA4, 0x42]
  {
    assert Be16Bytes(BINDING_REQUEST) == [0x00, 0x01];
    assert Be16Bytes(0) == [0x00, 0x00];
    CookieBytes();
  }

  lemma CookieBytes()
    ensures Be32Bytes(MAGIC_COOKIE) == [0x21, 0x12, 0xA4, 0x42]
  {
    assert MAGIC_COOKIE / 0x1_0000 == 0x2112 && MAGIC_COOKIE % 0x1_0000 == 0xA442;
  }

  /** The two attributes that carry the mapped address: MAPPED-ADDRESS and
      XOR-MAPPED-ADDRESS. */
  predicate IsAddressType(attrType: uint16)
  {
    attrType == MAPPED_ADDRESS || attrType == XOR_MAPPED_ADDRESS
  }

  /** The endpoint carried by the eight value bytes of an IPv4 MAPPED-ADDRESS
      or XOR-MAPPED-ADDRESS attribute (family at 1, port at 2, address at 4);
      the XOR variant is un-XOR-ed with the cookie. */
  function DecodeAddressValue(attrType: uint16, v: seq<uint8>): (e: Endpoint)
    requires IsAddressType(attrType) && |v| == 8
    ensures attrType == MAPPED_ADDRESS ==> e.port == Be16(v[2], v[3]) && e.ip == Be32(v[4], v[5], v[6], v[7])
  {
    var port := Be16(v[2], v[3]);
    var ip := Be32(v[4], v[5], v[6], v[7]);
    if attrType == XOR_MAPPED_ADDRESS then Endpoint(Xor32(ip, MAGIC_COOKIE), Xor16(port, PORT_XOR_KEY))
    else Endpoint(ip, port)
  }

  /** The endpoint decoded from an XOR-MAPPED-ADDRESS value, XOR-ed again
      with the key and the cookie, gives back the port and address fields
      as they were on the wire. */
  lemma XorValueFields(v: seq<uint8>)
    requires |v| == 8
    ensures var e := DecodeAddressValue(XOR_MAPPED_ADDRESS, v);
            Xor16(e.port, PORT_XOR_KEY) == Be16(v[2], v[3]) && Xor32(e.ip, MAGIC_COOKIE) == Be32(v[4], v[5], v[6], v[7])
  {
    Xor16Involution(Be16(v[2], v[3]), PORT_XOR_KEY);
    Xor32Involution(Be32(v[4], v[5], v[6], v[7]), MAGIC_COOKIE);
  }

  /** What the parsing loop makes of the attribute at `pos`. */
  datatype AttributeOutcome =
    | Found(endpoint: Endpoint)  // an IPv4 address attribute: scanning stops
    | Truncated                  // the attribute reaches past the received bytes
    | Skip(next: nat)            // any other attribute: the next one starts at `next`

  /** One attribute: type and length at `pos`, value at `pos + 4`. An address
      attribute's eight value bytes, and every other attribute's declared
      length, must lie within `buf`; a skipped attribute is stepped over by
      four plus its length rounded up to a multiple of four. */
  function ParseAttribute(buf: seq<uint8>, pos: nat): (o: AttributeOutcome)
    ensures o.Found? ==> pos + 12 <= |buf| && IsAddressType(Be16(buf[pos], buf[pos + 1])) && buf[pos + 5] == FAMILY_IPV4
    ensures o.Skip? ==> pos + 4 <= |buf| && pos + 4 + Be16(buf[pos + 2], buf[pos + 3]) <= |buf|
    ensures o.Skip? ==> o.next == pos + 4 + Pad4(Be16(buf[pos + 2], buf[pos + 3])) && (o.next - pos) % 4 == 0
  {
    if pos + 4 > |buf| then Truncated
    else
      var attrType := Be16(buf[pos], buf[pos + 1]);
      var attrLen := Be16(buf[pos + 2], buf[pos + 3]);
      if pos + 4 + attrLen > |buf| then Truncated
      else if IsAddressType(attrType) && pos + 12 > |buf| then Truncated
      else if IsAddressType(attrType) && buf[pos + 5] == FAMILY_IPV4 then
        Found(DecodeAddressValue(attrType, buf[pos + 4..pos + 12]))
      else
        Skip(pos + 4 + Pad4(attrLen))
  }

  /** Scans the attributes from `pos` up to the declared end of the message
      at `end`, while a whole attribute header still fits before `end`: the
      first IPv4 address attribute gives the result. */
  function ScanAttributes(buf: seq<uint8>, pos: nat, end: nat): (r: Result<Endpoint, DecodeError>)
    ensures r.Ok? ==> pos + 4 <= end && pos + 12 <= |buf|
    decreases end - pos
  {
    if pos + 4 > end then Err(NoAddressAttribute)
    else
      match ParseAttribute(buf, pos)
      case Found(e) => Ok(e)
      case Truncated => Err(TruncatedAttribute)
      case Skip(next) => ScanAttributes(buf, next, end)
  }

  /** The result of parsing a received datagram as a Binding Success Response. */
  function Decode(buf: seq<uint8>): (r: Result<Endpoint, DecodeError>)
    ensures |buf| < HEADER_SIZE ==> r == Err(TooShort)
    ensures |buf| >= HEADER_SIZE && Be16(buf[0], buf[1]) != BINDING_SUCCESS_RESPONSE ==> r == Err(WrongMessageType)
    ensures r.Ok? ==> |buf| >= HEADER_SIZE + 12
  {
    match ParseHeader(buf)
    case None => Err(TooShort)
    case Some(header) =>
      if header.msgType != BINDING_SUCCESS_RESPONSE then Err(WrongMessageType)
      else ScanAttributes(buf, HEADER_SIZE, HEADER_SIZE + header.length)
  }

  /** The parsing loop of main.cpp:93-124 over a cursor `attrs` and a
      countdown `remaining` seeded from the header's length field. */
  method DecodeBindingResponse(buf: seq<uint8>) returns (r: Result<Endpoint, DecodeError>)
    ensures r == Decode(buf)
  {
    if |buf| < HEADER_SIZE {
      return Err(TooShort);
    }
    if Be16(buf[0], buf[1]) != BINDING_SUCCESS_RESPONSE {
      return Err(WrongMessageType);
    }
    var msgLen := Be16(buf[2], buf[3]);
    var attrs: nat := HEADER_SIZE;
    var remaining: int := msgLen;
    while remaining >= 4
      invariant attrs + remaining == HEADER_SIZE + msgLen
      invariant ScanAttributes(buf, attrs, HEADER_SIZE + msgLen) == ScanAttributes(buf, HEADER_SIZE, HEADER_SIZE + msgLen)
      decreases remaining
    {
      if attrs + 4 > |buf| {
        return Err(TruncatedAttribute);
      }
      var attrType := Be16(buf[attrs], buf[attrs + 1]);
      var attrLen := Be16(buf[attrs + 2], buf[attrs + 3]);
      if attrs + 4 + attrLen > |buf| {
        return Err(TruncatedAttribute);
      }
      if attrType == XOR_MAPPED_ADDRESS || attrType == MAPPED_ADDRESS {
        if attrs + 12 > |buf| {
          return Err(TruncatedAttribute);
        }
        if buf[attrs + 5] == FAMILY_IPV4 {
          var port := Be16(buf[attrs + 6], buf[attrs + 7]);
          if attrType == XOR_MAPPED_ADDRESS {
            port := Xor16(port, PORT_XOR_KEY);
          }
          var ip := Be32(buf[attrs + 8], buf[attrs + 9], buf[attrs + 10], buf[attrs + 11]);
          if attrType == XOR_MAPPED_ADDRESS {
            ip := Xor32(ip, MAGIC_COOKIE);
          }
          return Ok(Endpoint(ip, port));
        }
      }
      var step := 4 + Pad4(attrLen);
      attrs := attrs + step;
      remaining := remaining - step;
    }
    return Err(NoAddressAttribute);
  }

  /** What `get_external_and_keepalive` hands back: the external address
      (`""` is None), the external port and the local socket port. */
  datatype Discovery = Discovery(extIp: Option<uint32>, extPort: uint16, localPort: uint16)

  /** The returned triple for a received datagram: all three fields are
      cleared unless the datagram decodes, and then the local port is the
      one the socket was bound to. */
  function Discovered(received: seq<uint8>, localPort: uint16): (d: Discovery)
    ensures d.extIp.None? <==> Decode(received).Err?
    ensures d.extIp.None? ==> d.extPort == 0 && d.localPort == 0
    ensures d.extIp.Some? ==> Decode(received) == Ok(Endpoint(d.extIp.value, d.extPort)) && d.localPort == localPort
  {
    match Decode(received)
    case Ok(e) => Discovery(Some(e.ip), e.port, localPort)
    case Err(_) => Discovery(None, 0, 0)
  }

  /** The codec part of `get_external_and_keepalive` (main.cpp:78-128): the
      request it sends for transaction id `tid`, and the triple it returns
      once `received` came back on the socket bound to `localPort`. */
  method GetExternalAndKeepalive(tid: TransactionId, localPort: uint16, received: seq<uint8>)
    returns (request: seq<uint8>, result: Discovery)
    requires |received| <= RECV_BUFFER_SIZE
    ensures request == EncodeBindingRequest(tid)
    ensures result == Discovered(received, localPort)
  {
    var header := StunHeader(BINDING_REQUEST, 0, MAGIC_COOKIE, tid);
    request := SerializeHeader(header);
    var decoded := DecodeBindingResponse(received);
    match decoded
    case Ok(e) =>
      result := Discovery(Some(e.ip), e.port, localPort);
    case Err(_) =>
      result := Discovery(None, 0, 0);
  }
}
