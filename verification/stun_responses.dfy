/** Binding Success Responses built from a list of attributes, and what the
    decoder of StunCodec makes of them: the padding of section 15 of RFC 5389,
    the first-address-wins rule, and the XOR of section 15.2 undone. */
module StunResponses {
  import opened Bytes
  import opened StunCodec

  /** `n` zero bytes: the padding after an attribute value. */
  function Zeros(n: nat): (z: seq<uint8>)
    ensures |z| == n
  {
    seq(n, _ => 0)
  }

  /** A STUN attribute as type, length and value. */
  datatype Attribute = Attribute(attrType: uint16, value: seq<uint8>)

  /** An attribute whose length fits its 16-bit field, and that carries at
      least the eight bytes of an IPv4 address value when it is one of the
      two address attributes. */
  predicate WellFormed(a: Attribute)
  {
    |a.value| < 0x1_0000 && (IsAddressType(a.attrType) ==> |a.value| >= 8)
  }

  predicate AllWellFormed(attrs: seq<Attribute>)
  {
    forall i :: 0 <= i < |attrs| ==> WellFormed(attrs[i])
  }

  /** The TLV image of an attribute: type, length, value, zero padding. */
  function EncodeAttribute(a: Attribute): (bs: seq<uint8>)
    requires WellFormed(a)
    ensures |bs| == 4 + Pad4(|a.value|)
  {
    Be16Bytes(a.attrType) + Be16Bytes(|a.value|) + a.value + Zeros(Pad4(|a.value|) - |a.value|)
  }

  function EncodeAttributes(attrs: seq<Attribute>): (bs: seq<uint8>)
    requires AllWellFormed(attrs)
  {
    if |attrs| == 0 then [] else EncodeAttribute(attrs[0]) + EncodeAttributes(attrs[1..])
  }

  /** A complete message of type `msgType` whose header declares exactly the
      attribute bytes that follow it. */
  function EncodeResponse(msgType: uint16, tid: TransactionId, attrs: seq<Attribute>): (bs: seq<uint8>)
    requires AllWellFormed(attrs) && |EncodeAttributes(attrs)| < 0x1_0000
    ensures |bs| == HEADER_SIZE + |EncodeAttributes(attrs)|
    ensures Be16(bs[0], bs[1]) == msgType && Be16(bs[2], bs[3]) == |EncodeAttributes(attrs)|
    ensures bs[HEADER_SIZE..] == EncodeAttributes(attrs)
  {
    SerializeHeader(StunHeader(msgType, |EncodeAttributes(attrs)|, MAGIC_COOKIE, tid)) + EncodeAttributes(attrs)
  }

  /** Reference semantics on the attribute list: the endpoint of the first
      address attribute whose family is IPv4. */
  function FirstAddress(attrs: seq<Attribute>): Option<Endpoint>
    requires AllWellFormed(attrs)
  {
    if |attrs| == 0 then None
    else if IsAddressType(attrs[0].attrType) && attrs[0].value[1] == FAMILY_IPV4 then
      Some(DecodeAddressValue(attrs[0].attrType, attrs[0].value[..8]))
    else FirstAddress(attrs[1..])
  }

  function Expected(attrs: seq<Attribute>): Result<Endpoint, DecodeError>
    requires AllWellFormed(attrs)
  {
    match FirstAddress(attrs)
    case Some(e) => Ok(e)
    case None => Err(NoAddressAttribute)
  }

  /** The value of a MAPPED-ADDRESS attribute for `e`. */
  function MappedValue(e: Endpoint): seq<uint8>
  {
    [0x00, FAMILY_IPV4] + Be16Bytes(e.port) + Be32Bytes(e.ip)
  }

  /** The value of an XOR-MAPPED-ADDRESS attribute for `e`, as a server
      writes it: port and address XOR-ed with the cookie. */
  function XorMappedValue(e: Endpoint): seq<uint8>
  {
    [0x00, FAMILY_IPV4] + Be16Bytes(Xor16(e.port, PORT_XOR_KEY)) + Be32Bytes(Xor32(e.ip, MAGIC_COOKIE))
  }

  // ---------------------------------------------------------------------
  // Header and request

  lemma HeaderRoundTrip(h: StunHeader)
    ensures ParseHeader(SerializeHeader(h)) == Some(h)
  {
    var bs := SerializeHeader(h);
    assert bs[0..2] == Be16Bytes(h.msgType);
    assert bs[2..4] == Be16Bytes(h.length);
    assert bs[4..8] == Be32Bytes(h.cookie);
    assert Be16(bs[0], bs[1]) == h.msgType;
    assert Be16(bs[2], bs[3]) == h.length;
    assert Be32(bs[4], bs[5], bs[6], bs[7]) == h.cookie;
    assert bs[8..20] == h.transactionId;
  }

  lemma HeaderReencode(bs: seq<uint8>)
    requires |bs| >= HEADER_SIZE
    ensures SerializeHeader(ParseHeader(bs).value) == bs[..HEADER_SIZE]
  {
    var h := ParseHeader(bs).value;
    Be16BytesOfBe16(bs[0], bs[1]);
    Be16BytesOfBe16(bs[2], bs[3]);
    Be16BytesOfBe16(bs[4], bs[5]);
    Be16BytesOfBe16(bs[6], bs[7]);
    assert h.cookie / 0x1_0000 == Be16(bs[4], bs[5]) && h.cookie % 0x1_0000 == Be16(bs[6], bs[7]);
  }

  /** The request carries the Binding Request type, an empty attribute
      section, the cookie and the transaction id, and it is never taken for
      a response. */
  lemma RequestFields(tid: TransactionId)
    ensures ParseHeader(EncodeBindingRequest(tid)) == Some(StunHeader(BINDING_REQUEST, 0, MAGIC_COOKIE, tid))
    ensures Decode(EncodeBindingRequest(tid)) == Err(WrongMessageType)
  {
    HeaderRoundTrip(StunHeader(BINDING_REQUEST, 0, MAGIC_COOKIE, tid));
  }

  // ---------------------------------------------------------------------
  // Address values

  lemma AddressValueRoundTrip(e: Endpoint)
    ensures |MappedValue(e)| == 8 && MappedValue(e)[1] == FAMILY_IPV4
    ensures DecodeAddressValue(MAPPED_ADDRESS, MappedValue(e)) == e
    ensures |XorMappedValue(e)| == 8 && XorMappedValue(e)[1] == FAMILY_IPV4
    ensures DecodeAddressValue(XOR_MAPPED_ADDRESS, XorMappedValue(e)) == e
  {
    var v := XorMappedValue(e);
    Xor16Involution(e.port, PORT_XOR_KEY);
    Xor32Involution(e.ip, MAGIC_COOKIE);
    assert Be16(v[2], v[3]) == Xor16(e.port, PORT_XOR_KEY);
    assert Be32(v[4], v[5], v[6], v[7]) == Xor32(e.ip, MAGIC_COOKIE);
    var m := MappedValue(e);
    assert Be16(m[2], m[3]) == e.port;
    assert Be32(m[4], m[5], m[6], m[7]) == e.ip;
  }

  // ---------------------------------------------------------------------
  // Attribute scanning

  lemma AllWellFormedAppend(xs: seq<Attribute>, ys: seq<Attribute>)
    requires AllWellFormed(xs) && AllWellFormed(ys)
    ensures AllWellFormed(xs + ys)
  {
  }

  /** The encoding of a concatenation is the concatenation of the encodings. */
  lemma {:induction false} EncodeAttributesAppend(xs: seq<Attribute>, ys: seq<Attribute>)
    requires AllWellFormed(xs) && AllWellFormed(ys)
    ensures AllWellFormed(xs + ys)
    ensures EncodeAttributes(xs + ys) == EncodeAttributes(xs) + EncodeAttributes(ys)
  {
    AllWellFormedAppend(xs, ys);
    if |xs| == 0 {
      assert xs + ys == ys;
    } else {
      assert (xs + ys)[1..] == xs[1..] + ys;
      EncodeAttributesAppend(xs[1..], ys);
    }
  }

  /** What the decoder reads of attribute `a` at `pos`: its type and length
      fields, and its value right after them, all within `buf`. */
  predicate ReadableAt(buf: seq<uint8>, pos: nat, a: Attribute)
  {
    WellFormed(a) && pos + 4 + |a.value| <= |buf| &&
    Be16(buf[pos], buf[pos + 1]) == a.attrType &&
    Be16(buf[pos + 2], buf[pos + 3]) == |a.value| &&
    buf[pos + 4..pos + 4 + |a.value|] == a.value
  }

  /** An attribute encoding found at `pos` reads back as that attribute. */
  lemma AttributeAt(buf: seq<uint8>, pos: nat, a: Attribute)
    requires WellFormed(a)
    requires pos + |EncodeAttribute(a)| <= |buf| && buf[pos..pos + |EncodeAttribute(a)|] == EncodeAttribute(a)
    ensures ReadableAt(buf, pos, a)
  {
    EncodingReadable(a);
    ReadableShift(buf, pos, EncodeAttribute(a), a);
  }

  lemma EncodingReadable(a: Attribute)
    requires WellFormed(a)
    ensures ReadableAt(EncodeAttribute(a), 0, a)
  {
    assert EncodeAttribute(a)[4..4 + |a.value|] == a.value;
  }

  /** What is readable at the start of `w` is readable wherever `w` is found. */
  lemma ReadableShift(buf: seq<uint8>, pos: nat, w: seq<uint8>, a: Attribute)
    requires pos + |w| <= |buf| && buf[pos..pos + |w|] == w && ReadableAt(w, 0, a)
    ensures ReadableAt(buf, pos, a)
  {
    assert buf[pos] == w[0] && buf[pos + 1] == w[1] && buf[pos + 2] == w[2] && buf[pos + 3] == w[3];
    forall i | 0 <= i < |a.value|
      ensures buf[pos + 4 + i] == a.value[i]
    {
      assert buf[pos + 4 + i] == w[4 + i] == w[4..4 + |a.value|][i];
    }
    assert buf[pos + 4..pos + 4 + |a.value|] == a.value;
  }

  /** Parsing a readable attribute: the address of an IPv4 address
      attribute, and otherwise a step over four bytes plus the padded value. */
  lemma ParseReadable(buf: seq<uint8>, pos: nat, a: Attribute)
    requires ReadableAt(buf, pos, a)
    ensures ParseAttribute(buf, pos)
         == if IsAddressType(a.attrType) && a.value[1] == FAMILY_IPV4
            then Found(DecodeAddressValue(a.attrType, a.value[..8]))
            else Skip(pos + 4 + Pad4(|a.value|))
  {
    if IsAddressType(a.attrType) {
      assert buf[pos + 4..pos + 12] == a.value[..8] && buf[pos + 5] == a.value[1] by {
        assert a.value[..8] == buf[pos + 4..pos + 4 + |a.value|][..8];
      }
    }
  }

  /** Where a list's encoding is found at `pos`, its first attribute is
      readable there and the encoding of the rest follows it. */
  lemma EncodedHead(buf: seq<uint8>, pos: nat, attrs: seq<Attribute>)
    requires AllWellFormed(attrs) && |attrs| > 0
    requires pos + |EncodeAttributes(attrs)| <= |buf|
    requires buf[pos..pos + |EncodeAttributes(attrs)|] == EncodeAttributes(attrs)
    ensures ReadableAt(buf, pos, attrs[0]) && AllWellFormed(attrs[1..])
    ensures var next := pos + 4 + Pad4(|attrs[0].value|);
            |EncodeAttributes(attrs)| == next - pos + |EncodeAttributes(attrs[1..])| &&
            next + |EncodeAttributes(attrs[1..])| <= |buf| &&
            buf[next..next + |EncodeAttributes(attrs[1..])|] == EncodeAttributes(attrs[1..])
  {
    var x, y := EncodeAttribute(attrs[0]), EncodeAttributes(attrs[1..]);
    assert EncodeAttributes(attrs) == x + y;
    HeadThenTail(buf, pos, attrs[0], x, y);
  }

  /** Where an attribute's encoding `x` is found at `pos` followed by `y`,
      the attribute is readable at `pos` and `y` starts after its padded value. */
  lemma HeadThenTail(buf: seq<uint8>, pos: nat, a: Attribute, x: seq<uint8>, y: seq<uint8>)
    requires WellFormed(a) && x == EncodeAttribute(a)
    requires pos + |x + y| <= |buf| && buf[pos..pos + |x + y|] == x + y
    ensures ReadableAt(buf, pos, a)
    ensures var next := pos + 4 + Pad4(|a.value|);
            |x + y| == next - pos + |y| && buf[next..next + |y|] == y
  {
    SliceSplit(buf, pos, x, y);
    AttributeAt(buf, pos, a);
  }

  /** Where `x + y` is found at `pos`, `x` is found at `pos` and `y` after it. */
  lemma SliceSplit(buf: seq<uint8>, pos: nat, x: seq<uint8>, y: seq<uint8>)
    requires pos + |x + y| <= |buf| && buf[pos..pos + |x + y|] == x + y
    ensures buf[pos..pos + |x|] == x && buf[pos + |x|..pos + |x| + |y|] == y
  {
    assert buf[pos..pos + |x|] == (x + y)[..|x|];
    assert buf[pos + |x|..pos + |x| + |y|] == (x + y)[|x|..];
  }

  /** The reference result of a non-empty list, one attribute at a time. */
  lemma ExpectedCons(attrs: seq<Attribute>)
    requires AllWellFormed(attrs) && |attrs| > 0
    ensures AllWellFormed(attrs[1..])
    ensures Expected(attrs)
         == if IsAddressType(attrs[0].attrType) && attrs[0].value[1] == FAMILY_IPV4
            then Ok(DecodeAddressValue(attrs[0].attrType, attrs[0].value[..8]))
            else Expected(attrs[1..])
  {
  }

  /** Bytes taken by the encodings of `attrs`. */
  function EncodedSize(attrs: seq<Attribute>): nat
  {
    if |attrs| == 0 then 0 else 4 + Pad4(|attrs[0].value|) + EncodedSize(attrs[1..])
  }

  /** `attrs` readable one after another from `pos` on, each one four bytes
      plus its padded value after the previous one. */
  predicate LaidOut(buf: seq<uint8>, pos: nat, attrs: seq<Attribute>)
    decreases |attrs|
  {
    |attrs| == 0 ||
    (ReadableAt(buf, pos, attrs[0]) && LaidOut(buf, pos + 4 + Pad4(|attrs[0].value|), attrs[1..]))
  }

  /** The encoding of a list, found at `pos`, lays its attributes out. */
  lemma EncodingLaidOut(buf: seq<uint8>, pos: nat, attrs: seq<Attribute>)
    requires AllWellFormed(attrs)
    requires pos + |EncodeAttributes(attrs)| <= |buf|
    requires buf[pos..pos + |EncodeAttributes(attrs)|] == EncodeAttributes(attrs)
    ensures LaidOut(buf, pos, attrs) && EncodedSize(attrs) == |EncodeAttributes(attrs)|
  {
    EncodedAttributesLaidOut(buf, pos, attrs);
    EncodedSizeMatches(attrs);
  }

  lemma {:induction false} EncodedAttributesLaidOut(buf: seq<uint8>, pos: nat, attrs: seq<Attribute>)
    requires AllWellFormed(attrs)
    requires pos + |EncodeAttributes(attrs)| <= |buf|
    requires buf[pos..pos + |EncodeAttributes(attrs)|] == EncodeAttributes(attrs)
    ensures LaidOut(buf, pos, attrs)
    decreases |attrs|
  {
    if |attrs| != 0 {
      EncodedHead(buf, pos, attrs);
      EncodedAttributesLaidOut(buf, pos + 4 + Pad4(|attrs[0].value|), attrs[1..]);
      LaidOutCons(buf, pos, attrs);
    }
  }

  /** EncodedSize counts exactly the bytes of the list's encoding. */
  lemma {:induction false} EncodedSizeMatches(attrs: seq<Attribute>)
    requires AllWellFormed(attrs)
    ensures EncodedSize(attrs) == |EncodeAttributes(attrs)|
    decreases |attrs|
  {
    if |attrs| != 0 {
      assert AllWellFormed(attrs[1..]);
      EncodedSizeMatches(attrs[1..]);
    }
  }

  lemma LaidOutCons(buf: seq<uint8>, pos: nat, attrs: seq<Attribute>)
    requires |attrs| > 0 && ReadableAt(buf, pos, attrs[0])
    requires LaidOut(buf, pos + 4 + Pad4(|attrs[0].value|), attrs[1..])
    ensures LaidOut(buf, pos, attrs)
    ensures EncodedSize(attrs) == 4 + Pad4(|attrs[0].value|) + EncodedSize(attrs[1..])
  {
  }

  /** One step of the scan when a whole attribute header fits before `end`. */
  lemma ScanStep(buf: seq<uint8>, pos: nat, end: nat)
    requires pos + 4 <= end
    ensures ParseAttribute(buf, pos).Found? ==> ScanAttributes(buf, pos, end) == Ok(ParseAttribute(buf, pos).endpoint)
    ensures ParseAttribute(buf, pos).Truncated? ==> ScanAttributes(buf, pos, end) == Err(TruncatedAttribute)
    ensures ParseAttribute(buf, pos).Skip? ==> ScanAttributes(buf, pos, end) == ScanAttributes(buf, ParseAttribute(buf, pos).next, end)
  {
  }

  /** A first attribute that is an IPv4 address attribute ends the scan
      with the reference result. */
  lemma ScanHeadFound(buf: seq<uint8>, pos: nat, attrs: seq<Attribute>)
    requires AllWellFormed(attrs) && |attrs| > 0 && ReadableAt(buf, pos, attrs[0])
    requires IsAddressType(attrs[0].attrType) && attrs[0].value[1] == FAMILY_IPV4
    ensures ScanAttributes(buf, pos, pos + EncodedSize(attrs)) == Expected(attrs)
  {
    var a, end := attrs[0], pos + EncodedSize(attrs);
    var e := DecodeAddressValue(a.attrType, a.value[..8]);
    assert ParseAttribute(buf, pos) == Found(e) by { ParseReadable(buf, pos, a); }
    assert pos + 4 <= end;
    assert ScanAttributes(buf, pos, end) == Ok(e) by { ScanStep(buf, pos, end); }
    assert Expected(attrs) == Ok(e) by { ExpectedCons(attrs); }
  }

  /** Any other first attribute is stepped over, leaving the rest. */
  lemma ScanHeadSkipped(buf: seq<uint8>, pos: nat, attrs: seq<Attribute>)
    requires AllWellFormed(attrs) && |attrs| > 0 && ReadableAt(buf, pos, attrs[0])
    requires !(IsAddressType(attrs[0].attrType) && attrs[0].value[1] == FAMILY_IPV4)
    ensures var after := pos + 4 + Pad4(|attrs[0].value|);
            ScanAttributes(buf, pos, pos + EncodedSize(attrs)) == ScanAttributes(buf, after, after + EncodedSize(attrs[1..]))
  {
    ParseReadable(buf, pos, attrs[0]);
    ScanStep(buf, pos, pos + EncodedSize(attrs));
  }

  /** An endpoint the scan returns comes from an IPv4 address attribute
      that starts at or after the cursor, inside the declared length, and
      lies within the received bytes. */
  lemma {:induction false} ScanFoundAt(buf: seq<uint8>, pos: nat, end: nat)
    requires ScanAttributes(buf, pos, end).Ok?
    ensures exists p :: pos <= p && p + 4 <= end && p + 12 <= |buf| &&
                        ParseAttribute(buf, p) == Found(ScanAttributes(buf, pos, end).value)
    decreases end - pos
  {
    var o := ParseAttribute(buf, pos);
    if o.Found? {
      assert pos + 4 <= end && pos + 12 <= |buf| && ParseAttribute(buf, pos) == Found(ScanAttributes(buf, pos, end).value);
    } else {
      ScanFoundAt(buf, o.next, end);
    }
  }

  /** Scanning attributes laid out from `pos` up to their end gives the
      reference result: each attribute is stepped over by four plus its
      padded length, and the first IPv4 address attribute wins. */
  lemma {:induction false} ScanLaidOut(buf: seq<uint8>, pos: nat, attrs: seq<Attribute>)
    requires AllWellFormed(attrs) && LaidOut(buf, pos, attrs)
    ensures ScanAttributes(buf, pos, pos + EncodedSize(attrs)) == Expected(attrs)
    decreases |attrs|
  {
    if |attrs| != 0 {
      if IsAddressType(attrs[0].attrType) && attrs[0].value[1] == FAMILY_IPV4 {
        ScanHeadFound(buf, pos, attrs);
      } else {
        ScanHeadSkipped(buf, pos, attrs);
        ExpectedCons(attrs);
        ScanLaidOut(buf, pos + 4 + Pad4(|attrs[0].value|), attrs[1..]);
      }
    }
  }

  /** Scanning the encoding of `attrs` at `pos`, whatever lies before it and
      after its declared end, gives the reference result. */
  lemma ScanEncoded(buf: seq<uint8>, pos: nat, attrs: seq<Attribute>)
    requires AllWellFormed(attrs)
    requires pos + |EncodeAttributes(attrs)| <= |buf|
    requires buf[pos..pos + |EncodeAttributes(attrs)|] == EncodeAttributes(attrs)
    ensures ScanAttributes(buf, pos, pos + |EncodeAttributes(attrs)|) == Expected(attrs)
  {
    EncodingLaidOut(buf, pos, attrs);
    ScanLaidOut(buf, pos, attrs);
  }

  /** Decoding a Binding Success Response built from well-formed attributes
      gives the first IPv4 address among them, whatever trails the message. */
  lemma DecodeEncodedResponse(tid: TransactionId, attrs: seq<Attribute>)
    requires AllWellFormed(attrs) && |EncodeAttributes(attrs)| < 0x1_0000
    ensures Decode(EncodeResponse(BINDING_SUCCESS_RESPONSE, tid, attrs)) == Expected(attrs)
  {
    var enc, buf := EncodeAttributes(attrs), EncodeResponse(BINDING_SUCCESS_RESPONSE, tid, attrs);
    SuccessScanned(buf, enc);
    ScanEncoded(buf, HEADER_SIZE, attrs);
  }

  /** A Binding Success Response whose header declares the length of the
      bytes `enc` after it is decoded by scanning `enc` from offset 20. */
  lemma SuccessScanned(buf: seq<uint8>, enc: seq<uint8>)
    requires |buf| == HEADER_SIZE + |enc| && buf[HEADER_SIZE..] == enc
    requires Be16(buf[0], buf[1]) == BINDING_SUCCESS_RESPONSE && Be16(buf[2], buf[3]) == |enc|
    ensures buf[HEADER_SIZE..HEADER_SIZE + |enc|] == enc
    ensures Decode(buf) == ScanAttributes(buf, HEADER_SIZE, HEADER_SIZE + |enc|)
  {
  }

  /** A response whose type is not Binding Success Response is rejected,
      whatever attributes it holds. */
  lemma WrongTypeRejected(msgType: uint16, tid: TransactionId, attrs: seq<Attribute>)
    requires AllWellFormed(attrs) && |EncodeAttributes(attrs)| < 0x1_0000
    requires msgType != BINDING_SUCCESS_RESPONSE
    ensures Decode(EncodeResponse(msgType, tid, attrs)) == Err(WrongMessageType)
  {
    HeaderRoundTrip(StunHeader(msgType, |EncodeAttributes(attrs)|, MAGIC_COOKIE, tid));
  }

  lemma {:induction false} FirstAddressWins(xs: seq<Attribute>, ys: seq<Attribute>)
    requires AllWellFormed(xs) && AllWellFormed(ys) && FirstAddress(xs).Some?
    ensures AllWellFormed(xs + ys) && FirstAddress(xs + ys) == FirstAddress(xs)
  {
    assert (xs + ys)[0] == xs[0];
    if !(IsAddressType(xs[0].attrType) && xs[0].value[1] == FAMILY_IPV4) {
      assert (xs + ys)[1..] == xs[1..] + ys;
      FirstAddressWins(xs[1..], ys);
    }
  }

  /** Once an IPv4 address attribute has been found, the attributes after
      it never change the decoded endpoint. */
  lemma LaterAttributesIgnored(tid: TransactionId, xs: seq<Attribute>, ys: seq<Attribute>)
    requires AllWellFormed(xs) && AllWellFormed(ys) && FirstAddress(xs).Some?
    requires |EncodeAttributes(xs)| + |EncodeAttributes(ys)| < 0x1_0000
    ensures AllWellFormed(xs + ys) && |EncodeAttributes(xs + ys)| < 0x1_0000
    ensures Decode(EncodeResponse(BINDING_SUCCESS_RESPONSE, tid, xs + ys)) == Ok(FirstAddress(xs).value)
  {
    EncodeAttributesAppend(xs, ys);
    FirstAddressWins(xs, ys);
    DecodeEncodedResponse(tid, xs + ys);
  }

  // ---------------------------------------------------------------------
  // Worked responses

  /** An eight-byte address value is well formed and encodes in 12 bytes. */
  lemma AddressAttributeSize(a: Attribute)
    requires IsAddressType(a.attrType) && |a.value| == 8
    ensures WellFormed(a) && |EncodeAttribute(a)| == 12
  {
  }

  lemma SingletonSize(a: Attribute)
    requires WellFormed(a)
    ensures AllWellFormed([a]) && |EncodeAttributes([a])| == |EncodeAttribute(a)|
  {
    assert [a][1..] == [];
  }

  lemma SingletonAddress(a: Attribute)
    requires IsAddressType(a.attrType) && |a.value| == 8 && a.value[1] == FAMILY_IPV4
    ensures AllWellFormed([a]) && FirstAddress([a]) == Some(DecodeAddressValue(a.attrType, a.value))
  {
    assert a.value[..8] == a.value;
  }

  /** An IPv4 address attribute holding `e`, alone in a list. */
  lemma AddressAttribute(a: Attribute, e: Endpoint)
    requires IsAddressType(a.attrType) && |a.value| == 8 && a.value[1] == FAMILY_IPV4
    requires DecodeAddressValue(a.attrType, a.value) == e
    ensures WellFormed(a) && |EncodeAttribute(a)| == 12
    ensures AllWellFormed([a]) && |EncodeAttributes([a])| == 12 && FirstAddress([a]) == Some(e)
  {
    AddressAttributeSize(a);
    SingletonSize(a);
    SingletonAddress(a);
  }

  /** XOR-MAPPED-ADDRESS for 203.0.113.5 port 54321 decodes to exactly that. */
  lemma XorMappedExample(tid: TransactionId)
    ensures var e := Endpoint(0xCB00_7105, 54321);
            var attrs := [Attribute(XOR_MAPPED_ADDRESS, XorMappedValue(e))];
            AllWellFormed(attrs) && |EncodeAttributes(attrs)| < 0x1_0000 &&
            Decode(EncodeResponse(BINDING_SUCCESS_RESPONSE, tid, attrs)) == Ok(e)
  {
    var e := Endpoint(0xCB00_7105, 54321);
    AddressValueRoundTrip(e);
    AddressAttribute(Attribute(XOR_MAPPED_ADDRESS, XorMappedValue(e)), e);
    DecodeEncodedResponse(tid, [Attribute(XOR_MAPPED_ADDRESS, XorMappedValue(e))]);
  }

  /** The same response byte for byte: a Binding Success Response declaring
      12 attribute bytes, then XOR-MAPPED-ADDRESS (00 20), length 8, family
      01, port F5 23 and address EA 12 D5 47. */
  function WorkedResponse(tid: TransactionId): (bs: seq<uint8>)
    ensures |bs| == 32
  {
    [0x01, 0x01, 0x00, 0x0C, 0x21, 0x12, 0xA4, 0x42] + tid +
    [0x00, 0x20, 0x00, 0x08, 0x00, 0x01, 0xF5, 0x23, 0xEA, 0x12, 0xD5, 0x47]
  }

  /** An XOR-MAPPED-ADDRESS value whose port and address fields hold `p`
      and `q` decodes to their XOR with the key and the cookie. */
  lemma XorValueDecodes(v: seq<uint8>, p: uint16, q: uint32)
    requires |v| == 8 && Be16(v[2], v[3]) == p && Be32(v[4], v[5], v[6], v[7]) == q
    ensures DecodeAddressValue(XOR_MAPPED_ADDRESS, v) == Endpoint(Xor32(q, MAGIC_COOKIE), Xor16(p, PORT_XOR_KEY))
  {
  }

  /** The address value the worked response carries, read as the decoder
      reads it. */
  lemma WorkedValue(v: seq<uint8>)
    requires |v| == 8 && Be16(v[2], v[3]) == 0xF523 && Be32(v[4], v[5], v[6], v[7]) == 0xEA12D547
    ensures DecodeAddressValue(XOR_MAPPED_ADDRESS, v) == Endpoint(0xCB00_7105, 54321)
  {
    assert PORT_XOR_KEY == 0x2112 && MAGIC_COOKIE == 0x2112A442;
    assert Xor16(0xF523, PORT_XOR_KEY) == 54321 by { XorPortExample(); }
    assert Xor32(0xEA12D547, MAGIC_COOKIE) == 0xCB00_7105 by { XorAddressExample(); }
    XorValueDecodes(v, 0xF523, 0xEA12D547);
  }

  /** The attribute of the worked response as the decoder parses it. */
  lemma WorkedAttribute(buf: seq<uint8>)
    requires |buf| == 32 && buf[20] == 0x00 && buf[21] == 0x20 && buf[22] == 0x00 && buf[23] == 0x08
    requires buf[24] == 0x00 && buf[25] == 0x01 && buf[26] == 0xF5 && buf[27] == 0x23
    requires buf[28] == 0xEA && buf[29] == 0x12 && buf[30] == 0xD5 && buf[31] == 0x47
    ensures ParseAttribute(buf, HEADER_SIZE) == Found(Endpoint(0xCB00_7105, 54321))
  {
    var v := buf[24..32];
    assert ParseAttribute(buf, HEADER_SIZE) == Found(DecodeAddressValue(XOR_MAPPED_ADDRESS, v));
    assert Be16(v[2], v[3]) == 0xF523 && Be32(v[4], v[5], v[6], v[7]) == 0xEA12D547;
    WorkedValue(v);
  }

  /** Decoding the worked response, byte for byte, gives 203.0.113.5 port
      54321 whatever its transaction id. */
  lemma WorkedResponseDecodes(tid: TransactionId)
    ensures Decode(WorkedResponse(tid)) == Ok(Endpoint(0xCB00_7105, 54321))
  {
    var buf := WorkedResponse(tid);
    assert buf[0] == 0x01 && buf[1] == 0x01 && buf[2] == 0x00 && buf[3] == 0x0C;
    assert Be16(buf[0], buf[1]) == BINDING_SUCCESS_RESPONSE && Be16(buf[2], buf[3]) == 12;
    assert buf[20] == 0x00 && buf[21] == 0x20 && buf[22] == 0x00 && buf[23] == 0x08;
    assert buf[24] == 0x00 && buf[25] == 0x01 && buf[26] == 0xF5 && buf[27] == 0x23;
    assert buf[28] == 0xEA && buf[29] == 0x12 && buf[30] == 0xD5 && buf[31] == 0x47;
    WorkedAttribute(buf);
  }

  /** Two attributes take the bytes of both encodings. */
  lemma PairSize(a: Attribute, b: Attribute)
    requires WellFormed(a) && WellFormed(b)
    ensures AllWellFormed([a, b])
    ensures |EncodeAttributes([a, b])| == |EncodeAttribute(a)| + |EncodeAttribute(b)|
  {
    assert [a, b][1..] == [b];
    assert EncodeAttributes([a, b]) == EncodeAttribute(a) + EncodeAttributes([b]);
    SingletonSize(b);
  }

  /** A non-address attribute in front of another one leaves the first
      address unchanged. */
  lemma PairFirstAddress(a: Attribute, b: Attribute)
    requires WellFormed(a) && !IsAddressType(a.attrType) && WellFormed(b)
    ensures AllWellFormed([a, b]) && AllWellFormed([b])
    ensures FirstAddress([a, b]) == FirstAddress([b])
  {
    assert [a, b][1..] == [b];
  }

  /** An attribute of five value bytes occupies 4 + 8 = 12 bytes, and an
      address attribute placed after it is still found. */
  lemma PaddingExample(tid: TransactionId, attrType: uint16, value: seq<uint8>, e: Endpoint)
    requires !IsAddressType(attrType) && |value| == 5
    ensures |EncodeAttribute(Attribute(attrType, value))| == 12
    ensures var attrs := [Attribute(attrType, value), Attribute(XOR_MAPPED_ADDRESS, XorMappedValue(e))];
            AllWellFormed(attrs) && |EncodeAttributes(attrs)| == 24 &&
            Decode(EncodeResponse(BINDING_SUCCESS_RESPONSE, tid, attrs)) == Ok(e)
  {
    var other := Attribute(attrType, value);
    var addr := Attribute(XOR_MAPPED_ADDRESS, XorMappedValue(e));
    AddressValueRoundTrip(e);
    PaddedPair(other, addr, e);
    DecodeEncodedResponse(tid, [other, addr]);
  }

  lemma PaddedPair(other: Attribute, addr: Attribute, e: Endpoint)
    requires !IsAddressType(other.attrType) && |other.value| == 5
    requires IsAddressType(addr.attrType) && |addr.value| == 8 && addr.value[1] == FAMILY_IPV4
    requires DecodeAddressValue(addr.attrType, addr.value) == e
    ensures |EncodeAttribute(other)| == 12
    ensures AllWellFormed([other, addr]) && |EncodeAttributes([other, addr])| == 24
    ensures Expected([other, addr]) == Ok(e)
  {
    AddressAttribute(addr, e);
    PairSize(other, addr);
    PairFirstAddress(other, addr);
  }

  // ---------------------------------------------------------------------
  // What the decoder does not look at

  /** Parsing an attribute reads no byte before it. */
  lemma ParseReadsFromPos(b1: seq<uint8>, b2: seq<uint8>, pos: nat)
    requires |b1| == |b2| && pos <= |b1| && b1[pos..] == b2[pos..]
    ensures ParseAttribute(b1, pos) == ParseAttribute(b2, pos)
  {
    if pos + 4 <= |b1| {
      assert forall i :: pos <= i < |b1| ==> b1[i] == b1[pos..][i - pos] == b2[i];
      if pos + 12 <= |b1| {
        assert b1[pos + 4..pos + 12] == b2[pos + 4..pos + 12];
      }
    }
  }

  lemma {:induction false} ScanReadsFromPos(b1: seq<uint8>, b2: seq<uint8>, pos: nat, end: nat)
    requires |b1| == |b2| && pos <= |b1| && b1[pos..] == b2[pos..]
    ensures ScanAttributes(b1, pos, end) == ScanAttributes(b2, pos, end)
    decreases end - pos
  {
    if pos + 4 <= end {
      ParseReadsFromPos(b1, b2, pos);
      match ParseAttribute(b1, pos)
      case Skip(next) =>
        if next <= |b1| {
          assert b1[next..] == b1[pos..][next - pos..];
          assert b2[next..] == b2[pos..][next - pos..];
          ScanReadsFromPos(b1, b2, next, end);
        }
      case _ =>
    }
  }

  /** The transaction id of a response is never compared with the request's:
      replacing it leaves the decoding unchanged. */
  lemma DecodeIgnoresTransactionId(buf: seq<uint8>, tid: TransactionId)
    requires |buf| >= HEADER_SIZE
    ensures Decode(buf[..8] + tid + buf[HEADER_SIZE..]) == Decode(buf)
  {
    var other := buf[..8] + tid + buf[HEADER_SIZE..];
    assert other[..8] == buf[..8];
    assert other[HEADER_SIZE..] == buf[HEADER_SIZE..];
    ScanReadsFromPos(other, buf, HEADER_SIZE, HEADER_SIZE + Be16(buf[2], buf[3]));
  }

  /** Appending bytes never changes how a wholly received attribute parses. */
  lemma ParseExtend(buf: seq<uint8>, tail: seq<uint8>, pos: nat)
    requires ParseAttribute(buf, pos) != Truncated
    ensures ParseAttribute(buf + tail, pos) == ParseAttribute(buf, pos)
  {
    var ext := buf + tail;
    assert forall i :: 0 <= i < |buf| ==> ext[i] == buf[i];
    if pos + 12 <= |buf| {
      assert ext[pos + 4..pos + 12] == buf[pos + 4..pos + 12];
    }
  }

  lemma {:induction false} ScanExtend(buf: seq<uint8>, tail: seq<uint8>, pos: nat, end: nat)
    requires ScanAttributes(buf, pos, end) != Err(TruncatedAttribute)
    ensures ScanAttributes(buf + tail, pos, end) == ScanAttributes(buf, pos, end)
    decreases end - pos
  {
    if pos + 4 <= end {
      ParseExtend(buf, tail, pos);
      match ParseAttribute(buf, pos)
      case Skip(next) => ScanExtend(buf, tail, next, end);
      case _ =>
    }
  }

  /** A datagram that decodes without running out of bytes decodes the same
      when more bytes follow it. */
  lemma DecodeExtend(buf: seq<uint8>, tail: seq<uint8>)
    requires |buf| >= HEADER_SIZE && Decode(buf) != Err(TruncatedAttribute)
    ensures Decode(buf + tail) == Decode(buf)
  {
    var ext := buf + tail;
    assert ext[..4] == buf[..4];
    if Be16(buf[0], buf[1]) == BINDING_SUCCESS_RESPONSE {
      ScanExtend(buf, tail, HEADER_SIZE, HEADER_SIZE + Be16(buf[2], buf[3]));
    }
  }
}
