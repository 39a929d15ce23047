# STUN Binding codec of KillerNAT

KillerNAT discovers its external UDP endpoint with one STUN Binding
exchange before it punches a hole to a peer. `get_external_and_keepalive`
in main.cpp does this in two steps:

- it sends a 20-byte Binding Request: type 0x0001, length 0, the magic
  cookie 0x2112A442 and a 12-byte transaction id;
- it parses the datagram that comes back. It checks the header, walks the
  attributes and takes the endpoint from the first IPv4 MAPPED-ADDRESS or
  XOR-MAPPED-ADDRESS. The XOR variant is undone with the cookie, as
  section 15.2 of RFC 5389 describes.

This project models that codec in Dafny. It is split into four modules:

- `Bytes` (bytes.dfy) covers the 8, 16 and 32-bit values, network byte
  order, padding to four bytes and bitwise XOR on integers.
- `StunCodec` (stun_codec.dfy) covers the header and its wire image, the
  request, and the decoder. The decoder is a function, `Decode`, and the
  imperative loop `DecodeBindingResponse` is proved equal to it. It also
  holds the triple the C++ function returns.
  - The decoder is the corrected one: see "## Findings".
  - The source reads the 32-bit address with a raw load, then applies
    `htonl(ip)` and `htonl(STUN_MAGIC_COOKIE)`. That is the same as
    reading it big-endian and XOR-ing with the cookie, which is what the
    model does.
  - XOR is a recursive function on naturals, one bit per level. The 32-bit
    XOR is computed on its two 16-bit halves, since XOR acts on every bit
    on its own.
- `StunResponses` (stun_responses.dfy) covers:
  - responses built from attribute lists, with a reference meaning: the
    first IPv4 address attribute;
  - the proofs that the decoder agrees with that meaning;
  - the worked examples (the XOR round trip and 5-byte padding);
  - what the decoder ignores: the transaction id and bytes after the
    message.
- `StunAsWritten` (stun_as_written.dfy) models the attribute loop exactly
  as main.cpp:89-122 writes it, as a step function over a loop state.
  - It reads from the zero-filled 1024-byte receive buffer.
  - A `continue` does not advance.
  - The countdown is decremented by the unpadded length, modulo 2^16.
  - Its lemmas exhibit the three defects listed under "## Findings".

The socket, the resolver, the random transaction id and the local port
are outside the model: the transaction id, the received datagram and the
local port are parameters.

## Model

| member | source | states |
|---|---|---|
| Bytes.Be16Bytes | main.cpp:79-80 | the two bytes `htons` stores read back with `ntohs` as the same 16-bit value |
| Bytes.Be32Bytes | main.cpp:81 | the four bytes `htonl` stores read back as the same 32-bit value |
| Bytes.Be16BytesOfBe16 | main.cpp:98 | reading two bytes as a 16-bit value and writing it back gives the same two bytes |
| Bytes.Be16 | main.cpp:96-111 | `ntohs`: the first byte is the high-order one, so the value lies between 256 times it and 255 more |
| Bytes.Be32 | main.cpp:114-116 | `ntohl`: the first two bytes, read as a 16-bit value, are the high-order half of the 32-bit value |
| Bytes.Pad4 | main.cpp:120 | `(alen + 3) & ~3` is a multiple of four, at least `alen` and less than `alen + 4` |
| Bytes.XorInvolution | main.cpp:112-115 | XOR-ing twice with the same key gives back the original value |
| Bytes.XorBound | main.cpp:112-115 | the XOR of two n-bit values is an n-bit value |
| Bytes.Xor16Involution | main.cpp:112 | the port XOR-ed twice with `STUN_MAGIC_COOKIE >> 16` (or any 16-bit key) is the port again |
| Bytes.Xor32Involution | main.cpp:115 | the address XOR-ed twice with the cookie (or any 32-bit key) is the address again |
| Bytes.XorPortExample | main.cpp:112 | 0xF523 XOR 0x2112 is 54321 (0xD431), bit by bit |
| Bytes.XorAddressExample | main.cpp:114-115 | 0xEA12D547 XOR the cookie 0x2112A442 is 0xCB007105, that is 203.0.113.5 |
| StunCodec.SerializeHeader | main.cpp:20-25 | the header's wire image is 20 bytes, with the transaction id in its last 12 |
| StunCodec.ParseHeader | main.cpp:93-98 | a header is read exactly when at least 20 bytes were received |
| StunCodec.EncodeBindingRequest | main.cpp:78-85 | the request is 20 bytes: `00 01 00 00 21 12 A4 42` followed by the transaction id |
| StunCodec.RequestPrefix | main.cpp:78-81 | a header with type 0x0001, length 0 and the cookie begins with `00 01 00 00 21 12 A4 42` |
| StunCodec.RequestConstants | main.cpp:17-18 | the Binding Request type and the magic cookie in network order |
| StunCodec.CookieBytes | main.cpp:18 | the magic cookie in network order is `21 12 A4 42` |
| StunCodec.DecodeAddressValue | main.cpp:111-116 | a MAPPED-ADDRESS value gives the port from bytes 2-3 and the address from bytes 4-7, both big-endian |
| StunCodec.XorValueFields | main.cpp:111-116 | the endpoint decoded from an XOR-MAPPED-ADDRESS value, XOR-ed again with `cookie >> 16` and the cookie, gives back the port and address fields on the wire |
| StunCodec.ParseAttribute | main.cpp:105-120 | an address is taken only from an address type whose family byte is 0x01 and whose 12 bytes were received; any other attribute is skipped only when its header and declared value were received, to the next attribute 4 plus its padded length on, a multiple of four bytes away |
| StunCodec.ScanAttributes | main.cpp:104-122 | the scan succeeds only when a whole attribute header fits before the declared end at the cursor and 12 bytes were received from it |
| StunCodec.Decode | main.cpp:93-96 | fewer than 20 bytes fail with TooShort, a type other than 0x0101 fails with WrongMessageType, and success needs at least 32 bytes |
| StunCodec.DecodeBindingResponse | main.cpp:93-124 | the cursor-and-countdown loop returns exactly what `Decode` defines, for every datagram |
| StunCodec.Discovered | main.cpp:124-128 | the external address is empty exactly when decoding fails, and then both ports are 0; otherwise it returns the decoded endpoint and the local port |
| StunCodec.GetExternalAndKeepalive | main.cpp:78-128 | sends the Binding Request for the transaction id and returns the triple `Discovered` gives for the received bytes |
| StunResponses.EncodeAttribute | main.cpp:120 | an attribute occupies 4 bytes plus its length rounded up to four |
| StunResponses.EncodeResponse | main.cpp:96-99 | a response is the 20-byte header whose type field is the message type and whose length field counts exactly the attribute bytes that follow it |
| StunResponses.HeaderRoundTrip | main.cpp:95-98 | parsing a serialized header gives back every field |
| StunResponses.HeaderReencode | main.cpp:95-98 | serializing the header parsed from any 20 bytes gives back those bytes |
| StunResponses.RequestFields | main.cpp:78-96 | the request parses as type 0x0001, length 0, the cookie and the transaction id, and is rejected as a response |
| StunResponses.AddressValueRoundTrip | main.cpp:109-116 | both values a server writes for an endpoint are 8 bytes with the IPv4 family. Their MAPPED-ADDRESS decoding is taken unchanged, and the XOR-MAPPED-ADDRESS one is un-XOR-ed; both give the endpoint back |
| StunResponses.EncodeAttributesAppend | main.cpp:120 | the encoding of two attribute lists one after the other is the two encodings concatenated |
| StunResponses.AttributeAt | main.cpp:105-107 | an attribute's encoding found at a cursor reads back there as its type, its length and its value |
| StunResponses.ParseReadable | main.cpp:105-120 | a readable IPv4 address attribute yields its endpoint; any other readable attribute is stepped over by 4 plus its padded length |
| StunResponses.EncodingLaidOut | main.cpp:120 | in an encoded list every attribute is readable 4 plus the padded length after the previous one, and the list occupies the sum of those sizes |
| StunResponses.ScanFoundAt | main.cpp:104-117 | a successful scan returns the endpoint of an IPv4 address attribute that starts between the cursor and the declared end and whose 12 bytes were received |
| StunResponses.ScanHeadFound | main.cpp:109-117 | a first attribute that is an IPv4 address attribute ends the scan with the first address of the list |
| StunResponses.ScanHeadSkipped | main.cpp:120-121 | any other first attribute is stepped over and the scan goes on with the rest of the list |
| StunResponses.ScanLaidOut | main.cpp:104-122 | scanning attributes laid out up to their end gives the first IPv4 address among them, or NoAddressAttribute |
| StunResponses.ScanEncoded | main.cpp:104-122 | scanning an encoded attribute list gives the first IPv4 address in it, whatever surrounds it |
| StunResponses.DecodeEncodedResponse | main.cpp:93-124 | decoding a Binding Success Response built from any well-formed attributes gives the first IPv4 address among them |
| StunResponses.WrongTypeRejected | main.cpp:96 | a response of any other type is rejected whatever its attributes |
| StunResponses.FirstAddressWins | main.cpp:117 | attributes appended after a list that holds an IPv4 address do not change its first address |
| StunResponses.LaterAttributesIgnored | main.cpp:117 | once an IPv4 address attribute occurs, attributes after it never change the decoded endpoint |
| StunResponses.AddressAttribute | main.cpp:109-117 | a lone 8-byte IPv4 address attribute encodes in 12 bytes and is the first address of its list |
| StunResponses.XorMappedExample | main.cpp:111-116 | a response with the XOR-MAPPED-ADDRESS for 203.0.113.5:54321 decodes to exactly that endpoint |
| StunResponses.PaddingExample | main.cpp:120 | a 5-byte attribute takes 12 bytes, and an XOR-MAPPED-ADDRESS placed after it is still found |
| StunResponses.WorkedResponseDecodes | main.cpp:93-117 | the datagram `01 01 00 0C 21 12 A4 42`, any 12-byte transaction id, `00 20 00 08 00 01 F5 23 EA 12 D5 47` decodes to 203.0.113.5 port 54321 |
| StunResponses.PairFirstAddress | main.cpp:109-120 | a non-address attribute in front of another leaves the first address unchanged |
| StunResponses.ParseReadsFromPos | main.cpp:99-107 | parsing an attribute reads no byte before it |
| StunResponses.ScanReadsFromPos | main.cpp:99-122 | the scan reads no byte before its cursor |
| StunResponses.DecodeIgnoresTransactionId | main.cpp:95-98 | replacing a response's transaction id leaves its decoding unchanged, because the id is never compared |
| StunResponses.ParseExtend | main.cpp:89-91 | bytes received after a wholly received attribute do not change how it parses |
| StunResponses.ScanExtend | main.cpp:89-122 | bytes received after the attributes do not change a scan that did not run out of bytes |
| StunResponses.DecodeExtend | main.cpp:89-124 | a datagram that decodes without running out of bytes decodes the same with trailing bytes |
| StunAsWritten.StepAsWritten | main.cpp:104-121 | one pass of the loop as written: a zero countdown exits and the cursor never moves back. The state stays the same exactly when the attribute is an address attribute whose family is not IPv4 |
| StunAsWritten.AddressStepAsWritten | main.cpp:109-117 | the address branch leaves the state unchanged exactly when the family byte is not 0x01, and otherwise ends the loop |
| StunAsWritten.IterateAsWritten | main.cpp:104 | repeated passes of the `while` loop: a loop that has ended stays ended, and a running cursor never moves back |
| StunAsWritten.StartAsWritten | main.cpp:98-99 | the loop starts with the cursor at offset 20 and the countdown at the header's length field |
| StunAsWritten.StallForever | main.cpp:104-110 | a pass that changes nothing repeats for ever |
| StunAsWritten.StallStep | main.cpp:109-110 | a non-IPv4 address attribute under the cursor leaves the state unchanged |
| StunAsWritten.ReadableInBuffer | main.cpp:105-114 | the loop reads an encoded address attribute's type, length, family and 8 value bytes from the receive buffer |
| StunAsWritten.FirstAttributeInBuffer | main.cpp:95-110 | in an encoded response the loop sees the header's type and length and the first attribute's type and family |
| StunAsWritten.NonIPv4StallsAsWritten | main.cpp:109-110 | a response whose first attribute is a non-IPv4 address attribute keeps the loop in its initial state for any number of passes |
| StunAsWritten.NonIPv4SkippedCorrected | main.cpp:109-110 | the corrected decoder steps over such an attribute and answers from the attributes after it |
| StunAsWritten.NonIPv4Example | main.cpp:109-117 | an IPv6 XOR-MAPPED-ADDRESS then a MAPPED-ADDRESS: the loop as written never ends, while the corrected decoder returns the MAPPED-ADDRESS endpoint |
| StunAsWritten.MessageLayout | main.cpp:95-99 | a header declaring any length, followed by encoded attributes, has the attributes laid out from offset 20 |
| StunAsWritten.ResponseLayout | main.cpp:95-99 | an encoded response has its type, its length and its attributes laid out from offset 20 |
| StunAsWritten.SkipStep | main.cpp:120-121 | as written, a non-address attribute moves the cursor by 4 plus its padded length, but the countdown only drops by 4 plus its unpadded length, modulo 2^16 |
| StunAsWritten.FoundStep | main.cpp:109-117 | as written, an IPv4 address attribute under the cursor ends the loop with its endpoint |
| StunAsWritten.FoundPass | main.cpp:109-117 | as written, one pass over a readable 8-byte IPv4 address attribute ends the loop with the endpoint its value decodes to |
| StunAsWritten.BeyondEndLayout | main.cpp:95-107 | the message declaring 12 bytes holds the 5-byte attribute at offset 20 and the address attribute at offset 32 |
| StunAsWritten.FiveByteFirstPass | main.cpp:98-121 | as written, a header declaring 12 bytes and a 5-byte first attribute leave the cursor at 32 and the countdown at 3 after one pass |
| StunAsWritten.BeyondEndFirstPass | main.cpp:120-121 | as written, stepping over the 5-byte attribute leaves the countdown at 3 instead of 0 |
| StunAsWritten.BeyondEndAsWritten | main.cpp:104-121 | as written, the loop reads past the declared end and reports the address attribute found there |
| StunAsWritten.BeyondEndCorrected | main.cpp:120-121 | the corrected decoder stops at the declared end and finds no address attribute |
| StunAsWritten.SkippedOnly | main.cpp:104-124 | a single non-address attribute that fills the declared length decodes to NoAddressAttribute |
| StunAsWritten.FiveByteOnly | main.cpp:104-124 | a header declaring 12 bytes around one 5-byte non-address attribute decodes to NoAddressAttribute |
| StunAsWritten.TruncatedAsWritten | main.cpp:89-91 | as written, a 24-byte datagram whose attribute claims a value past the 1024-byte buffer makes the next pass read outside it |
| StunAsWritten.TruncatedCorrected | main.cpp:89-91 | the corrected decoder rejects a datagram whose attribute value was not received with TruncatedAttribute |
| StunAsWritten.AlignedSkipStep | main.cpp:120-121 | as written, an attribute whose length is a multiple of four moves the cursor and lowers the countdown by the same 4 plus its length |
| StunAsWritten.LaidOutAsWritten | main.cpp:104-122 | as written, attributes laid out from the cursor with the countdown at their total size end the loop within one pass per attribute plus one, with the first IPv4 address or with no address, as long as no value length is unaligned and every address attribute is IPv4 |
| StunAsWritten.DecodeAgreesAsWritten | main.cpp:93-122 | for every response encoded from such attributes that fits the 1024-byte buffer, the loop as written ends with exactly what the corrected decoder returns |
| StunAsWritten.WorkedResponseAsWritten | main.cpp:98-117 | the loop as written also takes 203.0.113.5 port 54321 from that datagram in its first pass |

## Left out

- The socket, the resolver, `send_to` and `receive_from` (main.cpp:68-76, 87-91) are left out. The transaction id, the received datagram and the local port are parameters of `StunCodec.GetExternalAndKeepalive`. `GetExternalAndKeepalive` requires the datagram to fit the 1024-byte receive buffer (`RECV_BUFFER_SIZE`), as `receive_from` guarantees. `Decode` itself is defined on datagrams of any length.
- `generate_transaction_id` (main.cpp:55-61) is left out because it uses `rand()`; the transaction id is a parameter.
- The dotted-quad text of the external address, the console output (main.cpp:116, 126) and the returned socket are left out. The address is kept as a 32-bit value, and the empty string of line 124 is `None`.
- The clipboard, the stdin reader thread, the 5-second keep-alive loop (main.cpp:177-205) and the hole-punch phase of `main` (main.cpp:207-253) are outside this codec.
- StunCodec.Decode: the transaction id of the response is not compared with the request's, as in main.cpp:95-98. A stricter design would reject a mismatch; the model follows the code and states the omission in `DecodeIgnoresTransactionId`.
- StunCodec.Decode: the corrected loop runs while a whole 4-byte attribute header fits in the remaining declared length. The code's `msg_len > 0` also runs with 1 to 3 bytes left, which a well-formed message never leaves.
- StunCodec.Decode: an address attribute declaring fewer than 8 value bytes is read as 8 bytes, as in main.cpp:111-114, bounded only by the received bytes.
- StunCodec.Decode: an address attribute of a family other than IPv4 is stepped over like any other attribute. Rejecting the whole response instead is a possible design; the model takes the fix that keeps the loop going.
- Bytes.Xor32: its agreement with the 32-bit XOR of the whole value is not proved; it is defined through the two 16-bit halves, and its involution is what the decoder uses.
- StunAsWritten.LaidOutAsWritten: states agreement only for attribute lists that avoid the first two findings (value lengths that are multiples of four, no non-IPv4 address attribute); outside them the findings show the two loops differ.
- StunAsWritten.StepAsWritten: a read past the 1024-byte buffer, which is undefined behaviour in C++, is modelled as the final state OutOfBounds.

## Findings

| source | as written | input that shows it | evidently intended | confidence | as-written member | corrected member |
|---|---|---|---|---|---|---|
| main.cpp:109-110 | `continue` on an address attribute whose family is not IPv4 advances neither the cursor nor the countdown, so the loop repeats the same attribute for ever | a Binding Success Response whose first attribute is an IPv6 XOR-MAPPED-ADDRESS (family 0x02, 20 value bytes) and whose second is a MAPPED-ADDRESS | step over the attribute and go on with the next one | high (not executed) | StunAsWritten.NonIPv4StallsAsWritten | StunAsWritten.NonIPv4SkippedCorrected |
| main.cpp:120-121 | the cursor moves by `4 + ((alen + 3) & ~3)` but `msg_len` drops by `4 + alen`. After an attribute whose length is not a multiple of four the countdown stays positive, or wraps around, and the loop reads past the declared end | a response declaring 12 attribute bytes: one 5-byte attribute, then an XOR-MAPPED-ADDRESS that lies beyond the declared end and is still taken | decrement the countdown by the same padded step as the cursor | high (not executed) | StunAsWritten.BeyondEndAsWritten | StunAsWritten.BeyondEndCorrected |
| main.cpp:89-91 | `len` is only compared with the header size. Attribute reads are checked neither against the received length nor against the 1024-byte buffer, so an attribute length from the wire moves the cursor outside the buffer | a 24-byte datagram declaring 2008 attribute bytes, whose one attribute claims 2000 value bytes | reject an attribute that does not lie wholly within the received bytes | high (not executed) | StunAsWritten.TruncatedAsWritten | StunAsWritten.TruncatedCorrected |

In each row, the corrected member proves its property about `StunCodec.Decode`. That decoder is the one `StunCodec.DecodeBindingResponse` implements and the rest of the model uses.
