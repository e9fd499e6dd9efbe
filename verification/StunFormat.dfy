/** The attributes of a STUN message, how each is written, and how a list of them is read
    back: sections 6 and 15 of RFC 5389. */
module StunFormat {
  import opened Basics
  import opened Bytes

  const HEADER_SIZE := 20
  const ATTRIBUTE_HEADER_SIZE := 4
  const MAGIC_COOKIE: U32 := 0x2112A442
  const MESSAGE_INTEGRITY_SIZE := 20

  const ATTR_USERNAME: U16 := 0x0006
  const ATTR_MESSAGE_INTEGRITY: U16 := 0x0008
  const ATTR_PRIORITY: U16 := 0x0024
  const ATTR_FINGERPRINT: U16 := 0x8028

  type Ip4 = ip: seq<Byte> | |ip| == 4 witness [0, 0, 0, 0]
  type Ip6 = ip: seq<Byte> | |ip| == 16 witness [0, 0, 0, 0, 0, 0, 0, 0, 0, 0, 0, 0, 0, 0, 0, 0]

  datatype SocketAddress = Unspecified | V4(port: U16, ip4: Ip4) | V6(port: U16, ip6: Ip6)

  datatype Attribute =
    | UInt32Attribute(typ: U16, value: U32)
    | UInt64Attribute(typ: U16, bits: U64)
    | ByteString(typ: U16, bytes: seq<Byte>)
    | ErrorCode(typ: U16, errorClass: Byte, number: Byte, reason: seq<Byte>)
    | Address(typ: U16, address: SocketAddress)
    | XorAddress(typ: U16, address: SocketAddress)

  // ---------- Writing ----------

  /** StunAttribute::length, a 16-bit field. */
  function Length(a: Attribute): U16 {
    match a
    case UInt32Attribute(_, _) => 4
    case UInt64Attribute(_, _) => 8
    case ByteString(_, bytes) => |bytes| % 0x1_0000
    case ErrorCode(_, _, _, reason) => (4 + |reason|) % 0x1_0000
    case Address(_, address) => AddressLength(address)
    case XorAddress(_, address) => AddressLength(address)
  }

  function AddressLength(address: SocketAddress): U16 {
    match address
    case Unspecified => 0
    case V4(_, _) => 8
    case V6(_, _) => 20
  }

  // How many zero bytes follow a value of this length.
  function Pad(length: nat): (pad: nat)
    ensures pad < 4
  {
    if length % 4 > 0 then 4 - length % 4 else 0
  }

  function Padding(length: nat): (zeros: seq<Byte>)
    ensures |zeros| == Pad(length)
  {
    seq(Pad(length), _ => 0)
  }

  // The cookie's bytes, with which an IPv4 address is xored in network order.
  function XorIp(ip: Ip4): Ip4 {
    [Xor8(ip[0], 0x21), Xor8(ip[1], 0x12), Xor8(ip[2], 0xA4), Xor8(ip[3], 0x42)]
  }

  /** What an attribute's write appends, if it succeeds.  An address of unknown family cannot
      be written, nor can an IPv6 address in its xored form. */
  function Value(a: Attribute): Option<seq<Byte>> {
    match a
    case UInt32Attribute(_, value) => Some(Put32(value))
    case UInt64Attribute(_, bits) => Some(Put64(bits))
    case ByteString(_, bytes) => Some(bytes[..Length(a)] + Padding(Length(a)))
    case ErrorCode(_, errorClass, number, reason) =>
      Some(Put32(errorClass as int * 0x100 + number as int) + reason + Padding(Length(a)))
    case Address(_, V4(port, ip)) => Some([0, 1] + Put16(port) + ip)
    case Address(_, V6(port, ip)) => Some([0, 2] + Put16(port) + ip)
    case XorAddress(_, V4(port, ip)) => Some([0, 1] + Put16(Xor16(port, 0x2112)) + XorIp(ip))
    case _ => None
  }

  method WriteValue(a: Attribute, buf: ByteBufferWriter) returns (ok: bool)
    modifies buf
    ensures ok == Value(a).Some?
    ensures ok ==> buf.bytes == old(buf.bytes) + Value(a).value
  {
    ok := true;
    match a {
      case UInt32Attribute(_, value) =>
        buf.WriteUInt32(value);
      case UInt64Attribute(_, bits) =>
        buf.WriteUInt64(bits);
      case ByteString(_, bytes) =>
        buf.WriteBytes(bytes[..Length(a)]);
        buf.WriteBytes(Padding(Length(a)));
      case ErrorCode(_, errorClass, number, reason) =>
        buf.WriteUInt32(errorClass as int * 0x100 + number as int);
        buf.WriteBytes(reason);
        buf.WriteBytes(Padding(Length(a)));
      case Address(_, address) =>
        if address.Unspecified? {
          return false;
        }
        buf.WriteUInt8(0);
        buf.WriteUInt8(if address.V4? then 1 else 2);
        buf.WriteUInt16(address.port);
        buf.WriteBytes(if address.V4? then address.ip4 else address.ip6);
      case XorAddress(_, address) =>
        if !address.V4? {
          return false;
        }
        buf.WriteUInt8(0);
        buf.WriteUInt8(1);
        buf.WriteUInt16(Xor16(address.port, 0x2112));
        buf.WriteBytes(XorIp(address.ip4));
    }
  }

  /** XOR-MAPPED-ADDRESS, section 15.2 of RFC 5389: undoing the exclusive or with the cookie
      gives the port and address back. */
  lemma XorAddressReadsBack(port: U16, ip: Ip4, typ: U16)
    ensures var b := Value(XorAddress(typ, V4(port, ip))).value;
            |b| == 8 && b[1] == 1 && Xor16(Get16(b[2..]), 0x2112) == port && XorIp(b[4..]) == ip
  {
    var b := Value(XorAddress(typ, V4(port, ip))).value;
    assert b[2..] == Put16(Xor16(port, 0x2112)) + XorIp(ip);
    assert b[4..] == XorIp(ip);
    GetPut16(Xor16(port, 0x2112), XorIp(ip));
    XorInverse(port, 0x2112);
    XorInverse(ip[0], 0x21);
    XorInverse(ip[1], 0x12);
    XorInverse(ip[2], 0xA4);
    XorInverse(ip[3], 0x42);
  }

  /** One attribute as StunMessage::write puts it. */
  function Encode(a: Attribute): Option<seq<Byte>> {
    if Value(a).None? then None else Some(Put16(a.typ) + Put16(Length(a)) + Value(a).value)
  }

  function EncodeAll(attrs: seq<Attribute>): Option<seq<Byte>> {
    if attrs == [] then Some([])
    else if Encode(attrs[0]).None? || EncodeAll(attrs[1..]).None? then None
    else Some(Encode(attrs[0]).value + EncodeAll(attrs[1..]).value)
  }

  lemma {:induction false} EncodeAppend(attrs: seq<Attribute>, a: Attribute)
    ensures EncodeAll(attrs + [a]) ==
            if EncodeAll(attrs).Some? && Encode(a).Some? then Some(EncodeAll(attrs).value + Encode(a).value) else None
  {
    if attrs == [] {
      assert attrs + [a] == [a];
      assert EncodeAll([a][1..]) == Some([]);
      if Encode(a).Some? {
        assert Encode(a).value + [] == Encode(a).value == [] + Encode(a).value;
      }
    } else {
      assert (attrs + [a])[1..] == attrs[1..] + [a];
      EncodeAppend(attrs[1..], a);
      if EncodeAll(attrs).Some? && Encode(a).Some? {
        var x, y, z := Encode(attrs[0]).value, EncodeAll(attrs[1..]).value, Encode(a).value;
        assert x + (y + z) == (x + y) + z;
      }
    }
  }

  // The value is not longer than the length field can say.
  predicate Fits(a: Attribute) {
    match a
    case ByteString(_, bytes) => |bytes| < 0x1_0000
    case ErrorCode(_, _, _, reason) => 4 + |reason| < 0x1_0000
    case _ => true
  }

  // What add_attribute adds to the length field of the message.
  function Size(a: Attribute): nat {
    ATTRIBUTE_HEADER_SIZE + Length(a) as int + Pad(Length(a))
  }

  lemma SizeAligned(a: Attribute)
    ensures Size(a) % 4 == 0
  {
  }

  lemma EncodedSize(a: Attribute)
    requires Fits(a) && Value(a).Some?
    ensures |Value(a).value| == Length(a) as int + Pad(Length(a)) && |Encode(a).value| == Size(a)
  {
  }

  // ---------- Reading ----------

  datatype ValueType = UnknownValue | UInt32Value | ByteStringValue

  function GetAttributeValueType(typ: U16): ValueType {
    if typ == ATTR_USERNAME || typ == ATTR_MESSAGE_INTEGRITY then ByteStringValue
    else if typ == ATTR_PRIORITY then UInt32Value
    else UnknownValue
  }

  // consume_padding, which does nothing if the padding is missing.
  function SkipPadding(b: seq<Byte>, length: nat): (rest: seq<Byte>)
    ensures |rest| <= |b|
  {
    if Pad(length) <= |b| then b[Pad(length)..] else b
  }

  /** Reading one attribute's value: the attribute, unless its type is unknown, and the bytes
      that follow.  The length field of a 32-bit attribute is not looked at; the padded length
      of an unknown attribute is computed in 16 bits. */
  function ParseValue(typ: U16, length: U16, b: seq<Byte>): (r: Option<(seq<Attribute>, seq<Byte>)>)
    ensures r.Some? ==> |r.value.1| <= |b|
  {
    match GetAttributeValueType(typ)
    case ByteStringValue =>
      if length > |b| then None else Some(([ByteString(typ, b[..length])], SkipPadding(b[length..], length)))
    case UInt32Value =>
      if |b| < 4 then None else Some(([UInt32Attribute(typ, Get32(b))], b[4..]))
    case UnknownValue =>
      var padded := (length as int + Pad(length)) % 0x1_0000;
      if padded > |b| then None else Some(([], b[padded..]))
  }

  /** The loop of StunMessage::read over the attributes. */
  function Parse(b: seq<Byte>): Option<seq<Attribute>>
    decreases |b|
  {
    if b == [] then Some([])
    else if |b| < ATTRIBUTE_HEADER_SIZE then None
    else
      var first := ParseValue(Get16(b), Get16(b[2..]), b[4..]);
      if first.None? then None else Prepend(first.value.0, Parse(first.value.1))
  }

  function Prepend(known: seq<Attribute>, attrs: Option<seq<Attribute>>): Option<seq<Attribute>> {
    if attrs.None? then None else Some(known + attrs.value)
  }

  // ---------- Reading what was written ----------

  // A PRIORITY is a 32-bit number.
  predicate WellTyped(a: Attribute) {
    GetAttributeValueType(a.typ) == UInt32Value ==> a.UInt32Attribute?
  }

  /** What a receiver gets of an attribute: nothing if it does not know the type. */
  function Received(a: Attribute): seq<Attribute>
    requires Value(a).Some? && Fits(a) && |Value(a).value| >= Length(a)
  {
    match GetAttributeValueType(a.typ)
    case ByteStringValue => [ByteString(a.typ, Value(a).value[..Length(a)])]
    case UInt32Value => [a]
    case UnknownValue => []
  }

  predicate Sendable(attrs: seq<Attribute>) {
    forall a :: a in attrs ==> WellTyped(a) && Fits(a) && Value(a).Some? && |Value(a).value| >= Length(a)
  }

  function ReceivedAll(attrs: seq<Attribute>): seq<Attribute>
    requires Sendable(attrs)
  {
    if attrs == [] then [] else Received(attrs[0]) + ReceivedAll(attrs[1..])
  }

  // What the reader finds at the front of the input.
  lemma HeaderReads(typ: U16, length: U16, body: seq<Byte>)
    ensures var b := Put16(typ) + Put16(length) + body;
            |b| == 4 + |body| && Get16(b) == typ && Get16(b[2..]) == length && b[4..] == body
  {
    var b := Put16(typ) + Put16(length) + body;
    assert b == Put16(typ) + (Put16(length) + body);
    GetPut16(typ, Put16(length) + body);
    assert b[2..] == Put16(length) + body;
    GetPut16(length, body);
  }

  // One attribute's value at the front of the input.
  lemma ParseEncodedValue(a: Attribute, rest: seq<Byte>)
    requires WellTyped(a) && Fits(a) && Value(a).Some? && Size(a) < 0x1_0000
    requires |Value(a).value| >= Length(a)
    ensures ParseValue(a.typ, Length(a), Value(a).value + rest) == Some((Received(a), rest))
  {
    EncodedSize(a);
    var length, value := Length(a), Value(a).value;
    var body := value + rest;
    assert body[|value|..] == rest;
    match GetAttributeValueType(a.typ) {
      case ByteStringValue =>
        assert body[..length] == value[..length];
        assert body[length..][Pad(length)..] == rest;
      case UInt32Value =>
        GetPut32(a.value, rest);
      case UnknownValue =>
        assert (length as int + Pad(length)) % 0x1_0000 == |value|;
    }
  }

  lemma ParseOne(typ: U16, length: U16, value: seq<Byte>, known: seq<Attribute>, rest: seq<Byte>)
    requires ParseValue(typ, length, value + rest) == Some((known, rest))
    ensures Parse(Put16(typ) + Put16(length) + value + rest) == Prepend(known, Parse(rest))
  {
    assert Put16(typ) + Put16(length) + value + rest == Put16(typ) + Put16(length) + (value + rest);
    HeaderReads(typ, length, value + rest);
  }

  // One attribute at the front of the input.
  lemma ParseEncoded(a: Attribute, rest: seq<Byte>)
    requires WellTyped(a) && Fits(a) && Value(a).Some? && Size(a) < 0x1_0000
    requires |Value(a).value| >= Length(a)
    ensures Parse(Encode(a).value + rest) == Prepend(Received(a), Parse(rest))
  {
    ParseEncodedValue(a, rest);
    ParseOne(a.typ, Length(a), Value(a).value, Received(a), rest);
  }

  /** Reading the attributes that were written gives those whose type is known, in order. */
  lemma {:induction false} ParseEncodedAll(attrs: seq<Attribute>)
    requires Sendable(attrs) && EncodeAll(attrs).Some? && |EncodeAll(attrs).value| < 0x1_0000
    ensures Parse(EncodeAll(attrs).value) == Some(ReceivedAll(attrs))
  {
    if attrs != [] {
      var a, rest := attrs[0], EncodeAll(attrs[1..]).value;
      EncodedSize(a);
      ParseEncodedAll(attrs[1..]);
      ParseEncoded(a, rest);
    }
  }
}
