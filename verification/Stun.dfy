/** StunMessage: building, writing and reading STUN messages with MESSAGE-INTEGRITY and
    FINGERPRINT (sections 6, 15.4 and 15.5 of RFC 5389).  HMAC-SHA1 and CRC-32 are
    arbitrary functions. */
module Stun {
  import opened Basics
  import opened Bytes
  import opened StunFormat

  const FINGERPRINT_XOR_VALUE: U32 := 0x5354554e
  const TRANSACTION_ID_LENGTH := 12
  const FINGERPRINT_SIZE := 8       // header and value
  const INTEGRITY_SIZE := 24        // header and value

  type Mac = b: seq<Byte> | |b| == MESSAGE_INTEGRITY_SIZE witness seq(20, _ => 0)

  datatype Digests = Digests(hmac: (seq<Byte>, seq<Byte>) -> Mac, crc32: seq<Byte> -> U32)

  datatype IntegrityStatus = NotSet | NoIntegrity | IntegrityOk | IntegrityBad

  // ---------- The bytes of a message ----------

  function Header(typ: U16, length: U16, transactionId: seq<Byte>): (h: seq<Byte>)
    ensures |h| == 8 + |transactionId|
  {
    Put16(typ) + Put16(length) + Put32(MAGIC_COOKIE) + transactionId
  }

  /** What StunMessage::write produces. */
  function Message(typ: U16, length: U16, transactionId: seq<Byte>, attrs: seq<Attribute>): Option<seq<Byte>> {
    if EncodeAll(attrs).None? then None else Some(Header(typ, length, transactionId) + EncodeAll(attrs).value)
  }

  /** StunMessage::validate_fingerprint. */
  predicate ValidateFingerprint(digests: Digests, data: seq<Byte>) {
    && |data| % 4 == 0 && |data| >= HEADER_SIZE + FINGERPRINT_SIZE
    && Get32(data[4..]) == MAGIC_COOKIE
    && var fingerprint := data[|data| - FINGERPRINT_SIZE..];
       && Get16(fingerprint) == ATTR_FINGERPRINT && Get16(fingerprint[2..]) == 4
       && Xor32(Get32(fingerprint[4..]), FINGERPRINT_XOR_VALUE) == digests.crc32(data[..|data| - FINGERPRINT_SIZE])
  }

  datatype Parsed = Parsed(typ: U16, length: U16, transactionId: seq<Byte>, attrs: seq<Attribute>)

  /** What StunMessage::read accepts.  Without the magic cookie its four bytes are part of the
      transaction id. */
  function ReadMessage(b: seq<Byte>): Option<Parsed> {
    if |b| < HEADER_SIZE || (Get16(b) / 0x0800) % 2 == 1 then None
    else
      var typ, length, rest := Get16(b), Get16(b[2..]), b[HEADER_SIZE..];
      var transactionId := if Get32(b[4..]) == MAGIC_COOKIE then b[8..HEADER_SIZE] else b[4..HEADER_SIZE];
      if |rest| != length || Parse(rest).None? then None
      else Some(Parsed(typ, length, transactionId, Parse(rest).value))
  }

  // The first attribute of type typ from byte pos on, stepping from header to header.
  function FindFrom(data: seq<Byte>, pos: nat, typ: U16): (r: Option<nat>)
    ensures r.Some? ==> pos <= r.value && r.value + ATTRIBUTE_HEADER_SIZE <= |data|
    decreases |data| - pos
  {
    if pos + ATTRIBUTE_HEADER_SIZE > |data| then None
    else if Get16(data[pos..]) == typ then Some(pos)
    else
      var length := Get16(data[pos + 2..]);
      FindFrom(data, pos + ATTRIBUTE_HEADER_SIZE + length as int + Pad(length), typ)
  }

  /** What the HMAC of a received message is computed over: everything before the
      MESSAGE-INTEGRITY attribute at mi, with the length field as if nothing followed it. */
  function Covered(data: seq<Byte>, mi: nat): seq<Byte>
    requires HEADER_SIZE <= mi && mi + ATTRIBUTE_HEADER_SIZE <= |data| < HEADER_SIZE + 0x1_0000
  {
    if |data| > mi + INTEGRITY_SIZE then
      data[..2] + Put16(mi + INTEGRITY_SIZE - HEADER_SIZE) + data[4..mi]
    else data[..mi]
  }

  /** _validate_message_integrity_of_type, where a MESSAGE-INTEGRITY attribute that is cut
      short does not match. */
  predicate IntegrityMatches(digests: Digests, data: seq<Byte>, password: seq<Byte>) {
    && |data| % 4 == 0 && |data| >= HEADER_SIZE
    && Get16(data[2..]) as int + HEADER_SIZE == |data|
    && var mi := FindFrom(data, HEADER_SIZE, ATTR_MESSAGE_INTEGRITY);
       && mi.Some? && mi.value + INTEGRITY_SIZE <= |data|
       && data[mi.value + ATTRIBUTE_HEADER_SIZE..mi.value + INTEGRITY_SIZE] ==
          digests.hmac(password, Covered(data, mi.value))
  }

  // ---------- Sizes ----------

  function TotalSize(attrs: seq<Attribute>): nat {
    if attrs == [] then 0 else Size(attrs[0]) + TotalSize(attrs[1..])
  }

  lemma {:induction false} EncodedTotal(attrs: seq<Attribute>)
    requires Sendable(attrs)
    ensures EncodeAll(attrs).Some? && |EncodeAll(attrs).value| == TotalSize(attrs)
    ensures TotalSize(attrs) % 4 == 0
  {
    if attrs != [] {
      assert attrs[0] in attrs;
      EncodedSize(attrs[0]);
      SizeAligned(attrs[0]);
      assert forall a :: a in attrs[1..] ==> a in attrs;
      EncodedTotal(attrs[1..]);
      MultiplesOf4(Size(attrs[0]), TotalSize(attrs[1..]));
    }
  }

  lemma MultiplesOf4(n: nat, m: nat)
    requires n % 4 == 0 && m % 4 == 0
    ensures (n + m) % 4 == 0
  {
  }

  lemma {:induction false} TotalAppend(attrs: seq<Attribute>, a: Attribute)
    ensures TotalSize(attrs + [a]) == TotalSize(attrs) + Size(a)
  {
    if attrs == [] {
      assert (attrs + [a])[1..] == [];
    } else {
      assert (attrs + [a])[1..] == attrs[1..] + [a];
      TotalAppend(attrs[1..], a);
    }
  }

  lemma {:induction false} EncodesIffWritable(attrs: seq<Attribute>)
    ensures EncodeAll(attrs).Some? <==> forall a :: a in attrs ==> Value(a).Some?
  {
    if attrs != [] {
      EncodesIffWritable(attrs[1..]);
      assert forall a {:trigger a in attrs} :: a in attrs <==> a == attrs[0] || a in attrs[1..];
    }
  }

  // ---------- Finding MESSAGE-INTEGRITY in what was written ----------

  // The search steps over an attribute of another type.
  lemma FindStepsOver(data: seq<Byte>, pos: nat, a: Attribute, more: seq<Byte>)
    requires Fits(a) && Value(a).Some? && a.typ != ATTR_MESSAGE_INTEGRITY
    requires pos <= |data| && data[pos..] == Encode(a).value + more
    ensures pos + Size(a) <= |data| && data[pos + Size(a)..] == more
    ensures FindFrom(data, pos, ATTR_MESSAGE_INTEGRITY) == FindFrom(data, pos + Size(a), ATTR_MESSAGE_INTEGRITY)
  {
    EncodedSize(a);
    assert data[pos + Size(a)..] == data[pos..][Size(a)..];
    assert data[pos..] == Put16(a.typ) + Put16(Length(a)) + (Value(a).value + more);
    HeaderReads(a.typ, Length(a), Value(a).value + more);
    assert data[pos + 2..] == data[pos..][2..];
  }

  /** In written attributes the search finds the first MESSAGE-INTEGRITY. */
  lemma {:induction false} FindEncoded(data: seq<Byte>, pos: nat, attrs: seq<Attribute>, mi: seq<Byte>)
    requires Sendable(attrs) && EncodeAll(attrs).Some?
    requires forall a :: a in attrs ==> a.typ != ATTR_MESSAGE_INTEGRITY
    requires |mi| >= ATTRIBUTE_HEADER_SIZE && Get16(mi) == ATTR_MESSAGE_INTEGRITY
    requires pos <= |data| && data[pos..] == EncodeAll(attrs).value + mi
    ensures FindFrom(data, pos, ATTR_MESSAGE_INTEGRITY) == Some(|data| - |mi|)
    decreases |attrs|
  {
    if attrs == [] {
      assert data[pos..] == mi;
      assert FindFrom(data, pos, ATTR_MESSAGE_INTEGRITY) == Some(|data| - |mi|);
    } else {
      var a, more := attrs[0], EncodeAll(attrs[1..]).value + mi;
      assert data[pos..] == Encode(a).value + more;
      FindStepsOver(data, pos, a, more);
      FindEncoded(data, pos + Size(a), attrs[1..], mi);
      assert FindFrom(data, pos, ATTR_MESSAGE_INTEGRITY) == Some(|data| - |mi|);
    }
  }

  // ---------- Written messages ----------

  // What the header fields of a written message read as.
  lemma HeaderFields(typ: U16, length: U16, transactionId: seq<Byte>, body: seq<Byte>)
    requires |transactionId| == TRANSACTION_ID_LENGTH
    ensures var b := Header(typ, length, transactionId) + body;
            && |b| == HEADER_SIZE + |body| && Get16(b) == typ && Get16(b[2..]) == length
            && Get32(b[4..]) == MAGIC_COOKIE
            && b[8..HEADER_SIZE] == transactionId && b[HEADER_SIZE..] == body
            && b[..2] == Put16(typ) && b[4..HEADER_SIZE] == Put32(MAGIC_COOKIE) + transactionId
  {
    var b := Header(typ, length, transactionId) + body;
    var rest := Put32(MAGIC_COOKIE) + transactionId + body;
    assert b == Put16(typ) + Put16(length) + rest;
    HeaderReads(typ, length, rest);
    assert rest == Put32(MAGIC_COOKIE) + (transactionId + body);
    GetPut32(MAGIC_COOKIE, transactionId + body);
  }

  function FingerprintOf(digests: Digests, covered: seq<Byte>): Attribute {
    UInt32Attribute(ATTR_FINGERPRINT, Xor32(digests.crc32(covered), FINGERPRINT_XOR_VALUE))
  }

  function IntegrityOf(digests: Digests, password: seq<Byte>, covered: seq<Byte>): Attribute {
    ByteString(ATTR_MESSAGE_INTEGRITY, digests.hmac(password, covered))
  }

  /** A message that ends with the fingerprint of what precedes it, with the length field
      counting the fingerprint, passes validate_fingerprint. */
  lemma FingerprintAccepted(digests: Digests, typ: U16, length: U16, transactionId: seq<Byte>, body: seq<Byte>)
    requires |transactionId| == TRANSACTION_ID_LENGTH && |body| % 4 == 0
    ensures var covered := Header(typ, length, transactionId) + body;
            ValidateFingerprint(digests, covered + Encode(FingerprintOf(digests, covered)).value)
  {
    var covered := Header(typ, length, transactionId) + body;
    var value := Xor32(digests.crc32(covered), FINGERPRINT_XOR_VALUE);
    var fingerprint := Encode(FingerprintOf(digests, covered)).value;
    var data := covered + fingerprint;
    HeaderFields(typ, length, transactionId, body + fingerprint);
    assert data == Header(typ, length, transactionId) + (body + fingerprint);
    assert data[|data| - FINGERPRINT_SIZE..] == fingerprint;
    assert data[..|data| - FINGERPRINT_SIZE] == covered;
    HeaderReads(ATTR_FINGERPRINT, 4, Put32(value));
    GetPut32(value, []);
    assert Put32(value) + [] == Put32(value);
    XorInverse(digests.crc32(covered), FINGERPRINT_XOR_VALUE);
    MultiplesOf4(|body|, HEADER_SIZE + FINGERPRINT_SIZE);
  }

  // A message with attributes, a MESSAGE-INTEGRITY and whatever follows it.
  function WithTrailer(typ: U16, length: U16, transactionId: seq<Byte>, attrs: seq<Byte>, mac: Mac, trailer: seq<Byte>): seq<Byte> {
    Header(typ, length, transactionId) + attrs + Encode(ByteString(ATTR_MESSAGE_INTEGRITY, mac)).value + trailer
  }

  // The MESSAGE-INTEGRITY attribute in such a message, and what it covers.
  lemma IntegrityLayout(typ: U16, length: U16, transactionId: seq<Byte>, attrs: seq<Byte>, mac: Mac, trailer: seq<Byte>)
    requires |transactionId| == TRANSACTION_ID_LENGTH
    requires length == |attrs| + INTEGRITY_SIZE + |trailer| && length % 4 == 0
    ensures var data := WithTrailer(typ, length, transactionId, attrs, mac, trailer);
            var mi := HEADER_SIZE + |attrs|;
            && |data| == HEADER_SIZE + length as int && |data| % 4 == 0 && Get16(data[2..]) == length
            && data[mi + ATTRIBUTE_HEADER_SIZE..mi + INTEGRITY_SIZE] == mac
            && Covered(data, mi) == Header(typ, |attrs| + INTEGRITY_SIZE, transactionId) + attrs
  {
    var data := WithTrailer(typ, length, transactionId, attrs, mac, trailer);
    var mi := HEADER_SIZE + |attrs|;
    var head := Put16(ATTR_MESSAGE_INTEGRITY) + Put16(20);
    assert Encode(ByteString(ATTR_MESSAGE_INTEGRITY, mac)).value == head + mac;
    assert data == Header(typ, length, transactionId) + attrs + head + mac + trailer;
    HeaderFields(typ, length, transactionId, attrs + head + mac + trailer);
    assert data == Header(typ, length, transactionId) + (attrs + head + mac + trailer);
    assert data[4..mi] == Put32(MAGIC_COOKIE) + transactionId + attrs;
  }

  // The search finds that attribute.
  lemma IntegrityFound(typ: U16, length: U16, transactionId: seq<Byte>, attrs: seq<Attribute>, mac: Mac, trailer: seq<Byte>)
    requires |transactionId| == TRANSACTION_ID_LENGTH && Sendable(attrs) && EncodeAll(attrs).Some?
    requires forall a :: a in attrs ==> a.typ != ATTR_MESSAGE_INTEGRITY
    ensures var body := EncodeAll(attrs).value;
            FindFrom(WithTrailer(typ, length, transactionId, body, mac, trailer), HEADER_SIZE, ATTR_MESSAGE_INTEGRITY) ==
            Some(HEADER_SIZE + |body|)
  {
    var body := EncodeAll(attrs).value;
    var data := WithTrailer(typ, length, transactionId, body, mac, trailer);
    var attr := Put16(ATTR_MESSAGE_INTEGRITY) + Put16(20) + (mac + trailer);
    HeaderReads(ATTR_MESSAGE_INTEGRITY, 20, mac + trailer);
    assert Encode(ByteString(ATTR_MESSAGE_INTEGRITY, mac)).value + trailer == attr;
    assert data == Header(typ, length, transactionId) + (body + attr);
    assert data[HEADER_SIZE..] == body + attr;
    FindEncoded(data, HEADER_SIZE, attrs, attr);
  }

  // Checking a well-formed message comes down to comparing the MAC that was found.
  lemma MatchesFound(digests: Digests, data: seq<Byte>, mi: nat, password: seq<Byte>)
    requires |data| % 4 == 0 && |data| >= HEADER_SIZE && Get16(data[2..]) as int + HEADER_SIZE == |data|
    requires FindFrom(data, HEADER_SIZE, ATTR_MESSAGE_INTEGRITY) == Some(mi) && mi + INTEGRITY_SIZE <= |data|
    ensures IntegrityMatches(digests, data, password) <==>
            data[mi + ATTRIBUTE_HEADER_SIZE..mi + INTEGRITY_SIZE] == digests.hmac(password, Covered(data, mi))
  {
  }

  /** A received message whose first MESSAGE-INTEGRITY is mac is accepted for a password
      exactly if mac is that password's HMAC of the header and the attributes before it, with
      the length field counting up to the MESSAGE-INTEGRITY, whatever follows. */
  lemma IntegrityAccepted(digests: Digests, typ: U16, length: U16, transactionId: seq<Byte>, attrs: seq<Attribute>,
                          mac: Mac, trailer: seq<Byte>, password: seq<Byte>)
    requires |transactionId| == TRANSACTION_ID_LENGTH && Sendable(attrs)
    requires forall a :: a in attrs ==> a.typ != ATTR_MESSAGE_INTEGRITY
    requires length == TotalSize(attrs) + INTEGRITY_SIZE + |trailer| && length % 4 == 0
    ensures EncodeAll(attrs).Some?
    ensures var body := EncodeAll(attrs).value;
            IntegrityMatches(digests, WithTrailer(typ, length, transactionId, body, mac, trailer), password) <==>
            mac == digests.hmac(password, Header(typ, TotalSize(attrs) + INTEGRITY_SIZE, transactionId) + body)
  {
    EncodedTotal(attrs);
    var body := EncodeAll(attrs).value;
    IntegrityLayout(typ, length, transactionId, body, mac, trailer);
    IntegrityFound(typ, length, transactionId, attrs, mac, trailer);
    MatchesFound(digests, WithTrailer(typ, length, transactionId, body, mac, trailer), HEADER_SIZE + |body|, password);
  }

  /** read gives a written message back, with the attributes it knows. */
  lemma ReadsBack(typ: U16, length: U16, transactionId: seq<Byte>, attrs: seq<Attribute>)
    requires |transactionId| == TRANSACTION_ID_LENGTH && (typ / 0x0800) % 2 == 0
    requires Sendable(attrs) && length == TotalSize(attrs)
    ensures Message(typ, length, transactionId, attrs).Some?
    ensures ReadMessage(Message(typ, length, transactionId, attrs).value) ==
            Some(Parsed(typ, length, transactionId, ReceivedAll(attrs)))
  {
    EncodedTotal(attrs);
    HeaderFields(typ, length, transactionId, EncodeAll(attrs).value);
    ParseEncodedAll(attrs);
  }

  // ---------- A signed message ----------

  lemma {:induction false} ReceivedAppend(attrs: seq<Attribute>, a: Attribute)
    requires Sendable(attrs + [a])
    ensures Sendable(attrs) && Sendable([a])
    ensures ReceivedAll(attrs + [a]) == ReceivedAll(attrs) + Received(a)
  {
    assert a in attrs + [a];
    if attrs == [] {
      assert attrs + [a] == [a];
      assert Received(a) + [] == Received(a) == [] + Received(a);
    } else {
      assert (attrs + [a])[1..] == attrs[1..] + [a];
      ReceivedAppend(attrs[1..], a);
    }
  }

  // Of the two trailers a receiver keeps the MESSAGE-INTEGRITY.
  lemma ReceivedTrailers(attrs: seq<Attribute>, mac: Mac, checksum: U32)
    requires Sendable(attrs)
    ensures var mi, fp := ByteString(ATTR_MESSAGE_INTEGRITY, mac), UInt32Attribute(ATTR_FINGERPRINT, checksum);
            Sendable(attrs + [mi] + [fp]) && ReceivedAll(attrs + [mi] + [fp]) == ReceivedAll(attrs) + [mi]
  {
    var mi, fp := ByteString(ATTR_MESSAGE_INTEGRITY, mac), UInt32Attribute(ATTR_FINGERPRINT, checksum);
    assert Value(mi).value[..20] == mac;
    assert Received(mi) == [mi] && Received(fp) == [];
    ReceivedAppend(attrs + [mi], fp);
    ReceivedAppend(attrs, mi);
  }

  // What the MAC of a message with these attributes covers.
  function SignedPart(typ: U16, transactionId: seq<Byte>, attrs: seq<Attribute>): seq<Byte>
    requires EncodeAll(attrs).Some? && TotalSize(attrs) + INTEGRITY_SIZE < 0x1_0000
  {
    Header(typ, TotalSize(attrs) + INTEGRITY_SIZE, transactionId) + EncodeAll(attrs).value
  }

  function SignedLength(attrs: seq<Attribute>): nat {
    TotalSize(attrs) + INTEGRITY_SIZE + FINGERPRINT_SIZE
  }

  // What its checksum covers.
  function StampedPart(typ: U16, transactionId: seq<Byte>, attrs: seq<Attribute>, mi: Attribute): seq<Byte>
    requires EncodeAll(attrs).Some? && Encode(mi).Some? && SignedLength(attrs) < 0x1_0000
  {
    Header(typ, SignedLength(attrs), transactionId) + EncodeAll(attrs).value + Encode(mi).value
  }

  lemma StampedBytes(typ: U16, transactionId: seq<Byte>, attrs: seq<Attribute>, mi: Attribute)
    requires EncodeAll(attrs).Some? && Encode(mi).Some? && SignedLength(attrs) < 0x1_0000
    ensures EncodeAll(attrs + [mi]).Some?
    ensures Header(typ, SignedLength(attrs), transactionId) + EncodeAll(attrs + [mi]).value ==
            StampedPart(typ, transactionId, attrs, mi)
  {
    EncodeAppend(attrs, mi);
    var h, body, m := Header(typ, SignedLength(attrs), transactionId), EncodeAll(attrs).value, Encode(mi).value;
    assert h + (body + m) == h + body + m;
  }

  /** The attributes of a message after add_message_integrity and add_fingerprint. */
  function Signed(digests: Digests, password: seq<Byte>, typ: U16, transactionId: seq<Byte>, attrs: seq<Attribute>):
      seq<Attribute>
    requires EncodeAll(attrs).Some? && SignedLength(attrs) < 0x1_0000
  {
    var mi := IntegrityOf(digests, password, SignedPart(typ, transactionId, attrs));
    attrs + [mi] + [FingerprintOf(digests, StampedPart(typ, transactionId, attrs, mi))]
  }

  // What may be signed.
  predicate Signable(typ: U16, transactionId: seq<Byte>, attrs: seq<Attribute>) {
    && |transactionId| == TRANSACTION_ID_LENGTH && (typ / 0x0800) % 2 == 0
    && Sendable(attrs) && (forall a :: a in attrs ==> a.typ != ATTR_MESSAGE_INTEGRITY)
    && SignedLength(attrs) < 0x1_0000
  }

  lemma SignedSize(digests: Digests, password: seq<Byte>, typ: U16, transactionId: seq<Byte>, attrs: seq<Attribute>)
    requires Signable(typ, transactionId, attrs)
    ensures EncodeAll(attrs).Some?
    ensures var all := Signed(digests, password, typ, transactionId, attrs);
            && Sendable(all) && TotalSize(all) == SignedLength(attrs)
            && TotalSize(all) % 4 == 0 && EncodeAll(all).Some?
  {
    EncodedTotal(attrs);
    var all := Signed(digests, password, typ, transactionId, attrs);
    TotalAppend(attrs, all[|attrs|]);
    TotalAppend(attrs + [all[|attrs|]], all[|attrs| + 1]);
    EncodedTotal(all);
  }

  lemma MessageWithTwo(typ: U16, length: U16, transactionId: seq<Byte>, attrs: seq<Attribute>, a: Attribute, b: Attribute)
    requires EncodeAll(attrs).Some? && Encode(a).Some? && Encode(b).Some?
    ensures Message(typ, length, transactionId, attrs + [a] + [b]) ==
            Some(Header(typ, length, transactionId) + EncodeAll(attrs).value + Encode(a).value + Encode(b).value)
  {
    EncodeAppend(attrs, a);
    EncodeAppend(attrs + [a], b);
    var h, body, x, y := Header(typ, length, transactionId), EncodeAll(attrs).value, Encode(a).value, Encode(b).value;
    assert h + (body + x + y) == h + body + x + y;
  }

  // The bytes of a signed message: the part with the MAC, and the fingerprint.
  lemma SignedBytes(digests: Digests, password: seq<Byte>, typ: U16, transactionId: seq<Byte>, attrs: seq<Attribute>)
    requires Signable(typ, transactionId, attrs)
    ensures EncodeAll(attrs).Some?
    ensures var all := Signed(digests, password, typ, transactionId, attrs);
            var data := Message(typ, SignedLength(attrs), transactionId, all);
            && data.Some?
            && data.value == StampedPart(typ, transactionId, attrs, all[|attrs|]) + Encode(all[|attrs| + 1]).value
  {
    EncodedTotal(attrs);
    var all := Signed(digests, password, typ, transactionId, attrs);
    MessageWithTwo(typ, SignedLength(attrs), transactionId, attrs, all[|attrs|], all[|attrs| + 1]);
  }

  // The checksum of the part with the MAC.
  lemma StampAccepted(digests: Digests, typ: U16, transactionId: seq<Byte>, attrs: seq<Attribute>, mac: Mac)
    requires Signable(typ, transactionId, attrs) && EncodeAll(attrs).Some?
    ensures var stamped := StampedPart(typ, transactionId, attrs, ByteString(ATTR_MESSAGE_INTEGRITY, mac));
            ValidateFingerprint(digests, stamped + Encode(FingerprintOf(digests, stamped)).value)
  {
    EncodedTotal(attrs);
    var h, body := Header(typ, SignedLength(attrs), transactionId), EncodeAll(attrs).value;
    var mi := Encode(ByteString(ATTR_MESSAGE_INTEGRITY, mac)).value;
    assert |mi| == INTEGRITY_SIZE;
    MultiplesOf4(|body|, |mi|);
    FingerprintAccepted(digests, typ, SignedLength(attrs), transactionId, body + mi);
    assert h + (body + mi) == h + body + mi;
  }

  /** A signed message passes validate_fingerprint. */
  lemma SignedFingerprint(digests: Digests, password: seq<Byte>, typ: U16, transactionId: seq<Byte>, attrs: seq<Attribute>)
    requires Signable(typ, transactionId, attrs)
    ensures EncodeAll(attrs).Some?
    ensures var all := Signed(digests, password, typ, transactionId, attrs);
            var data := Message(typ, SignedLength(attrs), transactionId, all);
            data.Some? && ValidateFingerprint(digests, data.value)
  {
    SignedBytes(digests, password, typ, transactionId, attrs);
    StampAccepted(digests, typ, transactionId, attrs, digests.hmac(password, SignedPart(typ, transactionId, attrs)));
  }

  /** read accepts a signed message, with the same type, transaction id and attributes. */
  lemma SignedReadsBack(digests: Digests, password: seq<Byte>, typ: U16, transactionId: seq<Byte>, attrs: seq<Attribute>)
    requires Signable(typ, transactionId, attrs)
    ensures EncodeAll(attrs).Some?
    ensures var all := Signed(digests, password, typ, transactionId, attrs);
            var data := Message(typ, SignedLength(attrs), transactionId, all);
            && data.Some?
            && ReadMessage(data.value) ==
               Some(Parsed(typ, SignedLength(attrs), transactionId, ReceivedAll(attrs) + [all[|attrs|]]))
  {
    SignedSize(digests, password, typ, transactionId, attrs);
    var all := Signed(digests, password, typ, transactionId, attrs);
    ReadsBack(typ, TotalSize(all), transactionId, all);
    ReceivedTrailers(attrs, all[|attrs|].bytes, all[|attrs| + 1].value);
  }

  // The MAC of the part with the MAC.
  lemma StampedIntegrity(digests: Digests, typ: U16, transactionId: seq<Byte>, attrs: seq<Attribute>, mac: Mac,
                         trailer: seq<Byte>, password: seq<Byte>)
    requires Signable(typ, transactionId, attrs) && EncodeAll(attrs).Some? && |trailer| == FINGERPRINT_SIZE
    ensures IntegrityMatches(digests,
      StampedPart(typ, transactionId, attrs, ByteString(ATTR_MESSAGE_INTEGRITY, mac)) + trailer, password) <==>
      mac == digests.hmac(password, SignedPart(typ, transactionId, attrs))
  {
    EncodedTotal(attrs);
    MultiplesOf4(TotalSize(attrs), INTEGRITY_SIZE + FINGERPRINT_SIZE);
    IntegrityAccepted(digests, typ, SignedLength(attrs), transactionId, attrs, mac, trailer, password);
  }

  /** A signed message is intact for a password exactly if that password has the same HMAC as
      the one it was signed with; the fingerprint after the MAC makes no difference. */
  lemma SignedIntegrity(digests: Digests, password: seq<Byte>, typ: U16, transactionId: seq<Byte>, attrs: seq<Attribute>,
                        other: seq<Byte>)
    requires Signable(typ, transactionId, attrs)
    ensures EncodeAll(attrs).Some?
    ensures var all := Signed(digests, password, typ, transactionId, attrs);
            var data := Message(typ, SignedLength(attrs), transactionId, all);
            var part := SignedPart(typ, transactionId, attrs);
            && data.Some?
            && (IntegrityMatches(digests, data.value, other) <==>
                digests.hmac(password, part) == digests.hmac(other, part))
  {
    SignedBytes(digests, password, typ, transactionId, attrs);
    var mac := digests.hmac(password, SignedPart(typ, transactionId, attrs));
    var fp := Encode(Signed(digests, password, typ, transactionId, attrs)[|attrs| + 1]).value;
    StampedIntegrity(digests, typ, transactionId, attrs, mac, fp, other);
  }
}
