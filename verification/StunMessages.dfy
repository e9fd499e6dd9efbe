/** StunMessage: a message under construction or one that was received. */
module StunMessages {
  import opened Basics
  import opened Bytes
  import opened StunFormat
  import opened Stun

  /** What add_message_integrity leaves behind when the message cannot be written. */
  const PLACEHOLDER: Attribute := ByteString(ATTR_MESSAGE_INTEGRITY, seq(MESSAGE_INTEGRITY_SIZE, _ => 0x30))

  predicate HasIntegrity(attrs: seq<Attribute>) {
    exists a :: a in attrs && a.typ == ATTR_MESSAGE_INTEGRITY
  }

  // One more attribute written.
  lemma EncodePrefix(attrs: seq<Attribute>, i: nat)
    requires i < |attrs| && EncodeAll(attrs[..i]).Some?
    ensures Encode(attrs[i]).None? ==> EncodeAll(attrs).None?
    ensures Encode(attrs[i]).Some? ==>
      EncodeAll(attrs[..i + 1]) == Some(EncodeAll(attrs[..i]).value + Encode(attrs[i]).value)
  {
    assert attrs[..i + 1] == attrs[..i] + [attrs[i]];
    EncodeAppend(attrs[..i], attrs[i]);
    if Encode(attrs[i]).None? {
      EncodesIffWritable(attrs);
    }
  }

  // What a new last attribute covers.
  lemma EncodeDropLast(head: seq<Byte>, attrs: seq<Attribute>, a: Attribute)
    requires EncodeAll(attrs + [a]).Some?
    ensures EncodeAll(attrs).Some? && Encode(a).Some?
    ensures var written := head + EncodeAll(attrs + [a]).value;
      |Encode(a).value| <= |written| &&
      written[..|written| - |Encode(a).value|] == head + EncodeAll(attrs).value
  {
    EncodeAppend(attrs, a);
  }

  lemma PrependNothing(rest: Option<seq<Attribute>>)
    ensures Prepend([], rest) == rest
  {
    if rest.Some? {
      assert [] + rest.value == rest.value;
    }
  }

  lemma PrependTwice(first: seq<Attribute>, second: seq<Attribute>, rest: Option<seq<Attribute>>)
    ensures Prepend(first, Prepend(second, rest)) == Prepend(first + second, rest)
  {
    if rest.Some? {
      assert first + (second + rest.value) == first + second + rest.value;
    }
  }

  class StunMessage {
    var typ: U16
    var length: U16
    var transactionId: seq<Byte>
    var attrs: seq<Attribute>
    var integrity: IntegrityStatus
    var password: seq<Byte>
    var buffer: seq<Byte>

    /** The length field counts the attributes, in 16 bits. */
    ghost predicate Valid()
      reads this
    {
      length == TotalSize(attrs) % 0x1_0000
    }

    function Bytes(): Option<seq<Byte>>
      reads this
    {
      Message(typ, length, transactionId, attrs)
    }

    constructor ()
      ensures Valid() && typ == 0 && |transactionId| == TRANSACTION_ID_LENGTH && attrs == []
      ensures integrity == NotSet && password == [] && buffer == []
    {
      typ, length, transactionId, attrs := 0, 0, seq(TRANSACTION_ID_LENGTH, _ => 0x30), [];
      integrity, password, buffer := NotSet, [], [];
    }

    method AddAttribute(a: Attribute)
      modifies this`length, this`attrs
      ensures attrs == old(attrs) + [a] && length == (old(length) as int + Size(a)) % 0x1_0000
      ensures old(Valid()) ==> Valid()
    {
      TotalAppend(attrs, a);
      length := (length as int + Size(a)) % 0x1_0000;
      attrs := attrs + [a];
    }

    /** Appends the message to buf, unless one of its attributes cannot be written. */
    method Write(buf: ByteBufferWriter) returns (ok: bool)
      modifies buf
      ensures ok == Bytes().Some?
      ensures ok ==> buf.bytes == old(buf.bytes) + Bytes().value
    {
      ghost var start, header := buf.bytes, Header(typ, length, transactionId);
      WriteHeader(buf);
      ok := WriteAttributes(buf);
      if ok {
        assert start + header + EncodeAll(attrs).value == start + (header + EncodeAll(attrs).value);
      }
    }

    method WriteHeader(buf: ByteBufferWriter)
      modifies buf
      ensures buf.bytes == old(buf.bytes) + Header(typ, length, transactionId)
    {
      buf.WriteUInt16(typ);
      buf.WriteUInt16(length);
      buf.WriteUInt32(MAGIC_COOKIE);
      buf.WriteBytes(transactionId);
    }

    method WriteAttributes(buf: ByteBufferWriter) returns (ok: bool)
      modifies buf
      ensures ok == EncodeAll(attrs).Some?
      ensures ok ==> buf.bytes == old(buf.bytes) + EncodeAll(attrs).value
    {
      ghost var start, written: seq<Byte> := buf.bytes, [];
      for i := 0 to |attrs|
        invariant EncodeAll(attrs[..i]) == Some(written) && buf.bytes == start + written
      {
        EncodePrefix(attrs, i);
        ok := WriteAttribute(attrs[i], buf);
        if !ok {
          return;
        }
        assert start + (written + Encode(attrs[i]).value) == start + written + Encode(attrs[i]).value;
        written := written + Encode(attrs[i]).value;
      }
      assert attrs[..|attrs|] == attrs;
      ok := true;
    }

    static method WriteAttribute(a: Attribute, buf: ByteBufferWriter) returns (ok: bool)
      modifies buf
      ensures ok == Encode(a).Some?
      ensures ok ==> buf.bytes == old(buf.bytes) + Encode(a).value
    {
      buf.WriteUInt16(a.typ);
      buf.WriteUInt16(Length(a));
      ok := WriteValue(a, buf);
    }

    /** Appends the HMAC of the message so far, its length field already counting the
        attribute being added. */
    method AddMessageIntegrity(digests: Digests, key: seq<Byte>) returns (ok: bool)
      modifies this`length, this`attrs, this`integrity, this`password
      ensures ok == EncodeAll(old(attrs)).Some?
      ensures length == (old(length) as int + INTEGRITY_SIZE) % 0x1_0000
      ensures ok ==> integrity == IntegrityOk && password == key
      ensures ok ==>
        attrs == old(attrs) + [IntegrityOf(digests, key, Header(typ, length, transactionId) + EncodeAll(old(attrs)).value)]
      ensures !ok ==> integrity == old(integrity) && password == old(password) && attrs == old(attrs) + [PLACEHOLDER]
    {
      AddAttribute(PLACEHOLDER);
      EncodeAppend(old(attrs), PLACEHOLDER);
      var buf := new ByteBufferWriter();
      ok := Write(buf);
      if !ok {
        return;
      }
      assert buf.bytes == Bytes().value;
      EncodeDropLast(Header(typ, length, transactionId), old(attrs), PLACEHOLDER);
      var covered := buf.bytes[..|buf.bytes| - INTEGRITY_SIZE];
      attrs := attrs[|attrs| - 1 := IntegrityOf(digests, key, covered)];
      password, integrity := key, IntegrityOk;
    }

    /** Appends the checksum of the message so far, its length field already counting the
        attribute being added. */
    method AddFingerprint(digests: Digests) returns (ok: bool)
      modifies this`length, this`attrs
      ensures ok == EncodeAll(old(attrs)).Some?
      ensures length == (old(length) as int + FINGERPRINT_SIZE) % 0x1_0000
      ensures attrs == old(attrs) + [
        if ok then FingerprintOf(digests, Header(typ, length, transactionId) + EncodeAll(old(attrs)).value)
        else UInt32Attribute(ATTR_FINGERPRINT, 0)]
    {
      var zero := UInt32Attribute(ATTR_FINGERPRINT, 0);
      AddAttribute(zero);
      EncodeAppend(old(attrs), zero);
      var buf := new ByteBufferWriter();
      ok := Write(buf);
      if !ok {
        return;
      }
      assert buf.bytes == Bytes().value;
      EncodeDropLast(Header(typ, length, transactionId), old(attrs), zero);
      var covered := buf.bytes[..|buf.bytes| - FINGERPRINT_SIZE];
      attrs := attrs[|attrs| - 1 := FingerprintOf(digests, covered)];
    }

    /** Reads one attribute's value.  The reader has just passed its header. */
    static method ReadAttribute(typ: U16, length: U16, reader: ByteBufferReader) returns (ok: bool, known: seq<Attribute>)
      requires reader.Valid()
      modifies reader
      ensures reader.Valid() && ok == ParseValue(typ, length, old(reader.Rest())).Some?
      ensures ok ==> (known, reader.Rest()) == ParseValue(typ, length, old(reader.Rest())).value
    {
      known := [];
      match GetAttributeValueType(typ) {
        case ByteStringValue =>
          var bytes;
          ok, bytes := ReadByteString(length, reader);
          known := [ByteString(typ, bytes)];
        case UInt32Value =>
          var value;
          ok, value := reader.ReadUInt32();
          known := [UInt32Attribute(typ, value)];
        case UnknownValue =>
          ok := reader.Consume((length as int + Pad(length)) % 0x1_0000);
      }
    }

    static method ReadByteString(length: U16, reader: ByteBufferReader) returns (ok: bool, bytes: seq<Byte>)
      requires reader.Valid()
      modifies reader
      ensures reader.Valid() && ok == (length <= |old(reader.Rest())|)
      ensures ok ==> bytes == old(reader.Rest())[..length]
      ensures ok ==> reader.Rest() == SkipPadding(old(reader.Rest())[length..], length)
    {
      ok, bytes := reader.ReadBytes(length);
      if ok {
        var skipped := reader.Consume(Pad(length));
      }
    }

    /** The loop over the attributes. */
    static method ReadAttributes(reader: ByteBufferReader) returns (ok: bool, attrs: seq<Attribute>)
      requires reader.Valid()
      modifies reader
      ensures reader.Valid() && ok == Parse(old(reader.Rest())).Some?
      ensures ok ==> attrs == Parse(old(reader.Rest())).value
    {
      attrs := [];
      PrependNothing(Parse(reader.Rest()));
      while reader.Rest() != []
        invariant reader.Valid() && Prepend(attrs, Parse(reader.Rest())) == Parse(old(reader.Rest()))
        decreases |reader.Rest()|
      {
        ghost var input := reader.Rest();
        var typ, length, known;
        ok, typ := reader.ReadUInt16();
        if ok {
          ok, length := reader.ReadUInt16();
        }
        if !ok {
          return;
        }
        assert reader.Rest() == input[4..];
        ok, known := ReadAttribute(typ, length, reader);
        if !ok {
          return;
        }
        PrependTwice(attrs, known, Parse(reader.Rest()));
        attrs := attrs + known;
      }
      ok := true;
    }

    /** Takes over a received message.  If it is refused, the fields hold what was read until then. */
    method Read(reader: ByteBufferReader) returns (ok: bool)
      requires reader.Valid()
      modifies this`typ, this`length, this`transactionId, this`attrs, this`buffer, reader
      ensures reader.Valid() && ok == ReadMessage(old(reader.Rest())).Some?
      ensures buffer == old(reader.Rest())
      ensures ok ==> Parsed(typ, length, transactionId, attrs) == ReadMessage(old(reader.Rest())).value
    {
      buffer := reader.Rest();
      ok := ReadHeader(reader);
      if !ok || |reader.Rest()| != length {
        return false;
      }
      ok, attrs := ReadAttributes(reader);
    }

    method ReadHeader(reader: ByteBufferReader) returns (ok: bool)
      requires reader.Valid()
      modifies this`typ, this`length, this`transactionId, reader
      ensures reader.Valid()
      ensures var b := old(reader.Rest());
              && (ok <==> |b| >= HEADER_SIZE && (Get16(b) / 0x0800) % 2 == 0)
              && (ok ==> typ == Get16(b) && length == Get16(b[2..]) && reader.Rest() == b[HEADER_SIZE..]
                         && transactionId == if Get32(b[4..]) == MAGIC_COOKIE then b[8..HEADER_SIZE] else b[4..HEADER_SIZE])
    {
      ghost var b := reader.Rest();
      ok, typ := reader.ReadUInt16();
      if !ok || (typ / 0x0800) % 2 == 1 {
        return false;
      }
      ok, length := reader.ReadUInt16();
      if !ok {
        return;
      }
      assert reader.Rest() == b[4..];
      var cookie, id;
      ok, cookie := reader.ReadBytes(4);
      if !ok {
        return;
      }
      assert reader.Rest() == b[8..];
      ok, id := reader.ReadBytes(TRANSACTION_ID_LENGTH);
      if !ok {
        return;
      }
      assert reader.Rest() == b[HEADER_SIZE..];
      assert cookie == b[4..8] && id == b[8..HEADER_SIZE] && cookie + id == b[4..HEADER_SIZE];
      transactionId := if Get32(cookie) == MAGIC_COOKIE then id else cookie + id;
    }

    /** The search of _validate_message_integrity_of_type. */
    static method FindAttribute(data: seq<Byte>, typ: U16) returns (found: bool, pos: nat)
      requires |data| >= HEADER_SIZE
      ensures if found then FindFrom(data, HEADER_SIZE, typ) == Some(pos) else FindFrom(data, HEADER_SIZE, typ) == None
      ensures found ==> HEADER_SIZE <= pos && pos + ATTRIBUTE_HEADER_SIZE <= |data|
    {
      pos, found := HEADER_SIZE, false;
      while pos + ATTRIBUTE_HEADER_SIZE <= |data|
        invariant HEADER_SIZE <= pos && FindFrom(data, pos, typ) == FindFrom(data, HEADER_SIZE, typ)
        decreases |data| - pos
      {
        var length := Get16(data[pos + 2..]);
        if Get16(data[pos..]) == typ {
          return true, pos;
        }
        pos := pos + ATTRIBUTE_HEADER_SIZE + length as int + Pad(length);
      }
    }

    /** Compares the HMAC of what was received with the one it carries. */
    method ValidateMessageIntegrity(digests: Digests, key: seq<Byte>) returns (status: IntegrityStatus)
      modifies this`integrity, this`password
      ensures integrity == status && password == key
      ensures status ==
        if !HasIntegrity(attrs) then NoIntegrity
        else if IntegrityMatches(digests, buffer, key) then IntegrityOk else IntegrityBad
    {
      password := key;
      if HasIntegrity(attrs) {
        var ok := CheckIntegrity(digests, buffer, key);
        integrity := if ok then IntegrityOk else IntegrityBad;
      } else {
        integrity := NoIntegrity;
      }
      status := integrity;
    }

    static method CheckIntegrity(digests: Digests, data: seq<Byte>, key: seq<Byte>) returns (ok: bool)
      ensures ok == IntegrityMatches(digests, data, key)
    {
      if |data| % 4 != 0 || |data| < HEADER_SIZE || Get16(data[2..]) as int + HEADER_SIZE != |data| {
        return false;
      }
      var found, mi := FindAttribute(data, ATTR_MESSAGE_INTEGRITY);
      if !found || mi + INTEGRITY_SIZE > |data| {
        return false;
      }
      var covered := data[..mi];
      if |data| > mi + INTEGRITY_SIZE {
        covered := data[..2] + Put16(mi + INTEGRITY_SIZE - HEADER_SIZE) + data[4..mi];
      }
      ok := data[mi + ATTRIBUTE_HEADER_SIZE..mi + INTEGRITY_SIZE] == digests.hmac(key, covered);
    }
  }

  // ---------- Round trip ----------

  method Build(typ: U16, transactionId: seq<Byte>, attrs: seq<Attribute>) returns (message: StunMessage)
    ensures fresh(message) && message.Valid()
    ensures message.typ == typ && message.transactionId == transactionId && message.attrs == attrs
  {
    message := new StunMessage();
    message.typ, message.transactionId := typ, transactionId;
    for i := 0 to |attrs|
      modifies message`length, message`attrs
      invariant message.attrs == attrs[..i] && message.Valid()
    {
      message.AddAttribute(attrs[i]);
    }
    assert attrs[..|attrs|] == attrs;
  }

  lemma NoWrap(n: nat)
    requires n < 0x1_0000
    ensures n % 0x1_0000 == n
  {
  }

  method Sign(digests: Digests, message: StunMessage, password: seq<Byte>)
    requires message.Valid() && Signable(message.typ, message.transactionId, message.attrs)
    modifies message
    ensures EncodeAll(old(message.attrs)).Some?
    ensures message.typ == old(message.typ) && message.transactionId == old(message.transactionId)
    ensures message.length == SignedLength(old(message.attrs))
    ensures message.attrs == Signed(digests, password, message.typ, message.transactionId, old(message.attrs))
  {
    ghost var (typ, id, attrs) := (message.typ, message.transactionId, message.attrs);
    AddIntegrity(digests, message, password);
    NoWrap(SignedLength(attrs));
    StampedBytes(typ, id, attrs, IntegrityOf(digests, password, SignedPart(typ, id, attrs)));
    var stamped := message.AddFingerprint(digests);
  }

  method AddIntegrity(digests: Digests, message: StunMessage, password: seq<Byte>)
    requires message.Valid() && Signable(message.typ, message.transactionId, message.attrs)
    modifies message
    ensures EncodeAll(old(message.attrs)).Some?
    ensures message.typ == old(message.typ) && message.transactionId == old(message.transactionId)
    ensures message.length == TotalSize(old(message.attrs)) + INTEGRITY_SIZE
    ensures var (typ, id, attrs) := old((message.typ, message.transactionId, message.attrs));
            message.attrs == attrs + [IntegrityOf(digests, password, SignedPart(typ, id, attrs))]
  {
    EncodedTotal(message.attrs);
    NoWrap(TotalSize(message.attrs));
    NoWrap(TotalSize(message.attrs) + INTEGRITY_SIZE);
    var signed := message.AddMessageIntegrity(digests, password);
  }

  method Send(digests: Digests, message: StunMessage, password: seq<Byte>) returns (bytes: seq<Byte>)
    requires message.Valid() && Signable(message.typ, message.transactionId, message.attrs)
    modifies message
    ensures EncodeAll(old(message.attrs)).Some?
    ensures var (t, id, attrs) := old((message.typ, message.transactionId, message.attrs));
            Message(t, SignedLength(attrs), id, Signed(digests, password, t, id, attrs)) == Some(bytes)
  {
    SignedSize(digests, password, message.typ, message.transactionId, message.attrs);
    Sign(digests, message, password);
    var buf := new ByteBufferWriter();
    var written := message.Write(buf);
    bytes := buf.bytes;
    assert bytes == message.Bytes().value;
  }

  method Accept(bytes: seq<Byte>) returns (received: StunMessage)
    requires ReadMessage(bytes).Some?
    ensures fresh(received) && received.buffer == bytes
    ensures Parsed(received.typ, received.length, received.transactionId, received.attrs) == ReadMessage(bytes).value
  {
    received := new StunMessage();
    var reader := new ByteBufferReader(bytes);
    var accepted := received.Read(reader);
  }

  lemma LastIsIntegrity(attrs: seq<Attribute>, mi: Attribute)
    requires mi.typ == ATTR_MESSAGE_INTEGRITY
    ensures HasIntegrity(attrs + [mi])
  {
    assert (attrs + [mi])[|attrs|] == mi;
  }

  /** The round trip: a message is built, signed, fingerprinted and written; the receiver
      accepts the bytes, gets back what it can know, and the MAC is good for the password it
      was made with, and for another exactly if that has the same HMAC. */
  method Exchange(digests: Digests, typ: U16, transactionId: seq<Byte>, attrs: seq<Attribute>,
                  password: seq<Byte>, other: seq<Byte>) returns (received: StunMessage, bytes: seq<Byte>)
    requires Signable(typ, transactionId, attrs)
    ensures ValidateFingerprint(digests, bytes)
    ensures received.typ == typ && received.transactionId == transactionId && received.buffer == bytes
    ensures EncodeAll(attrs).Some?
    ensures var part := SignedPart(typ, transactionId, attrs);
            && received.attrs == ReceivedAll(attrs) + [IntegrityOf(digests, password, part)]
            && received.password == other
            && received.integrity ==
               if digests.hmac(other, part) == digests.hmac(password, part) then IntegrityOk else IntegrityBad
  {
    var message := Build(typ, transactionId, attrs);
    bytes := Send(digests, message, password);
    SignedFingerprint(digests, password, typ, transactionId, attrs);
    SignedReadsBack(digests, password, typ, transactionId, attrs);
    SignedIntegrity(digests, password, typ, transactionId, attrs, other);
    LastIsIntegrity(ReceivedAll(attrs), IntegrityOf(digests, password, SignedPart(typ, transactionId, attrs)));
    received := Accept(bytes);
    var status := received.ValidateMessageIntegrity(digests, other);
  }
}
