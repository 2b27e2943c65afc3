/** What readPacket() and loop() of GSMPubSubClient.cpp make of a stream of bytes, whatever
    the bytes are, and what that means for streams of well-formed packets. */
module MqttStream {
  import opened MqttWire
  import opened Words

  const MAX_PACKET_SIZE: nat := 256

  // ----- readPacket() -----

  /** The length bytes at the start of s: all that say that another follows, and that one. */
  function LengthRun(s: Bytes): (n: nat)
    ensures n <= |s|
    ensures forall i | 0 <= i < n - 1 :: s[i] >= 128
    ensures (n > 0 && s[n - 1] < 128) || n == |s|
  {
    if s == [] then 0 else if s[0] < 128 then 1 else 1 + LengthRun(s[1..])
  }

  /** The header and the length bytes. */
  function Front(s: Bytes): (n: nat)
    requires s != []
    ensures 1 <= n <= |s|
  {
    1 + LengthRun(s[1..])
  }

  /** The last length byte has come. */
  predicate LengthEnds(s: Bytes)
    requires s != []
  {
    Front(s) > 1 && s[Front(s) - 1] < 128
  }

  /** The front ends with the first length byte that is the last, or with the stream. */
  lemma FrontIs(s: Bytes, n: nat)
    requires 1 <= n <= |s| && forall i | 1 <= i < n - 1 :: s[i] >= 128
    ensures n > 1 && s[n - 1] < 128 ==> Front(s) == n && LengthEnds(s)
    ensures n == |s| && (n > 1 ==> s[n - 1] >= 128) ==> Front(s) == n && !LengthEnds(s)
    ensures n < |s| && (n > 1 ==> s[n - 1] >= 128) ==> Front(s) > n
  {
    var t, r := s[1..], LengthRun(s[1..]);
    assert forall i | 0 <= i < |t| :: t[i] == s[i + 1];
    assert r > 0 ==> t[r - 1] == s[r];
    assert n >= 2 && r > n - 1 ==> t[n - 2] >= 128;
  }

  /** All bytes that are taken for one packet. */
  function Total(s: Bytes): nat
    requires s != []
  {
    Front(s) + BodyRead(s[0], LengthValue(s[1..Front(s)]))
  }

  /** How far the buffer is written without a check of its size: the front and, of a PUBLISH,
      what comes of its topic length. */
  function Written(s: Bytes): nat
    requires s != []
  {
    var f := Front(s);
    if !IsPublish(s[0]) || !LengthEnds(s) then f else if f + 2 <= |s| then f + 2 else |s|
  }

  predicate Overruns(s: Bytes) {
    s != [] && Written(s) > MAX_PACKET_SIZE
  }

  /** A packet's bytes are all there; without them the read times out. */
  predicate Whole(s: Bytes) {
    s != [] && LengthEnds(s) && Total(s) <= |s|
  }

  /** What readPacket returns: the bytes taken, counted in 16 bits, or 0 above the size of
      the buffer. */
  function Count(s: Bytes): (n: nat)
    ensures n <= MAX_PACKET_SIZE && (Whole(s) ==> n <= Total(s))
  {
    if Whole(s) && Total(s) % B16 <= MAX_PACKET_SIZE then Total(s) % B16 else 0
  }

  /** The total in the terms of the body loop: `start` bytes are read with the front. */
  lemma TotalRead(s: Bytes, start: uint16, length: uint16) returns (total: nat)
    requires s != [] && length == LengthValue(s[1..Front(s)]) % B16 && start == if IsPublish(s[0]) then 2 else 0
    ensures total == Total(s) == Front(s) + start + if start < length then length - start else 0
  {
    total := Total(s);
  }

  /** The count in the terms of a 16-bit word that wraps. */
  lemma CountRead(s: Bytes, counted: uint16)
    requires Whole(s) && Front(s) <= MAX_PACKET_SIZE
    requires counted == if Total(s) < B16 then Total(s) else Total(s) - B16
    ensures Count(s) == if counted > MAX_PACKET_SIZE then 0 else counted
  {}

  /** What readPacket leaves of the stream. */
  function Rest(s: Bytes): Bytes {
    if Whole(s) then s[Total(s)..] else []
  }

  /** What place k of the buffer holds after a read of `total` bytes. Where the count has
      wrapped, the last bytes read lie over the first. */
  function KeptAt(s: Bytes, total: nat, k: nat): uint8
    requires k < total <= |s|
  {
    if B16 + k < total then s[B16 + k] else s[k]
  }

  /** The first n bytes of the buffer then. */
  function Kept(s: Bytes, total: nat, n: nat): (b: Bytes)
    requires n <= total <= |s|
    ensures |b| == n
  {
    seq(n, k requires 0 <= k < n => KeptAt(s, total, k))
  }

  /** What loop() takes for a packet. */
  function Seen(s: Bytes): Bytes {
    if Whole(s) then Kept(s, Total(s), Count(s)) else []
  }

  // ----- loop() -----

  predicate IsKind(header: uint8, kind: uint8) {
    header / 16 * 16 == kind
  }

  /** Where the payload starts in a PUBLISH whose length bytes are llen in number. */
  function PayloadAt(packet: Bytes, llen: nat): nat
    requires llen + 3 <= |packet|
  {
    llen + 3 + Word(packet[llen + 1], packet[llen + 2]) + if Qos(packet[0]) == 1 then 2 else 0
  }

  /** The length of the payload that is computed for the callback is not below zero. */
  predicate PayloadInside(packet: Bytes, llen: nat) {
    llen + 3 <= |packet| && PayloadAt(packet, llen) <= |packet|
  }

  function MessageIn(packet: Bytes, llen: nat): Message
    requires PayloadInside(packet, llen)
  {
    var tl := Word(packet[llen + 1], packet[llen + 2]);
    Message(UpToNul(packet[llen + 3..llen + 3 + tl]), packet[PayloadAt(packet, llen)..])
  }

  function IdIn(packet: Bytes, llen: nat): uint16
    requires PayloadInside(packet, llen) && Qos(packet[0]) == 1
  {
    Word(packet[PayloadAt(packet, llen) - 2], packet[PayloadAt(packet, llen) - 1])
  }

  /** The callback is handed a payload inside the packet, if it is called. */
  predicate PacketSound(packet: Bytes, llen: nat)
    requires packet != []
  {
    IsKind(packet[0], PUBLISH) ==> PayloadInside(packet, llen)
  }

  /** What loop() hands to the callback for a packet. */
  function DeliveriesOf(packet: Bytes, llen: nat): seq<Message>
    requires packet != [] && PacketSound(packet, llen)
  {
    if IsKind(packet[0], PUBLISH) then [MessageIn(packet, llen)] else []
  }

  /** What loop() sends back for a packet. */
  function AnswerTo(packet: Bytes, llen: nat): Bytes
    requires packet != [] && PacketSound(packet, llen)
  {
    if IsKind(packet[0], PUBLISH) then
      (if Qos(packet[0]) == 1 then PubackPacket(IdIn(packet, llen)) else [])
    else if IsKind(packet[0], PINGREQ) then Packet(PINGRESP, [])
    else []
  }

  /** loop() stays inside the buffer and inside the packet. */
  predicate Sound(s: Bytes) {
    !Overruns(s) && (Count(s) > 0 ==> PacketSound(Seen(s), Front(s) - 1))
  }

  /** What loop() hands to the callback. */
  function Deliveries(s: Bytes): seq<Message>
    requires Sound(s)
  {
    if Count(s) > 0 then DeliveriesOf(Seen(s), Front(s) - 1) else []
  }

  /** What loop() sends back. */
  function Answer(s: Bytes): Bytes
    requires Sound(s)
  {
    if Count(s) > 0 then AnswerTo(Seen(s), Front(s) - 1) else []
  }

  /** loop() takes the packet for the answer to its ping. */
  predicate IsPong(s: Bytes) {
    Count(s) > 0 && IsKind(Seen(s)[0], PINGRESP)
  }

  /** loop() sends a PUBACK, which counts as activity; a PINGRESP does not. */
  predicate IsAcknowledged(s: Bytes) {
    Count(s) > 0 && IsKind(Seen(s)[0], PUBLISH) && Qos(Seen(s)[0]) == 1
  }

  // ----- streams of packets -----

  lemma {:induction false} RunOfLength(n: nat, tail: Bytes)
    ensures LengthRun(EncodeLength(n) + tail) == |EncodeLength(n)|
    decreases n
  {
    var s := EncodeLength(n) + tail;
    if n >= 128 {
      RunOfLength(n / 128, tail);
      assert s[1..] == EncodeLength(n / 128) + tail;
    }
  }

  /** The front of a packet is its header and length bytes. */
  lemma PacketFront(header: uint8, body: Bytes, rest: Bytes)
    requires |body| < LENGTH_LIMIT
    ensures var s := Packet(header, body) + rest;
            && Front(s) == 1 + |EncodeLength(|body|)| <= 5 && LengthEnds(s) && !Overruns(s)
            && s[0] == header && LengthValue(s[1..Front(s)]) == |body|
  {
    var s, lengthBytes := Packet(header, body) + rest, EncodeLength(|body|);
    assert s[1..] == lengthBytes + (body + rest);
    RunOfLength(|body|, body + rest);
    LengthRoundTrip(|body|);
    LengthSize(|body|);
    assert s[1..Front(s)] == lengthBytes;
    assert s[Front(s) - 1] == lengthBytes[|lengthBytes| - 1];
  }

  /** What readPacket returns and leaves, for any packet, is right exactly for readable
      ones: the count is the packet's size, or 0 above the buffer's, and what is left is
      what follows the packet. */
  lemma ReadRightExactly(header: uint8, body: Bytes, rest: Bytes)
    requires |body| < LENGTH_LIMIT
    ensures var s, size := Packet(header, body) + rest, |Packet(header, body)|;
            (Rest(s) == rest && Count(s) == if size > MAX_PACKET_SIZE then 0 else size) <==> Readable(header, |body|)
  {
    var s, size := Packet(header, body) + rest, |Packet(header, body)|;
    PacketFront(header, body, rest);
    InStepExactly(header, |body|);
    LengthSize(|body|);
    if BodyRead(header, |body|) == |body| {
      assert s[Total(s)..] == rest;
      CountExactly(size);
    } else if Whole(s) {
      assert |Rest(s)| != |rest|;
    } else {
      assert |body| < 2;
    }
  }

  /** The 16-bit count of up to 4 bytes over 2^16 is right up to 2^16. */
  lemma CountExactly(size: nat)
    requires size < B16 + 4
    ensures (if size % B16 <= MAX_PACKET_SIZE then size % B16 else 0) == (if size > MAX_PACKET_SIZE then 0 else size)
            <==> size <= B16
  {}

  /** A readable packet that is not over the buffer's size is seen as it is. */
  lemma PacketSeen(header: uint8, body: Bytes, rest: Bytes)
    requires Readable(header, |body|)
    ensures var s, p := Packet(header, body) + rest, Packet(header, body);
            Rest(s) == rest && Seen(s) == if |p| > MAX_PACKET_SIZE then [] else p
  {
    var s, p := Packet(header, body) + rest, Packet(header, body);
    ReadRightExactly(header, body, rest);
    PacketFront(header, body, rest);
    InStepExactly(header, |body|);
    assert Total(s) == |p|;
    assert s[..|p|] == p;
  }

  /** loop() on a readable packet: sound exactly when a PUBLISH that it handles has its
      topic and identifier inside, and then it delivers and answers as it should. */
  lemma PacketHandled(header: uint8, body: Bytes, rest: Bytes)
    requires Readable(header, |body|)
    ensures var s := Packet(header, body) + rest;
            var taken := |Packet(header, body)| <= MAX_PACKET_SIZE;
            && (Sound(s) <==> (IsPublish(header) && taken ==> PublishFits(header, body)))
            && (Sound(s) ==>
                  && Deliveries(s) == (if IsPublish(header) && taken then [Delivered(header, body)] else [])
                  && Answer(s) == Reply(header, body))
            && (IsPong(s) <==> IsKind(header, PINGRESP) && taken)
  {
    var s, p := Packet(header, body) + rest, Packet(header, body);
    PacketFront(header, body, rest);
    PacketSeen(header, body, rest);
    if |p| <= MAX_PACKET_SIZE && IsPublish(header) {
      PublishInside(header, body);
    }
  }

  /** The indices into the packet are those into its body, shifted. */
  lemma PublishInside(header: uint8, body: Bytes)
    requires |body| >= 2
    ensures var p, llen := Packet(header, body), |EncodeLength(|body|)|;
            && (PayloadInside(p, llen) <==> PublishFits(header, body))
            && (PayloadInside(p, llen) ==> MessageIn(p, llen) == Delivered(header, body))
            && (PayloadInside(p, llen) && Qos(header) == 1 ==> IdIn(p, llen) == MessageId(header, body))
  {
    var p, llen := Packet(header, body), |EncodeLength(|body|)|;
    assert p[llen + 1..] == body && p[0] == header;
    assert p[llen + 1] == body[0] && p[llen + 2] == body[1];
    if PublishFits(header, body) {
      var tl := TopicLength(body);
      assert p[llen + 3..llen + 3 + tl] == body[2..2 + tl];
      assert p[PayloadAt(p, llen)..] == body[PayloadStart(header, body)..];
    }
  }

  /** What loop() sends back for one packet: a PUBACK for a QoS-1 PUBLISH, with the
      identifier that came, a PINGRESP for a PINGREQ, and nothing for what it skips. */
  function Reply(header: uint8, body: Bytes): Bytes
    requires IsPublish(header) && |Packet(header, body)| <= MAX_PACKET_SIZE ==> PublishFits(header, body)
  {
    if |Packet(header, body)| > MAX_PACKET_SIZE then []
    else if IsPublish(header) then (if Qos(header) == 1 then PubackPacket(MessageId(header, body)) else [])
    else if IsKind(header, PINGREQ) then Packet(PINGRESP, [])
    else []
  }

  /** A PUBLISH that fits the buffer is acknowledged exactly at QoS 1, with its own
      identifier, high byte first; a PINGREQ is answered by a PINGRESP. */
  lemma Answered(dup: bool, qos: nat, retain: bool, topic: Bytes, id: uint16, payload: Bytes)
    requires qos < 3 && |topic| < B16 && 0 !in topic
    ensures var h, body := PublishHeader(dup, qos, retain), PublishBody(qos, topic, id, payload);
            |Packet(h, body)| <= 256 ==>
              PublishFits(h, body) && Reply(h, body) == if qos == 1 then [0x40, 0x02, id / 256, id % 256] else []
    ensures Reply(0xC0, []) == [0xD0, 0x00]
  {
    PublishDelivered(dup, qos, retain, topic, id, payload);
    assert Reply(0xC0, []) == Packet(PINGRESP, []);
  }

  /** Bodies of 65533 to 65535 bytes: the stream stays in step, but the count wraps to 1, 2
      or 3, and loop() takes the last bytes of the body for a packet of its own. If they
      look like a PUBLISH, the callback would be handed a payload of negative length. */
  lemma PhantomPacket(header: uint8, body: Bytes, rest: Bytes)
    requires 65533 <= |body| < B16
    ensures var s := Packet(header, body) + rest;
            && Rest(s) == rest && Count(s) == |body| - 65532
            && Seen(s) == body[65532..]
            && (Sound(s) <==> !IsPublish(body[65532]))
            && (IsKind(body[65532], PINGREQ) ==> Sound(s) && Answer(s) == Packet(PINGRESP, []))
            && (IsPong(s) <==> IsKind(body[65532], PINGRESP))
  {
    var s := Packet(header, body) + rest;
    PacketFront(header, body, rest);
    InStepExactly(header, |body|);
    LengthSize(|body|);
    assert Total(s) == 4 + |body| && s[4 + |body|..] == rest;
    assert s[4..4 + |body|] == body;
    assert Kept(s, Total(s), Count(s)) == s[B16..Total(s)] == body[65532..];
  }

  /** The smallest such packet: its last byte is answered like a ping. */
  lemma PhantomPing(body: Bytes)
    requires |body| == 65533 && body[65532] == PINGREQ
    ensures var s := Packet(0x20, body); Count(s) == 1 && Sound(s) && Answer(s) == Packet(PINGRESP, [])
  {
    assert Packet(0x20, body) + [] == Packet(0x20, body);
    PhantomPacket(0x20, body, []);
  }

  /** A stream that overruns the buffer: a header and 256 length bytes that all continue. */
  lemma OverrunByLength(s: Bytes)
    requires |s| == 257 && forall i | 0 <= i < |s| :: s[i] == 0x80
    ensures Overruns(s) && !IsPublish(s[0])
  {
    FrontIs(s, 257);
  }
}
