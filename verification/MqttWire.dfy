/** The MQTT 3.1.1 wire format, as far as the client reads and writes it: remaining length
    (section 2.2.3), strings (section 1.5.3), PUBLISH (section 3.3) and PUBACK (section 3.4). */
module MqttWire {
  import opened Words

  type Bytes = seq<uint8>

  const PUBLISH: uint8 := 0x30
  const PUBACK: uint8 := 0x40
  const PINGREQ: uint8 := 0xC0
  const PINGRESP: uint8 := 0xD0

  /** The largest remaining length that four bytes can say, plus one. */
  const LENGTH_LIMIT: nat := 0x1000_0000

  /** Seven bits a byte, low bits first, with the top bit set on all but the last. */
  function EncodeLength(n: nat): (s: Bytes)
    ensures s != []
  {
    if n < 128 then [n] else [n % 128 + 128] + EncodeLength(n / 128)
  }

  /** The first length byte, and the others. */
  lemma LengthHead(n: nat)
    ensures EncodeLength(n) == if n < 128 then [n] else [n % 128 + 128] + EncodeLength(n / 128)
  {}

  /** The value that a run of length bytes stands for. */
  function LengthValue(s: Bytes): nat {
    if s == [] then 0 else s[0] % 128 + 128 * LengthValue(s[1..])
  }

  /** All bytes but the last continue, and the bytes say the length. */
  lemma {:induction false} LengthRoundTrip(n: nat)
    ensures LengthValue(EncodeLength(n)) == n
    ensures var s := EncodeLength(n);
            forall i | 0 <= i < |s| :: s[i] >= 128 <==> i < |s| - 1
    decreases n
  {
    if n >= 128 {
      LengthRoundTrip(n / 128);
      assert EncodeLength(n)[1..] == EncodeLength(n / 128);
    }
  }

  /** The weight of the k-th length byte, in 32 bits: it has left them by the fifth. */
  function Multiplier(k: nat): uint32 {
    if k == 0 then 1 else if k == 1 then 0x80 else if k == 2 then 0x4000 else if k == 3 then 0x20_0000
    else if k == 4 then 0x1000_0000 else 0
  }

  lemma NextMultiplier(k: nat)
    ensures Multiplier(k + 1) == Wrap32(Multiplier(k) * 128)
  {
    if k < 5 {
      assert k == 0 || k == 1 || k == 2 || k == 3 || k == 4;
    }
  }

  /** One more length byte, added with its weight: the value is right in 16 bits however
      many bytes there are. */
  lemma AppendDigit(u: Bytes, d: uint8, multiplier: uint32)
    requires multiplier == Multiplier(|u|)
    ensures LengthValue(u + [d]) % B16 == Wrap32(LengthValue(u) % B16 + d % 128 * multiplier) % B16
  {
    if |u| < 3 {
      LowDigit(u, d, multiplier);
      LowProduct(d, multiplier);
      LowSum(LengthValue(u), d % 128 * multiplier);
    } else {
      HighDigit(u, d);
      HighSum(LengthValue(u) % B16, d, multiplier);
    }
  }

  lemma HighDigit(u: Bytes, d: uint8)
    requires |u| >= 3
    ensures LengthValue(u + [d]) % B16 == LengthValue(u) % B16
  {
    var w := u + [d];
    var h: nat := (u[0] as int) % 128 + 128 * ((u[1] as int) % 128) + 16384 * ((u[2] as int) % 128);
    var x := ThreeDigits(u);
    var y := ThreeDigits(w);
    assert w[0] == u[0] && w[1] == u[1] && w[2] == u[2];
    HighDropped(LengthValue(u), h, x);
    HighDropped(LengthValue(w), h, y);
  }

  lemma HighDropped(value: nat, h: nat, x: nat)
    requires value == h + 0x20_0000 * x
    ensures value % B16 == h % B16
  {}

  lemma LowDigit(u: Bytes, d: uint8, multiplier: uint32)
    requires |u| < 3 && multiplier == Multiplier(|u|)
    ensures LengthValue(u) < 16384 && LengthValue(u + [d]) == LengthValue(u) + d % 128 * multiplier
  {
    var w := u + [d];
    FirstDigit(u);
    FirstDigit(w);
    if |u| > 0 {
      FirstDigit(u[1..]);
      FirstDigit(w[1..]);
      if |u| > 1 {
        FirstDigit(w[2..]);
      }
    }
  }

  lemma FirstDigit(s: Bytes)
    ensures LengthValue(s) == if s == [] then 0 else s[0] % 128 + 128 * LengthValue(s[1..])
    ensures |s| >= 2 ==> s[1..][1..] == s[2..]
    ensures |s| == 1 ==> s[1..] == []
  {}

  lemma LowProduct(d: uint8, m: uint32)
    requires m == 1 || m == 0x80 || m == 0x4000
    ensures 0 <= d % 128 * m <= 127 * 0x4000
  {}

  lemma LowSum(v: nat, product: nat)
    requires v < 16384 && product <= 127 * 0x4000
    ensures (v + product) % B16 == Wrap32(v % B16 + product) % B16
  {}

  lemma HighSum(v: nat, d: uint8, m: uint32)
    requires v < B16 && (m == 0x20_0000 || m == 0x1000_0000 || m == 0)
    ensures Wrap32(v + d % 128 * m) % B16 == v
  {}

  lemma ThreeDigits(u: Bytes) returns (x: nat)
    requires |u| >= 3
    ensures LengthValue(u) == u[0] % 128 + 128 * (u[1] % 128) + 16384 * (u[2] % 128) + 0x20_0000 * x
  {
    x := LengthValue(u[3..]);
    FirstDigit(u);
    FirstDigit(u[1..]);
    FirstDigit(u[2..]);
    assert u[2..][1..] == u[3..];
  }

  /** Adding a length byte as the loop of readPacket() does. */
  method AddDigit(ghost u: Bytes, length: uint16, digit: uint8, multiplier: uint32)
      returns (sum: uint16, next: uint32)
    requires length == LengthValue(u) % B16 && multiplier == Multiplier(|u|)
    ensures sum == LengthValue(u + [digit]) % B16 && next == Multiplier(|u| + 1)
  {
    AppendDigit(u, digit, multiplier);
    NextMultiplier(|u|);
    sum := Wrap32(length + digit % 128 * multiplier) % B16;
    next := Wrap32(multiplier * 128);
  }

  lemma LengthSize(n: nat)
    requires n < LENGTH_LIMIT
    ensures |EncodeLength(n)| == if n < 128 then 1 else if n < 16384 then 2 else if n < 2097152 then 3 else 4
  {}

  /** Two bytes, high byte first. */
  function EncodeWord(n: uint16): Bytes {
    [n / 256, n % 256]
  }

  function Word(high: uint8, low: uint8): uint16 {
    (high as int) * 256 + low
  }

  function EncodeString(s: Bytes): Bytes
    requires |s| < B16
  {
    EncodeWord(|s|) + s
  }

  function Packet(header: uint8, body: Bytes): Bytes {
    [header] + EncodeLength(|body|) + body
  }

  predicate IsPublish(header: uint8) {
    header / 16 == 3
  }

  /** Bits 1 and 2 of a PUBLISH header. */
  function Qos(header: uint8): nat {
    header / 2 % 4
  }

  function PublishHeader(dup: bool, qos: nat, retain: bool): uint8
    requires qos < 3
  {
    PUBLISH + (if dup then 8 else 0) + 2 * qos + (if retain then 1 else 0)
  }

  /** The packet identifier is there when the QoS is above 0. */
  function PublishBody(qos: nat, topic: Bytes, id: uint16, payload: Bytes): Bytes
    requires |topic| < B16
  {
    EncodeString(topic) + (if qos > 0 then EncodeWord(id) else []) + payload
  }

  function PubackPacket(id: uint16): Bytes {
    Packet(PUBACK, EncodeWord(id))
  }

  // ----- reading a PUBLISH body the way the client does -----

  datatype Message = Message(topic: Bytes, payload: Bytes)

  function TopicLength(body: Bytes): uint16
    requires |body| >= 2
  {
    Word(body[0], body[1])
  }

  /** Where the client takes the payload to start: it knows only QoS 1 to have an identifier. */
  function PayloadStart(header: uint8, body: Bytes): nat
    requires |body| >= 2
  {
    2 + TopicLength(body) + if Qos(header) == 1 then 2 else 0
  }

  /** The lengths inside a PUBLISH body stay inside the body. */
  predicate PublishFits(header: uint8, body: Bytes) {
    |body| >= 2 && PayloadStart(header, body) <= |body|
  }

  /** A C string ends at its first NUL. */
  function UpToNul(s: Bytes): Bytes {
    if s == [] || s[0] == 0 then [] else [s[0]] + UpToNul(s[1..])
  }

  function Delivered(header: uint8, body: Bytes): Message
    requires PublishFits(header, body)
  {
    Message(UpToNul(body[2..2 + TopicLength(body)]), body[PayloadStart(header, body)..])
  }

  function MessageId(header: uint8, body: Bytes): uint16
    requires PublishFits(header, body) && Qos(header) == 1
  {
    Word(body[2 + TopicLength(body)], body[2 + TopicLength(body) + 1])
  }

  lemma {:induction false} NulFree(s: Bytes)
    requires 0 !in s
    ensures UpToNul(s) == s
  {
    if s != [] {
      NulFree(s[1..]);
    }
  }

  /** What a well-formed PUBLISH delivers: the topic and payload it was built from, with
      its own identifier, exactly when its QoS is below 2. */
  lemma PublishDelivered(dup: bool, qos: nat, retain: bool, topic: Bytes, id: uint16, payload: Bytes)
    requires qos < 3 && |topic| < B16 && 0 !in topic
    ensures var h, body := PublishHeader(dup, qos, retain), PublishBody(qos, topic, id, payload);
            && IsPublish(h) && Qos(h) == qos && PublishFits(h, body)
            && (Delivered(h, body) == Message(topic, payload) <==> qos < 2)
            && (qos == 1 ==> MessageId(h, body) == id)
            && (qos == 2 ==> Delivered(h, body) == Message(topic, EncodeWord(id) + payload))
  {
    var body := PublishBody(qos, topic, id, payload);
    HeaderFields(dup, qos, retain);
    PublishLayout(qos, topic, id, payload);
    NulFree(topic);
    if qos == 2 {
      assert |EncodeWord(id) + payload| > |payload|;
    }
  }

  lemma HeaderFields(dup: bool, qos: nat, retain: bool)
    requires qos < 3
    ensures IsPublish(PublishHeader(dup, qos, retain)) && Qos(PublishHeader(dup, qos, retain)) == qos
  {}

  /** The bits of a PUBLISH header: RETAIN is bit 0, the QoS bits 1 and 2, DUP bit 3. */
  lemma HeaderBits(dup: bool, qos: nat, retain: bool)
    requires qos < 3
    ensures var h := PublishHeader(dup, qos, retain);
            h / 16 == 3 && (h % 2 == 1 <==> retain) && h / 2 % 4 == qos && (h / 8 % 2 == 1 <==> dup)
  {}

  /** The lengths that the standard gives as examples, at the ends of each size. */
  lemma KnownLengths()
    ensures EncodeLength(0) == [0x00] && EncodeLength(127) == [0x7F]
    ensures EncodeLength(128) == [0x80, 0x01] && EncodeLength(16383) == [0xFF, 0x7F]
    ensures EncodeLength(16384) == [0x80, 0x80, 0x01] && EncodeLength(2097151) == [0xFF, 0xFF, 0x7F]
    ensures EncodeLength(2097152) == [0x80, 0x80, 0x80, 0x01] && EncodeLength(268435455) == [0xFF, 0xFF, 0xFF, 0x7F]
  {}

  /** The standard's example of a PUBLISH: topic "a/b", packet identifier 10 and QoS 1; its
      acknowledgement; and a ping and its answer. */
  lemma KnownPackets()
    ensures Packet(PublishHeader(false, 1, false), PublishBody(1, [0x61, 0x2F, 0x62], 10, []))
         == [0x32, 0x07, 0x00, 0x03, 0x61, 0x2F, 0x62, 0x00, 0x0A]
    ensures PubackPacket(10) == [0x40, 0x02, 0x00, 0x0A]
    ensures Packet(PINGREQ, []) == [0xC0, 0x00] && Packet(PINGRESP, []) == [0xD0, 0x00]
  {}

  /** Where the parts of a PUBLISH body lie. */
  lemma PublishLayout(qos: nat, topic: Bytes, id: uint16, payload: Bytes)
    requires |topic| < B16
    ensures var body, n := PublishBody(qos, topic, id, payload), |topic|;
            && |body| >= 2 + n && TopicLength(body) == n && body[2..2 + n] == topic
            && (qos == 0 ==> body[2 + n..] == payload)
            && (qos > 0 ==> body[2 + n..] == EncodeWord(id) + payload)
            && (qos > 0 ==> |body| >= 4 + n && body[4 + n..] == payload && Word(body[2 + n], body[3 + n]) == id)
  {
    var body, n := PublishBody(qos, topic, id, payload), |topic|;
    assert body[..2] == EncodeWord(n);
    assert body[2..2 + n] == topic;
    if qos > 0 {
      assert body[2 + n..] == EncodeWord(id) + payload;
      assert body[4 + n..] == payload;
    }
  }

  // ----- the stream -----

  /** The body bytes that readPacket takes for a packet with this header and remaining
      length: the length is kept in 16 bits, and a PUBLISH always has its topic length. */
  function BodyRead(header: uint8, length: nat): nat {
    var n := length % B16;
    if IsPublish(header) && n < 2 then 2 else n
  }

  /** The stream stays in step exactly for lengths that fit 16 bits and PUBLISH packets
      that have a topic length. */
  lemma InStepExactly(header: uint8, length: nat)
    ensures BodyRead(header, length) == length <==> length < B16 && (IsPublish(header) ==> length >= 2)
  {}

  /** The packets that readPacket takes whole and counts right. */
  predicate Readable(header: uint8, length: nat) {
    length <= 65532 && (IsPublish(header) ==> length >= 2)
  }
}
