/** PubSubClient of GSMPubSubClient.cpp: packets are built and taken apart in place in one
    256-byte buffer. The modem is a stream of bytes in and a stream of bytes out; a read
    from the empty stream times out. No Stream sink is attached. */
module MqttClient {
  import opened MqttStream
  import opened MqttWire
  import opened Words

  const KEEPALIVE_MS: nat := 60000

  const CONNECTION_TIMEOUT: int := -4
  const CONNECTION_LOST: int := -3
  const CONNECTED: int := 0

  /** One turn of the digit loop; `after` is what is left to encode. */
  method LengthDigit(length: nat) returns (digit: uint8, len: nat, ghost after: Bytes)
    ensures EncodeLength(length) == [digit] + after && after == if len == 0 then [] else EncodeLength(len)
    ensures len < length || len == 0
  {
    LengthHead(length);
    digit := length % 128;
    len := length / 128;
    if len > 0 {
      digit := digit + 128;
    }
    after := if len == 0 then [] else EncodeLength(len);
  }

  /** The digit loop of write(). */
  method LengthBytes(length: nat) returns (lenBuf: Bytes)
    ensures lenBuf == EncodeLength(length)
  {
    lenBuf := [];
    var len := length;
    ghost var whole, rest := EncodeLength(length), EncodeLength(length);
    while true
      invariant lenBuf + rest == whole && rest == EncodeLength(len)
      decreases len
    {
      var digit;
      ghost var before := rest;
      digit, len, rest := LengthDigit(len);
      assert before == [digit] + rest;
      Regroup(lenBuf, [digit], rest);
      lenBuf := lenBuf + [digit];
      if len == 0 {
        break;
      }
    }
  }

  class PubSubClient {
    const buffer: array<uint8>
    var input: Bytes
    var output: Bytes
    var tcpConnected: bool
    var state: int
    var lastInActivity: uint32
    var lastOutActivity: uint32
    var pingOutstanding: bool
    var delivered: seq<Message>

    ghost predicate Valid()
      reads this
    {
      buffer.Length == MAX_PACKET_SIZE
    }

    constructor ()
      ensures Valid() && fresh(buffer) && input == output == [] && delivered == []
    {
      buffer := new uint8[MAX_PACKET_SIZE](_ => 0);
      input, output, tcpConnected, state := [], [], false, -1;
      lastInActivity, lastOutActivity, pingOutstanding, delivered := 0, 0, false, [];
    }

    /** connected(): noticing that the link is gone drops the session. */
    method Connected() returns (rc: bool)
      modifies `state
      ensures rc == tcpConnected
      ensures state == if !rc && old(state) == CONNECTED then CONNECTION_LOST else old(state)
    {
      rc := tcpConnected;
      if !rc {
        if state == CONNECTED {
          state := CONNECTION_LOST;
        }
      }
    }

    // ----- writing -----

    /** write(): the length bytes and the header go backwards into the gap of five bytes
        in front of the body, and the packet is sent from there. The socket takes at most
        `accepted` bytes of it. */
    method Write(header: uint8, length: nat, now: uint32, accepted: nat) returns (ok: bool)
      requires Valid() && length + 5 <= MAX_PACKET_SIZE
      modifies buffer, `output, `lastOutActivity
      ensures var packet := Packet(header, old(buffer[5..5 + length]));
              && (ok <==> accepted >= |packet|)
              && output == old(output) + if ok then packet else packet[..accepted]
      ensures lastOutActivity == now
    {
      ghost var body := buffer[5..5 + length];
      LengthSize(length);
      var lenBuf := LengthBytes(length);
      PutHeader(header, lenBuf, length);
      assert |body| == length;
      var size := length + 1 + |lenBuf|;
      var rc := if accepted < size then accepted else size;
      var packet := buffer[4 - |lenBuf|..5 + length];
      output := output + packet[..rc];
      lastOutActivity := now;
      ok := rc == 1 + |lenBuf| + length;
    }

    method PutHeader(header: uint8, lenBuf: Bytes, length: nat)
      requires Valid() && |lenBuf| <= 4 && length + 5 <= MAX_PACKET_SIZE
      modifies buffer
      ensures buffer[4 - |lenBuf|..5 + length] == [header] + lenBuf + old(buffer[5..5 + length])
    {
      ghost var body, start := buffer[5..5 + length], 4 - |lenBuf|;
      PutGap(header, lenBuf);
      ghost var packet := buffer[start..5 + length];
      assert forall k | 0 <= k < |packet| :: packet[k] == buffer[start + k];
      HeaderInFront(packet, header, lenBuf, body);
    }

    /** Header and length bytes at the end of the gap. */
    method PutGap(header: uint8, lenBuf: Bytes)
      requires Valid() && |lenBuf| <= 4
      modifies buffer
      ensures buffer[4 - |lenBuf|] == header
      ensures forall k | 5 - |lenBuf| <= k < 5 :: buffer[k] == lenBuf[k - 5 + |lenBuf|]
      ensures forall k | 5 <= k < MAX_PACKET_SIZE :: buffer[k] == old(buffer[k])
    {
      var llen := |lenBuf|;
      buffer[4 - llen] := header;
      for i := 0 to llen
        invariant buffer[4 - llen] == header
        invariant forall k | 5 - llen <= k < 5 - llen + i :: buffer[k] == lenBuf[k - 5 + llen]
        invariant forall k | 5 <= k < MAX_PACKET_SIZE :: buffer[k] == old(buffer[k])
      {
        buffer[5 - llen + i] := lenBuf[i];
      }
    }

    /** writeString(): two bytes are left for the length, which is filled in last. */
    method WriteString(s: Bytes, start: nat) returns (pos: nat)
      requires Valid() && start + 2 + |s| <= MAX_PACKET_SIZE
      modifies buffer
      ensures pos == start + 2 + |s| && buffer[start..pos] == EncodeString(s)
      ensures buffer[..start] == old(buffer[..start]) && buffer[pos..] == old(buffer[pos..])
    {
      pos := start + 2;
      var i := 0;
      while i < |s|
        invariant i <= |s| && pos == start + 2 + i
        invariant forall k | start + 2 <= k < pos :: buffer[k] == s[k - start - 2]
        invariant forall k | 0 <= k < MAX_PACKET_SIZE && !(start <= k < pos) :: buffer[k] == old(buffer[k])
      {
        buffer[pos] := s[i];
        pos := pos + 1;
        i := i + 1;
      }
      buffer[pos - i - 2] := i / 256;
      buffer[pos - i - 1] := i % 256;
      assert buffer[start + 2..pos] == s;
      assert buffer[start..pos] == EncodeWord(i) + buffer[start + 2..pos];
    }

    method PutPayload(payload: Bytes, start: nat) returns (length: nat)
      requires Valid() && start + |payload| <= MAX_PACKET_SIZE
      modifies buffer
      ensures length == start + |payload| && buffer[start..length] == payload
      ensures buffer[..start] == old(buffer[..start])
    {
      length := start;
      var i := 0;
      while i < |payload|
        invariant i <= |payload| && length == start + i
        invariant forall k | start <= k < length :: buffer[k] == payload[k - start]
        invariant forall k | 0 <= k < start :: buffer[k] == old(buffer[k])
      {
        buffer[length] := payload[i];
        length := length + 1;
        i := i + 1;
      }
    }

    /** Topic and payload behind the gap of five bytes. */
    method PutPublish(topic: Bytes, payload: Bytes) returns (length: nat)
      requires Valid() && 7 + |topic| + |payload| <= MAX_PACKET_SIZE
      modifies buffer
      ensures length == 7 + |topic| + |payload| && buffer[5..length] == PublishBody(0, topic, 0, payload)
    {
      length := WriteString(topic, 5);
      ghost var prefix, start := buffer[..length], length;
      length := PutPayload(payload, length);
      assert buffer[5..start] == buffer[..start][5..] == prefix[5..] == EncodeString(topic);
      assert buffer[5..length] == buffer[5..start] + buffer[start..length];
      assert PublishBody(0, topic, 0, payload) == EncodeString(topic) + payload;
    }

    /** publish(): refuses without a connection or when the packet might not fit, and
        otherwise sends one well-formed PUBLISH of QoS 0, as much of it as the socket takes.
        The topic is a C string. The sum in the guard stays inside a 16-bit size, as for any
        two objects in one memory. */
    method Publish(topic: Bytes, payload: Bytes, retained: bool, now: uint32, accepted: nat) returns (ok: bool)
      requires Valid() && 0 !in topic && 5 + 2 + |topic| + |payload| < B16
      modifies buffer, `output, `lastOutActivity, `state
      ensures var packet := Packet(PublishHeader(false, 0, retained), PublishBody(0, topic, 0, payload));
              var sent := tcpConnected && 7 + |topic| + |payload| <= MAX_PACKET_SIZE;
              && (ok <==> sent && accepted >= |packet|)
              && output == old(output) +
                   if ok then packet else if sent && accepted < |packet| then packet[..accepted] else []
      ensures var sent := tcpConnected && 7 + |topic| + |payload| <= MAX_PACKET_SIZE;
              lastOutActivity == if sent then now else old(lastOutActivity)
      ensures state == if !tcpConnected && old(state) == CONNECTED then CONNECTION_LOST else old(state)
    {
      var connected := Connected();
      if connected {
        if MAX_PACKET_SIZE < 5 + 2 + |topic| + |payload| {
          return false;
        }
        ok := SendPublish(topic, payload, retained, now, accepted);
        return;
      }
      return false;
    }

    /** A publish that passes the guard. */
    method SendPublish(topic: Bytes, payload: Bytes, retained: bool, now: uint32, accepted: nat) returns (ok: bool)
      requires Valid() && 7 + |topic| + |payload| <= MAX_PACKET_SIZE
      modifies buffer, `output, `lastOutActivity
      ensures var packet := Packet(PublishHeader(false, 0, retained), PublishBody(0, topic, 0, payload));
              && (ok <==> accepted >= |packet|)
              && output == old(output) + if ok then packet else packet[..accepted]
      ensures lastOutActivity == now
    {
      var length := PutPublish(topic, payload);
      var header := PUBLISH;
      if retained {
        header := header + 1;
      }
      ok := Write(header, length - 5, now, accepted);
    }

    // ----- reading -----

    /** readByte(): the next byte of the stream, or a timeout when there is none. */
    method ReadByte() returns (ok: bool, digit: uint8)
      modifies `input
      ensures ok <==> old(input) != []
      ensures ok ==> digit == old(input)[0] && input == old(input)[1..]
      ensures !ok ==> input == []
    {
      ok, digit := false, 0;
      if input != [] {
        ok, digit := true, input[0];
        input := input[1..];
      }
    }

    /** The do-while loop of readPacket(): the length bytes go to the buffer and their value
        to a 16-bit word, until one is the last or no more comes. `sound` is false where
        the code would write past the buffer; there the model stops. */
    method ReadLength(ghost s: Bytes) returns (sound: bool, ok: bool, len: nat, length: uint16)
      requires Valid() && s != [] && input == s[1..] && buffer[0] == s[0]
      modifies buffer, `input
      ensures sound <==> Front(s) <= MAX_PACKET_SIZE
      ensures sound ==>
                && len == Front(s) && (ok <==> LengthEnds(s)) && input == s[Front(s)..]
                && buffer[..Front(s)] == s[..Front(s)]
      ensures sound && ok ==> length == LengthValue(s[1..Front(s)]) % B16
    {
      sound, ok, len, length := true, true, 1, 0;
      var multiplier: uint32 := 1;
      var more := true;
      while more
        invariant sound && ok && 1 <= len <= MAX_PACKET_SIZE && len <= |s|
        invariant input == s[len..] && buffer[..len] == s[..len]
        invariant forall i | 1 <= i < len - 1 :: s[i] >= 128
        invariant if more then len == 1 || s[len - 1] >= 128 else len > 1 && s[len - 1] < 128
        invariant multiplier == Multiplier(len - 1) && length == LengthValue(s[1..len]) % B16
        decreases more, |s| - len
      {
        var digit;
        ok, digit := ReadByte();
        if !ok {
          FrontIs(s, len);
          return;
        }
        assert digit == s[len] && s[len..][1..] == s[len + 1..];
        if len == MAX_PACKET_SIZE {
          FrontIs(s, len);
          sound := false;
          return;
        }
        assert s[1..len] + [digit] == s[1..len + 1];
        buffer[len] := digit;
        length, multiplier := AddDigit(s[1..len], length, digit, multiplier);
        len := len + 1;
        more := digit >= 128;
      }
      FrontIs(s, len);
    }

    /** The two bytes of a topic length, which are read before the others: as many as come.
        `sound` is as for ReadLength. */
    method ReadTopicLength(ghost s: Bytes, count: nat) returns (sound: bool, ok: bool, len: nat)
      requires Valid() && 1 <= count <= |s| && count <= MAX_PACKET_SIZE
      requires input == s[count..] && buffer[..count] == s[..count]
      modifies buffer, `input
      ensures sound <==> (if count + 2 <= |s| then count + 2 else |s|) <= MAX_PACKET_SIZE
      ensures sound ==> (ok <==> count + 2 <= |s|)
      ensures sound && !ok ==> input == []
      ensures sound && ok ==> len == count + 2 && input == s[len..] && buffer[..len] == s[..len]
    {
      sound, ok, len := true, true, count;
      for i := 0 to 2
        invariant sound && ok && len == count + i <= MAX_PACKET_SIZE && len <= |s|
        invariant input == s[len..] && buffer[..len] == s[..len]
      {
        var digit;
        ok, digit := ReadByte();
        if !ok {
          return;
        }
        if len == MAX_PACKET_SIZE {
          sound := false;
          return;
        }
        buffer[len] := digit;
        len := len + 1;
      }
    }

    /** The buffer holds what a read of the first `count` bytes of s keeps. */
    ghost predicate Holds(s: Bytes, count: nat)
      requires Valid()
      reads this, buffer
    {
      && count <= |s|
      && forall k | 0 <= k < count && k < MAX_PACKET_SIZE ::
           buffer[k] == KeptAt(s, count, k)
    }

    /** The body loop of readPacket(): every byte is taken from the stream, and written where
        the 16-bit count of bytes lies in the buffer. */
    method ReadBody(ghost s: Bytes, len0: nat, start: uint16, length: uint16, ghost end: nat)
        returns (ok: bool, len: uint16)
      requires Valid() && len0 <= MAX_PACKET_SIZE && len0 <= |s|
      requires end == len0 + if start < length then length - start else 0
      requires input == s[len0..] && buffer[..len0] == s[..len0]
      modifies buffer, `input
      ensures ok == (end <= |s|) && input == if ok then s[end..] else []
      ensures ok ==> Holds(s, end) && len == if end < B16 then end else end - B16
    {
      len := len0;
      var i := start;
      ghost var c := len0;
      while i < length
        invariant start <= i && (i <= length || i == start) && c == len0 + i - start <= |s|
        invariant input == s[c..] && len == (if c < B16 then c else c - B16) && Holds(s, c)
      {
        var read, digit := ReadByte();
        if !read {
          return false, 0;
        }
        assert digit == s[c] && s[c..][1..] == s[c + 1..];
        if len < MAX_PACKET_SIZE {
          buffer[len] := digit;
        }
        len := (len + 1) % B16;
        c := c + 1;
        i := i + 1;
      }
      ok := true;
    }

    /** The front of a packet whose header is in the buffer, with its topic length if it is a
        PUBLISH. `start` is how much of the body has been read with it. */
    method ReadFront(ghost s: Bytes) returns (sound: bool, ok: bool, count: nat, start: uint16, length: uint16)
      requires Valid() && s != [] && input == s[1..] && buffer[0] == s[0]
      modifies buffer, `input
      ensures sound <==> Written(s) <= MAX_PACKET_SIZE
      ensures sound && !ok ==> input == [] && !Whole(s)
      ensures sound && ok ==>
                && LengthEnds(s) && start == (if IsPublish(s[0]) then 2 else 0)
                && count == Front(s) + start == Written(s) <= |s| && length == LengthValue(s[1..Front(s)]) % B16
                && input == s[count..] && buffer[..count] == s[..count]
    {
      var isPublish := buffer[0] / 16 * 16 == PUBLISH;
      sound, ok, count, length := ReadLength(s);
      start := 0;
      if sound && ok && isPublish {
        sound, ok, count := ReadTopicLength(s, count);
        start := 2;
      }
    }

    /** readPacket(), on any stream: sound exactly when its front fits the buffer, and then
        the packet of the stream is taken, counted and kept as MqttStream says. */
    method ReadPacket() returns (sound: bool, len: uint16, lengthLength: nat)
      requires Valid()
      modifies buffer, `input
      ensures var s := old(input);
              && (sound <==> !Overruns(s))
              && (sound ==> len == Count(s) && input == Rest(s) && buffer[..len] == Seen(s))
              && (sound && len > 0 ==> lengthLength == Front(s) - 1)
    {
      sound, len, lengthLength := true, 0, 0;
      ghost var s := input;
      var ok, digit := ReadByte();
      if !ok {
        return;
      }
      buffer[0] := digit;
      var count, start, length;
      sound, ok, count, start, length := ReadFront(s);
      if !sound || !ok {
        return;
      }
      lengthLength := count - start - 1;
      ghost var end := TotalRead(s, start, length);
      var whole, counted := ReadBody(s, count, start, length, end);
      if !whole {
        return;
      }
      len := if counted > MAX_PACKET_SIZE then 0 else counted;
      CountRead(s, counted);
      assert buffer[..len] == Kept(s, Total(s), len);
    }

    /** Any concatenation of readable packets is read one packet a call. */
    method ReadAll(ghost packets: seq<(uint8, Bytes)>) returns (lens: seq<uint16>)
      requires Valid() && input == Concatenated(packets)
      requires forall i | 0 <= i < |packets| :: Readable(packets[i].0, |packets[i].1|)
      modifies buffer, `input
      ensures input == [] && |lens| == |packets|
      ensures forall i | 0 <= i < |packets| :: lens[i] == SizeSeen(packets[i])
    {
      lens := [];
      while input != []
        invariant |lens| <= |packets| && input == Concatenated(packets[|lens|..])
        invariant forall i | 0 <= i < |lens| :: lens[i] == SizeSeen(packets[i])
        decreases |packets| - |lens|
      {
        ghost var k := |lens|;
        assert packets[k..][0] == packets[k] && packets[k..][1..] == packets[k + 1..];
        var len := ReadFirst(packets[k..], packets[k], Concatenated(packets[k + 1..]));
        lens := lens + [len];
      }
      ConcatenatedNonempty(packets[|lens|..]);
    }

    method ReadFirst(ghost packets: seq<(uint8, Bytes)>, ghost first: (uint8, Bytes), ghost rest: Bytes)
        returns (len: uint16)
      requires Valid() && packets != [] && first == packets[0] && rest == Concatenated(packets[1..])
      requires input == Concatenated(packets) && Readable(first.0, |first.1|)
      modifies buffer, `input
      ensures input == rest && len == SizeSeen(first)
    {
      PacketFront(first.0, first.1, rest);
      ReadRightExactly(first.0, first.1, rest);
      var sound, lengthLength;
      sound, len, lengthLength := ReadPacket();
    }

    /** Any concatenation of readable packets, handled one packet a call: the messages that
        they deliver and the replies that they call for, in their order. */
    method HandleAll(t: uint32, ghost packets: seq<(uint8, Bytes)>)
      requires Valid() && input == Concatenated(packets)
      requires AllWellFormed(packets)
      modifies buffer, `input, `output, `delivered, `lastInActivity, `lastOutActivity, `pingOutstanding
      ensures input == []
      ensures delivered == old(delivered) + AllDelivered(packets)
      ensures output == old(output) + AllReplies(packets)
    {
      ghost var todo := packets;
      while input != []
        invariant input == Concatenated(todo) && AllWellFormed(todo)
        invariant delivered + AllDelivered(todo) == old(delivered) + AllDelivered(packets)
        invariant output + AllReplies(todo) == old(output) + AllReplies(packets)
        decreases |todo|
      {
        var sound := HandleFirst(t, todo);
        todo := todo[1..];
      }
      ConcatenatedNonempty(todo);
    }

    /** The first of some packets. */
    method HandleFirst(t: uint32, ghost packets: seq<(uint8, Bytes)>) returns (sound: bool)
      requires Valid() && packets != [] && input == Concatenated(packets) && AllWellFormed(packets)
      modifies buffer, `input, `output, `delivered, `lastInActivity, `lastOutActivity, `pingOutstanding
      ensures sound && input == Concatenated(packets[1..])
      ensures delivered + AllDelivered(packets[1..]) == old(delivered) + AllDelivered(packets)
      ensures output + AllReplies(packets[1..]) == old(output) + AllReplies(packets)
    {
      ghost var messages, answer := FirstHandled(packets);
      sound := HandleOne(t, input, Concatenated(packets[1..]), messages, answer);
      Regroup(old(delivered), messages, AllDelivered(packets[1..]));
      Regroup(old(output), answer, AllReplies(packets[1..]));
    }

    /** One packet of a stream that is handled soundly. */
    method HandleOne(t: uint32, ghost s: Bytes, ghost rest: Bytes, ghost messages: seq<Message>, ghost answer: Bytes)
        returns (sound: bool)
      requires Valid() && input == s && Sound(s)
      requires rest == Rest(s) && messages == Deliveries(s) && answer == Answer(s)
      modifies buffer, `input, `output, `delivered, `lastInActivity, `lastOutActivity, `pingOutstanding
      ensures sound && input == rest && delivered == old(delivered) + messages && output == old(output) + answer
    {
      sound := HandlePacket(t);
    }

    /** Nothing has gone one of the two ways for longer than the keep-alive time. */
    ghost predicate Quiet(t: uint32)
      reads this
    {
      Sub32(t, lastInActivity) > KEEPALIVE_MS || Sub32(t, lastOutActivity) > KEEPALIVE_MS
    }

    /** The keep-alive part of loop(): a ping when either direction has been quiet too long,
        and the end of the session when one is still unanswered. */
    method KeepAlive(t: uint32) returns (alive: bool)
      requires Valid()
      modifies buffer, `output, `lastInActivity, `lastOutActivity, `pingOutstanding, `state, `tcpConnected
      ensures var quiet := old(Quiet(t));
              && alive == !(quiet && old(pingOutstanding))
              && (!alive ==> state == CONNECTION_TIMEOUT && !tcpConnected && output == old(output) && pingOutstanding)
              && (alive ==> tcpConnected == old(tcpConnected) && state == old(state))
              && (alive && quiet ==>
                    && output == old(output) + Packet(PINGREQ, []) && pingOutstanding
                    && lastInActivity == t && lastOutActivity == t)
              && (!quiet ==> unchanged(`output, `pingOutstanding, `lastInActivity, `lastOutActivity))
    {
      alive := true;
      if Sub32(t, lastInActivity) > KEEPALIVE_MS || Sub32(t, lastOutActivity) > KEEPALIVE_MS {
        if pingOutstanding {
          state := CONNECTION_TIMEOUT;
          tcpConnected := false;
          alive := false;
        } else {
          buffer[0] := PINGREQ;
          buffer[1] := 0;
          assert buffer[..2] == Packet(PINGREQ, []);
          output := output + buffer[..2];
          lastOutActivity := t;
          lastInActivity := t;
          pingOutstanding := true;
        }
      }
    }

    /** loop() on a PUBLISH in the buffer: the callback gets topic and payload, and QoS 1 is
        answered with the identifier that came. `sound` is false where the payload's length
        would be below zero; otherwise every index is inside the packet. */
    method HandlePublish(len: nat, llen: nat, t: uint32) returns (sound: bool)
      requires Valid() && 0 < len <= MAX_PACKET_SIZE
      modifies buffer, `output, `delivered, `lastOutActivity
      ensures var p := old(buffer[..len]);
              && (sound <==> PayloadInside(p, llen))
              && (sound ==> delivered == old(delivered) + [MessageIn(p, llen)])
              && (sound ==> output == old(output) + if Qos(p[0]) == 1 then PubackPacket(IdIn(p, llen)) else [])
              && (sound ==> lastOutActivity == if Qos(p[0]) == 1 then t else old(lastOutActivity))
    {
      var data := buffer[..len];
      if len < llen + 3 {
        return false;
      }
      var tl := Word(data[llen + 1], data[llen + 2]);
      var qos1 := data[0] / 2 % 4 == 1;
      var start := llen + 3 + tl + if qos1 then 2 else 0;
      assert start == PayloadAt(data, llen);
      if start > len {
        return false;
      }
      var topic := data[llen + 3..llen + 3 + tl];
      var message := Message(UpToNul(topic), data[start..]);
      assert message == MessageIn(data, llen);
      delivered := delivered + [message];
      if qos1 {
        var msgId := Word(data[llen + 3 + tl], data[llen + 3 + tl + 1]);
        assert msgId == IdIn(data, llen);
        Acknowledge(msgId, t);
      }
      sound := true;
    }

    method Acknowledge(msgId: uint16, t: uint32)
      requires Valid()
      modifies buffer, `output, `lastOutActivity
      ensures output == old(output) + PubackPacket(msgId) && lastOutActivity == t
    {
      buffer[0] := PUBACK;
      buffer[1] := 2;
      buffer[2] := msgId / 256;
      buffer[3] := msgId % 256;
      assert buffer[..4] == PubackPacket(msgId);
      output := output + buffer[..4];
      lastOutActivity := t;
    }

    /** The part of loop() that reads and answers one packet, when bytes have come in. */
    method HandlePacket(t: uint32) returns (sound: bool)
      requires Valid()
      modifies buffer, `input, `output, `delivered, `lastInActivity, `lastOutActivity, `pingOutstanding
      ensures var s := old(input);
              && (sound <==> Sound(s))
              && (sound ==>
                    && input == Rest(s) && delivered == old(delivered) + Deliveries(s)
                    && output == old(output) + Answer(s) && pingOutstanding == (old(pingOutstanding) && !IsPong(s))
                    && lastInActivity == (if Count(s) > 0 then t else old(lastInActivity))
                    && lastOutActivity == (if IsAcknowledged(s) then t else old(lastOutActivity)))
    {
      var len, llen;
      sound, len, llen := ReadPacket();
      if sound && len > 0 {
        lastInActivity := t;
        sound := React(len, llen, t, buffer[..len]);
      }
    }

    /** What loop() does with a packet in the buffer. */
    method React(len: nat, llen: nat, t: uint32, ghost packet: Bytes) returns (sound: bool)
      requires Valid() && 0 < len <= MAX_PACKET_SIZE && packet == buffer[..len]
      modifies buffer, `output, `delivered, `lastOutActivity, `pingOutstanding
      ensures sound <==> PacketSound(packet, llen)
      ensures sound ==> delivered == old(delivered) + DeliveriesOf(packet, llen)
      ensures sound ==> output == old(output) + AnswerTo(packet, llen)
      ensures sound ==> pingOutstanding == (old(pingOutstanding) && !IsKind(packet[0], PINGRESP))
      ensures sound ==>
                lastOutActivity == if IsKind(packet[0], PUBLISH) && Qos(packet[0]) == 1 then t else old(lastOutActivity)
    {
      sound := true;
      var kind := buffer[0] / 16 * 16;
      assert IsKind(packet[0], kind);
      if kind == PUBLISH {
        sound := HandlePublish(len, llen, t);
      } else if kind == PINGREQ {
        AnswerPing();
      } else if kind == PINGRESP {
        pingOutstanding := false;
      }
    }

    method AnswerPing()
      requires Valid()
      modifies buffer, `output
      ensures output == old(output) + Packet(PINGRESP, [])
    {
      buffer[0] := PINGRESP;
      buffer[1] := 0;
      assert buffer[..2] == Packet(PINGRESP, []);
      output := output + buffer[..2];
    }

    /** A packet, if bytes have come in. */
    method TakeInput(t: uint32) returns (sound: bool)
      requires Valid()
      modifies buffer, `input, `output, `delivered, `lastInActivity, `lastOutActivity, `pingOutstanding
      ensures var s := old(input);
              && (sound <==> Sound(s))
              && (sound ==>
                    && input == Rest(s) && delivered == old(delivered) + Deliveries(s)
                    && output == old(output) + Answer(s) && pingOutstanding == (old(pingOutstanding) && !IsPong(s))
                    && lastInActivity == (if Count(s) > 0 then t else old(lastInActivity))
                    && lastOutActivity == (if IsAcknowledged(s) then t else old(lastOutActivity)))
    {
      sound := true;
      if input != [] {
        sound := HandlePacket(t);
      }
    }

    /** loop(), on any stream: nothing without a connection; otherwise the keep-alive check
        and, if the session survives it and bytes have come in, one packet. */
    method Loop(t: uint32) returns (ok: bool, sound: bool)
      requires Valid()
      modifies this, buffer
      ensures Valid()
      ensures !old(tcpConnected) ==> !ok && sound
      ensures old(tcpConnected) ==> ok == !old(pingOutstanding && Quiet(t))
      ensures sound <==> (ok ==> Sound(old(input)))
      ensures old(tcpConnected) && old(Sub32(t, lastInActivity)) <= 60000 && old(Sub32(t, lastOutActivity)) <= 60000 ==>
                ok && (sound ==> output == old(output) + Answer(old(input)))
      ensures ok ==> tcpConnected && state == old(state)
      ensures !ok ==> !tcpConnected && unchanged(`input, `output, `delivered)
      ensures !ok && old(tcpConnected) ==> state == CONNECTION_TIMEOUT && pingOutstanding
      ensures ok && sound ==>
                var s := old(input);
                && input == Rest(s)
                && output == old(output) + (if old(Quiet(t)) then Packet(PINGREQ, []) else []) + Answer(s)
                && delivered == old(delivered) + Deliveries(s)
                && pingOutstanding == ((old(pingOutstanding) || old(Quiet(t))) && !IsPong(s))
                && lastInActivity == (if old(Quiet(t)) || Count(s) > 0 then t else old(lastInActivity))
                && lastOutActivity == (if old(Quiet(t)) || IsAcknowledged(s) then t else old(lastOutActivity))
    {
      sound := true;
      var connected := Connected();
      if connected {
        var alive := KeepAlive(t);
        if !alive {
          return false, true;
        }
        assert output == old(output) + if old(Quiet(t)) then Packet(PINGREQ, []) else [];
        sound := TakeInput(t);
        return true, sound;
      }
      return false, true;
    }
  }

  /** Any number of calls of loop() with one readable, well-formed packet for each: those
      before the session ends deliver exactly their messages, in order, and it ends only by
      an unanswered ping. */
  method LoopAll(client: PubSubClient, times: seq<uint32>, ghost packets: seq<(uint8, Bytes)>) returns (n: nat)
    requires client.Valid() && client.tcpConnected && |times| == |packets|
    requires client.input == Concatenated(packets) && AllWellFormed(packets)
    modifies client, client.buffer
    ensures client.Valid() && n <= |packets| && client.input == Concatenated(packets[n..])
    ensures AllWellFormed(packets[n..])
    ensures client.delivered + AllDelivered(packets[n..]) == old(client.delivered) + AllDelivered(packets)
    ensures if n == |packets| then client.tcpConnected
            else !client.tcpConnected && client.state == CONNECTION_TIMEOUT && client.pingOutstanding
  {
    n := 0;
    assert packets[0..] == packets;
    while n < |times|
      invariant client.Valid() && client.tcpConnected && n <= |packets|
      invariant client.input == Concatenated(packets[n..]) && AllWellFormed(packets[n..])
      invariant client.delivered + AllDelivered(packets[n..]) == old(client.delivered) + AllDelivered(packets)
    {
      assert packets[n..] != [] && packets[n..][1..] == packets[n + 1..];
      var ok := LoopFirst(client, times[n], packets[n..], packets[n + 1..]);
      if !ok {
        return;
      }
      n := n + 1;
    }
  }

  /** One such call. */
  method LoopFirst(client: PubSubClient, t: uint32, ghost packets: seq<(uint8, Bytes)>, ghost rest: seq<(uint8, Bytes)>)
      returns (ok: bool)
    requires client.Valid() && client.tcpConnected
    requires packets != [] && rest == packets[1..] && AllWellFormed(packets) && client.input == Concatenated(packets)
    modifies client, client.buffer
    ensures client.Valid() && client.tcpConnected == ok
    ensures ok ==> client.input == Concatenated(rest)
    ensures ok ==> client.delivered + AllDelivered(rest) == old(client.delivered) + AllDelivered(packets)
    ensures !ok ==> client.input == old(client.input) && client.delivered == old(client.delivered)
    ensures !ok ==> client.state == CONNECTION_TIMEOUT && client.pingOutstanding
  {
    ghost var messages, answer := FirstHandled(packets);
    ok := LoopOne(client, t, client.input, Concatenated(rest), messages);
    Regroup(old(client.delivered), messages, AllDelivered(rest));
  }

  method LoopOne(client: PubSubClient, t: uint32, ghost s: Bytes, ghost rest: Bytes, ghost messages: seq<Message>)
      returns (ok: bool)
    requires client.Valid() && client.tcpConnected && client.input == s && Sound(s)
    requires rest == Rest(s) && messages == Deliveries(s)
    modifies client, client.buffer
    ensures client.Valid() && client.tcpConnected == ok
    ensures if ok then client.input == rest && client.delivered == old(client.delivered) + messages
            else client.input == s && client.delivered == old(client.delivered)
    ensures !ok ==> client.state == CONNECTION_TIMEOUT && client.pingOutstanding
  {
    var sound;
    ok, sound := client.Loop(t);
  }

  /** A peer that says nothing: the first minute in which nothing has come in, or nothing has
      gone out, is answered by one ping, and the next one ends the session. */
  method SilentPeer(client: PubSubClient, first: uint32, second: uint32) returns (ok: bool)
    requires client.Valid() && client.tcpConnected && !client.pingOutstanding && client.input == []
    requires Sub32(first, client.lastInActivity) > 60000 || Sub32(first, client.lastOutActivity) > 60000
    requires Sub32(second, first) > 60000
    modifies client, client.buffer
    ensures !ok && !client.tcpConnected && client.state == CONNECTION_TIMEOUT
    ensures client.output == old(client.output) + Packet(PINGREQ, []) && client.delivered == old(client.delivered)
  {
    var sound;
    ok, sound := client.Loop(first);
    ok, sound := client.Loop(second);
  }

  /** A header, length bytes and a body, byte by byte. */
  lemma HeaderInFront(packet: Bytes, header: uint8, lenBuf: Bytes, body: Bytes)
    requires |packet| == 1 + |lenBuf| + |body| && packet[0] == header
    requires forall k | 0 <= k < |lenBuf| :: packet[1 + k] == lenBuf[k]
    requires forall k | 0 <= k < |body| :: packet[1 + |lenBuf| + k] == body[k]
    ensures packet == [header] + lenBuf + body
  {}

  /** What one client publishes, another that is connected and answers its pings hands to
      its callback unchanged. */
  method PublishAcross(sender: PubSubClient, receiver: PubSubClient, topic: Bytes, payload: Bytes,
                       retained: bool, sent: uint32, accepted: nat, received: uint32)
      returns (published: bool, ok: bool)
    requires sender.Valid() && receiver.Valid() && sender != receiver && sender.buffer != receiver.buffer
    requires 0 !in topic && 7 + |topic| + |payload| < B16
    requires sender.output == [] && receiver.input == []
    modifies sender, sender.buffer, receiver, receiver.buffer
    ensures published ==> old(sender.tcpConnected) && 7 + |topic| + |payload| <= 256
    ensures old(sender.tcpConnected) && 7 + |topic| + |payload| <= 256 <= accepted ==> published
    ensures published && ok ==>
              receiver.delivered == old(receiver.delivered) + [Message(topic, payload)] && receiver.input == []
    ensures published && old(receiver.tcpConnected && !receiver.pingOutstanding) ==> ok
  {
    ghost var p;
    published, p := PublishFirst(sender, topic, payload, retained, sent, accepted);
    ok := false;
    if published {
      receiver.input := sender.output;
      ok := Receive(receiver, received, p, Message(topic, payload));
    }
  }

  /** A publish on a stream that is empty so far. */
  method PublishFirst(sender: PubSubClient, topic: Bytes, payload: Bytes, retained: bool, sent: uint32, accepted: nat)
      returns (published: bool, ghost p: Bytes)
    requires sender.Valid() && sender.output == [] && 0 !in topic && 7 + |topic| + |payload| < B16
    modifies sender, sender.buffer
    ensures published ==> old(sender.tcpConnected) && 7 + |topic| + |payload| <= MAX_PACKET_SIZE
    ensures old(sender.tcpConnected) && 7 + |topic| + |payload| <= MAX_PACKET_SIZE <= accepted ==> published
    ensures published ==>
              sender.output == p && Sound(p) && Rest(p) == [] && Deliveries(p) == [Message(topic, payload)]
  {
    p := PublishTaken(topic, payload, retained);
    published := sender.Publish(topic, payload, retained, sent, accepted);
    assert [] + p == p;
  }

  method Receive(receiver: PubSubClient, received: uint32, ghost p: Bytes, ghost message: Message) returns (ok: bool)
    requires receiver.Valid() && receiver.input == p
    requires Sound(p) && Rest(p) == [] && Deliveries(p) == [message]
    modifies receiver, receiver.buffer
    ensures ok ==> receiver.delivered == old(receiver.delivered) + [message] && receiver.input == []
    ensures old(receiver.tcpConnected && !receiver.pingOutstanding) ==> ok
  {
    var sound;
    ok, sound := receiver.Loop(received);
  }

  /** A publish that fits the buffer is taken whole and delivered unchanged. */
  lemma PublishTaken(topic: Bytes, payload: Bytes, retained: bool) returns (p: Bytes)
    requires 0 !in topic && 7 + |topic| + |payload| < B16
    ensures p == Packet(PublishHeader(false, 0, retained), PublishBody(0, topic, 0, payload))
    ensures |p| <= 7 + |topic| + |payload|
    ensures 7 + |topic| + |payload| <= MAX_PACKET_SIZE ==>
              Sound(p) && Rest(p) == [] && Deliveries(p) == [Message(topic, payload)]
  {
    var header, body := PublishHeader(false, 0, retained), PublishBody(0, topic, 0, payload);
    p := Packet(header, body);
    LengthSize(|body|);
    if 7 + |topic| + |payload| <= MAX_PACKET_SIZE {
      PublishDelivered(false, 0, retained, topic, 0, payload);
      assert p == p + [];
      PacketHandled(header, body, []);
      PacketSeen(header, body, []);
    }
  }

  /** The size of a packet, or 0 if it is over the buffer's. */
  ghost function SizeSeen(packet: (uint8, Bytes)): nat {
    var size := |Packet(packet.0, packet.1)|;
    if size > MAX_PACKET_SIZE then 0 else size
  }

  function Concatenated(packets: seq<(uint8, Bytes)>): Bytes {
    if packets == [] then [] else Packet(packets[0].0, packets[0].1) + Concatenated(packets[1..])
  }

  /** A readable packet that, if it is a PUBLISH that is handled, has its topic and identifier
      inside. */
  ghost predicate WellFormed(header: uint8, body: Bytes) {
    && Readable(header, |body|)
    && (IsPublish(header) && |Packet(header, body)| <= MAX_PACKET_SIZE ==> PublishFits(header, body))
  }

  ghost function DeliveredBy(header: uint8, body: Bytes): seq<Message>
    requires WellFormed(header, body)
  {
    if IsPublish(header) && |Packet(header, body)| <= MAX_PACKET_SIZE then [Delivered(header, body)] else []
  }

  ghost predicate AllWellFormed(packets: seq<(uint8, Bytes)>) {
    packets == [] || (WellFormed(packets[0].0, packets[0].1) && AllWellFormed(packets[1..]))
  }

  ghost function AllDelivered(packets: seq<(uint8, Bytes)>): seq<Message>
    requires AllWellFormed(packets)
  {
    if packets == [] then [] else DeliveredBy(packets[0].0, packets[0].1) + AllDelivered(packets[1..])
  }

  ghost function AllReplies(packets: seq<(uint8, Bytes)>): Bytes
    requires AllWellFormed(packets)
  {
    if packets == [] then [] else Reply(packets[0].0, packets[0].1) + AllReplies(packets[1..])
  }

  /** loop() handles the first packet soundly, and by itself. */
  lemma FirstHandled(packets: seq<(uint8, Bytes)>) returns (messages: seq<Message>, answer: Bytes)
    requires packets != [] && AllWellFormed(packets)
    ensures var s := Concatenated(packets);
            && Sound(s) && Rest(s) == Concatenated(packets[1..])
            && messages == Deliveries(s) && answer == Answer(s)
            && AllDelivered(packets) == messages + AllDelivered(packets[1..])
            && AllReplies(packets) == answer + AllReplies(packets[1..])
  {
    var (header, body) := packets[0];
    PacketHandled(header, body, Concatenated(packets[1..]));
    PacketSeen(header, body, Concatenated(packets[1..]));
    messages, answer := Deliveries(Concatenated(packets)), Answer(Concatenated(packets));
  }

  lemma Regroup<T>(a: seq<T>, b: seq<T>, c: seq<T>)
    ensures a + b + c == a + (b + c)
  {}

  lemma ConcatenatedNonempty(packets: seq<(uint8, Bytes)>)
    ensures Concatenated(packets) == [] <==> packets == []
  {}
}
