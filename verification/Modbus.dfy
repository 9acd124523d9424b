/**
  Modbus frames (main/modbus.c): the requests that the master builds, the slave's answers and
  the checks on both sides. MODBUS Application Protocol V1.1b3, section 6.

  The registers behind the slave are reached through a `Port`, so that framing is proved for
  every register bank.
 */
module Modbus {
  import opened Bits
  import opened Memory
  import opened Crc16

  const ILLEGAL_FUNCTION: byte := 1
  const ILLEGAL_ADDRESS: byte := 2
  const ILLEGAL_VALUE: byte := 3

  const MDB_COILS_RW: nat := 1
  const MDB_HOLDING_REGS_RW: nat := 3

  const MODBUS_MAX_MODBUS_REGS_NUM: nat := 125
  const MODBUS_MAX_READ_COILS: nat := 2000
  const MODBUS_MAX_WRITE_COILS: nat := 1968
  const MODBUS_TCP_HEADER_SIZE: nat := 6

  /** The buffers of the C code hold every frame whose length a byte can announce. */
  const BUFFER: nat := 264

  /**
    What the slave needs of its registers: the address of a word, reading and writing bytes
    with a result code, and coils, of which only the number of bytes matters here.
   */
  datatype Port<!S> = Port(
    find: (nat, nat) -> Option<nat>,
    getBuffer: (S, nat, nat) -> seq<byte>,
    setBuffer: (S, nat, seq<byte>) -> (S, int),
    setValue: (S, nat, seq<byte>) -> (S, int),
    getCoils: (S, nat, nat) -> seq<byte>,
    setCoils: (S, nat, seq<byte>) -> S)

  // ------------------------------------------------------------------------- byte order

  /** A word in network order. */
  function Big(w: u16): (s: seq<byte>)
    ensures |s| == 2
  {
    [w / 256, w % 256]
  }

  /** `htons_buff`: the two bytes of every word change places. */
  function Swapped(s: seq<byte>): (r: seq<byte>)
    ensures |r| == |s|
  {
    if |s| < 2 then s else [s[1], s[0]] + Swapped(s[2..])
  }

  lemma {:induction false} SwappedTwice(s: seq<byte>)
    ensures Swapped(Swapped(s)) == s
  {
    if |s| >= 2 {
      assert Swapped(s)[2..] == Swapped(s[2..]);
      SwappedTwice(s[2..]);
    }
  }

  function WithCrc(body: seq<byte>): (f: seq<byte>)
    ensures |f| == |body| + 2
  {
    body + Tail(ModbusCrc(body))
  }

  lemma WithCrcChecks(body: seq<byte>)
    requires body != []
    ensures ModbusCheck(WithCrc(body))
  {
    assert WithCrc(body)[..|body|] == body;
  }

  // --------------------------------------------------------------------------- requests

  /** The bytes that the caller of `modbus_make_packet` has to provide. */
  predicate DataFits(mbFunction: byte, n: u16, data: Option<seq<byte>>) {
    match mbFunction
    case 16 => data.Some? ==> |data.value| >= 2 * n
    case 15 => data.Some? ==> |data.value| == (n + 7) / 8
    case 6 => data.Some? ==> |data.value| >= 2
    case 5 => data.Some? && |data.value| >= 1
    case _ => true
  }

  /** `modbus_make_packet` before the checksum. The coils of function 15 come packed. */
  function RequestBody(slave: byte, mbFunction: byte, start: u16, n: u16,
                       data: Option<seq<byte>>): (r: Option<seq<byte>>)
    requires DataFits(mbFunction, n, data)
  {
    var head := [slave, mbFunction] + Big(start);
    if 1 <= mbFunction <= 4 then Some(head + Big(n))
    else if mbFunction == 16 && n <= 127 then
      if data == None then None else Some(head + Big(n) + [2 * n] + Swapped(data.value[..2 * n]))
    else if mbFunction == 15 && n <= 254 then
      if data == None then None else Some(head + Big(n) + [(n + 7) / 8] + data.value)
    else if mbFunction == 6 then
      if data == None then None else Some(head + [data.value[1], data.value[0]])
    else if mbFunction == 5 then Some(head + if data.value[0] % 2 == 1 then [0xff, 0] else [0, 0])
    else None
  }

  /** `it_modbus_simply_check` */
  predicate SimplyChecks(buf: seq<byte>, length: nat)
    requires 2 <= length <= |buf|
  {
    (buf[1] <= 16 || buf[1] == 0x41) && ModbusCheck(buf[..length])
  }

  /** `it_modbus_request_check` */
  function RequestCheck(buf: seq<byte>, length: nat): int
    requires |buf| >= BUFFER && length >= 2
  {
    if length > 256 then 0
    else if buf[1] <= 6 then if SimplyChecks(buf, 8) then 1 else 0
    else if buf[1] == 15 || buf[1] == 16 then
      var announced: nat := buf[6];
      if SimplyChecks(buf, 9 + announced) then 1 else 0
    else if buf[1] == 0x41 then if SimplyChecks(buf, length) then 1 else 0
    else -1
  }

  /** The functions that master and slave share. */
  predicate Shared(mbFunction: byte) {
    1 <= mbFunction <= 6 || mbFunction == 15 || mbFunction == 16
  }

  /** How long a request is, and where it says so. */
  lemma RequestShape(slave: byte, mbFunction: byte, start: u16, n: u16, data: Option<seq<byte>>, body: seq<byte>)
    requires Shared(mbFunction) && DataFits(mbFunction, n, data)
    requires RequestBody(slave, mbFunction, start, n, data) == Some(body)
    ensures |body| >= 6 && body[1] == mbFunction && (mbFunction <= 6 ==> |body| == 6)
    ensures mbFunction >= 15 ==> |body| >= 7 && |body| - 7 == body[6]
    ensures mbFunction == 15 ==> |body| <= 39
    ensures mbFunction == 16 ==> |body| == 7 + 2 * n
  {
  }

  /** A body that announces its own length passes the check exactly when the frame fits into 256 bytes. */
  lemma BodyPasses(body: seq<byte>, buf: seq<byte>)
    requires |body| >= 6 && |buf| >= BUFFER && WithCrc(body) <= buf
    requires Shared(body[1]) && (body[1] <= 6 ==> |body| == 6)
    requires body[1] >= 15 ==> |body| >= 7 && |body| - 7 == body[6]
    ensures RequestCheck(buf, |body| + 2) == 1 <==> |body| <= 254
  {
    assert forall k :: 0 <= k < |body| ==> buf[k] == WithCrc(body)[k] == body[k];
    assert buf[..|body| + 2] == WithCrc(body);
    WithCrcChecks(body);
  }

  /** Every request that is built passes the slave's check, function 16 exactly up to 123 words. */
  lemma RequestPasses(slave: byte, mbFunction: byte, start: u16, n: u16, data: Option<seq<byte>>, buf: seq<byte>)
    requires Shared(mbFunction) && DataFits(mbFunction, n, data)
    requires RequestBody(slave, mbFunction, start, n, data).Some? && |buf| >= BUFFER
    requires WithCrc(RequestBody(slave, mbFunction, start, n, data).value) <= buf
    ensures RequestCheck(buf, |RequestBody(slave, mbFunction, start, n, data).value| + 2) == 1
       <==> (mbFunction == 16 ==> n <= 123)
  {
    var body := RequestBody(slave, mbFunction, start, n, data).value;
    RequestShape(slave, mbFunction, start, n, data, body);
    BodyPasses(body, buf);
  }

  // ---------------------------------------------------------------------------- answers

  datatype Answer = Fine(body: seq<byte>) | Exception(code: byte)

  function WordAt(buf: seq<byte>, i: nat): u16
    requires i + 1 < |buf|
  {
    Word(buf[i + 1], buf[i])
  }

  /** The exception code for a negative result of the register bank. */
  function CodeOf(result: int): byte {
    if result == -3 then ILLEGAL_VALUE else ILLEGAL_ADDRESS
  }

  /** A register bank answers with as many bytes as it was asked for. */
  function Exactly(s: seq<byte>, n: nat): (r: seq<byte>)
    ensures |r| == n
  {
    if |s| == n then s else Zeros(n)
  }

  /** `coil_number + num_bit - 1` in 16 bits. */
  function LastCoil(start: u16, n: u16): u16 {
    if start + n == 0 then 65535 else if start + n > 65536 then start + n - 65537 else start + n - 1
  }

  /** Functions 0, 1 and 2. The lookup of the last coil wraps at 16 bits. */
  function ReadCoils<S>(port: Port<S>, s: S, buf: seq<byte>): Answer
    requires |buf| >= 8
  {
    var start, n := WordAt(buf, 2), WordAt(buf, 4);
    var p := port.find(start, buf[1]);
    if p == None || port.find(LastCoil(start, n), buf[1]) == None then Exception(ILLEGAL_ADDRESS)
    else if n == 0 || n > MODBUS_MAX_READ_COILS then Exception(ILLEGAL_VALUE)
    else Fine([buf[0], buf[1], (n + 7) / 8] + Exactly(port.getCoils(s, p.value, n), (n + 7) / 8))
  }

  /** Functions 3 and 4: a wrong number of words is reported before a wrong address. */
  function ReadRegisters<S>(port: Port<S>, s: S, buf: seq<byte>): Answer
    requires |buf| >= 8
  {
    var start, n := WordAt(buf, 2), WordAt(buf, 4);
    var p := port.find(start, buf[1]);
    if n < 1 || n > MODBUS_MAX_MODBUS_REGS_NUM then Exception(ILLEGAL_VALUE)
    else if p == None then Exception(ILLEGAL_ADDRESS)
    else Fine([buf[0], buf[1], 2 * n] + Swapped(Exactly(port.getBuffer(s, p.value, 2 * n), 2 * n)))
  }

  /** Function 5 */
  function WriteCoil<S>(port: Port<S>, s: S, buf: seq<byte>): (S, Answer)
    requires |buf| >= 8
  {
    var p := port.find(WordAt(buf, 2), MDB_COILS_RW);
    if p == None then (s, Exception(ILLEGAL_ADDRESS))
    else if WordAt(buf, 4) == 0xff00 then (port.setCoils(s, p.value, [1]), Fine(buf[..6]))
    else if WordAt(buf, 4) == 0 then (port.setCoils(s, p.value, [0]), Fine(buf[..6]))
    else (s, Exception(ILLEGAL_VALUE))
  }

  /** Function 6: the word goes to `regs_set` low byte first. */
  function WriteRegister<S>(port: Port<S>, s: S, buf: seq<byte>): (S, Answer)
    requires |buf| >= 8
  {
    var p := port.find(WordAt(buf, 2), MDB_HOLDING_REGS_RW);
    if p == None then (s, Exception(ILLEGAL_ADDRESS))
    else
      var done := port.setValue(s, p.value, [buf[5], buf[4]]);
      (done.0, if done.1 < 0 then Exception(CodeOf(done.1)) else Fine(buf[..6]))
  }

  /** Function 15 */
  function WriteCoils<S>(port: Port<S>, s: S, buf: seq<byte>): (S, Answer)
    requires |buf| >= BUFFER
  {
    var start, n := WordAt(buf, 2), WordAt(buf, 4);
    var p := port.find(start, MDB_COILS_RW);
    if p == None || port.find(LastCoil(start, n), MDB_COILS_RW) == None then (s, Exception(ILLEGAL_ADDRESS))
    else if n == 0 || n > MODBUS_MAX_WRITE_COILS || buf[6] != (n + 7) / 8 then (s, Exception(ILLEGAL_VALUE))
    else (port.setCoils(s, p.value, buf[7..7 + (n + 7) / 8]), Fine(buf[..6]))
  }

  /** Function 16: the number of bytes that the frame announces is not looked at. */
  function WriteRegisters<S>(port: Port<S>, s: S, buf: seq<byte>): (S, Answer)
    requires |buf| >= BUFFER
  {
    var n := WordAt(buf, 4);
    var p := port.find(WordAt(buf, 2), MDB_HOLDING_REGS_RW);
    if n < 1 || n > MODBUS_MAX_MODBUS_REGS_NUM then (s, Exception(ILLEGAL_VALUE))
    else if p == None then (s, Exception(ILLEGAL_ADDRESS))
    else
      var done := port.setBuffer(s, p.value, Swapped(buf[7..7 + 2 * n]));
      (done.0, if done.1 < 0 then Exception(CodeOf(done.1)) else Fine(buf[..6]))
  }

  /** `modbus_rtu_packet` */
  function Served<S>(port: Port<S>, s: S, buf: seq<byte>): (S, Answer)
    requires |buf| >= BUFFER
  {
    match buf[1]
    case 0 => (s, ReadCoils(port, s, buf))
    case 1 => (s, ReadCoils(port, s, buf))
    case 2 => (s, ReadCoils(port, s, buf))
    case 3 => (s, ReadRegisters(port, s, buf))
    case 4 => (s, ReadRegisters(port, s, buf))
    case 5 => WriteCoil(port, s, buf)
    case 6 => WriteRegister(port, s, buf)
    case 15 => WriteCoils(port, s, buf)
    case 16 => WriteRegisters(port, s, buf)
    case _ => (s, Exception(ILLEGAL_FUNCTION))
  }

  /** `pckt[1] |= 0x80` */
  function Flagged(mbFunction: byte): byte {
    if mbFunction < 128 then mbFunction + 128 else mbFunction
  }

  /** The frame that carries an answer back. */
  function Reply(buf: seq<byte>, answer: Answer): seq<byte>
    requires |buf| >= 2
  {
    WithCrc(if answer.Fine? then answer.body else [buf[0], Flagged(buf[1]), answer.code])
  }

  /** `modbus_tcp_packet`: the header keeps its first four bytes, then comes the new length. */
  function TcpReply(buf: seq<byte>, answer: Answer): seq<byte>
    requires |buf| >= MODBUS_TCP_HEADER_SIZE + BUFFER
  {
    var rtu := Reply(buf[6..], answer);
    var length := |rtu| - 2;
    buf[..4] + [length / 256 % 256, length % 256] + rtu[..length]
  }

  // ------------------------------------------------------------------------- agreement

  /** `modbus_response_lenght` */
  function ResponseLength(mbFunction: byte, items: u16): int {
    if mbFunction <= 2 then (items + 7) / 8 + 5
    else if mbFunction <= 4 then 2 * items + 5
    else if mbFunction <= 6 || mbFunction == 15 || mbFunction == 16 then 8
    else -1
  }

  /** `modbus_tcp_response_lenght` */
  function TcpResponseLength(mbFunction: byte, items: u16): int {
    var rtu := ResponseLength(mbFunction, items);
    if rtu > 2 then rtu - 2 + MODBUS_TCP_HEADER_SIZE else rtu
  }

  /** `it_modbus_responde_check` */
  function ResponseCheck(buf: seq<byte>, length: nat): int
    requires |buf| >= BUFFER
  {
    if length > 256 then 0
    else if buf[1] <= 4 then if buf[2] < 251 && SimplyChecks(buf, buf[2] + 5) then 1 else 0
    else if buf[1] == 5 then if (WordAt(buf, 4) == 0xff00 || WordAt(buf, 4) == 0) && SimplyChecks(buf, 8) then 1 else 0
    else if buf[1] == 6 || buf[1] == 15 || buf[1] == 16 then if SimplyChecks(buf, 8) then 1 else 0
    else if buf[1] == 0x41 then 1
    else 0
  }

  /** An answer has the shape that the master expects of this request. */
  predicate Expected(buf: seq<byte>, answer: Answer)
    requires |buf| >= 8
  {
    var f, n := buf[1], WordAt(buf, 4);
    answer.Fine? ==>
      && |answer.body| >= 3 && answer.body[0] == buf[0] && answer.body[1] == f && f <= 16
      && |answer.body| + 2 == ResponseLength(f, n)
      && (f <= 4 ==> answer.body[2] == |answer.body| - 3 && answer.body[2] <= 250)
      && (f == 5 ==> |answer.body| == 6 && answer.body[4..6] in {[0xff, 0], [0, 0]})
  }

  lemma CoilsExpected<S>(port: Port<S>, s: S, buf: seq<byte>)
    requires |buf| >= BUFFER
    ensures buf[1] <= 2 ==> Expected(buf, ReadCoils(port, s, buf))
    ensures buf[1] == 5 ==> Expected(buf, WriteCoil(port, s, buf).1)
    ensures buf[1] == 15 ==> Expected(buf, WriteCoils(port, s, buf).1)
  {
    assert buf[..6][4..6] == [buf[4], buf[5]];
  }

  lemma RegistersExpected<S>(port: Port<S>, s: S, buf: seq<byte>)
    requires |buf| >= BUFFER
    ensures 3 <= buf[1] <= 4 ==> Expected(buf, ReadRegisters(port, s, buf))
    ensures buf[1] == 6 ==> Expected(buf, WriteRegister(port, s, buf).1)
    ensures buf[1] == 16 ==> Expected(buf, WriteRegisters(port, s, buf).1)
  {
  }

  lemma ServedExpected<S>(port: Port<S>, s: S, buf: seq<byte>)
    requires |buf| >= BUFFER
    ensures Expected(buf, Served(port, s, buf).1)
  {
    CoilsExpected(port, s, buf);
    RegistersExpected(port, s, buf);
  }

  /**
    Master and slave agree on framing: whatever the registers do, a reply has a valid checksum;
    without an error it has exactly the length the master predicts and passes the master's
    check, with an error it has five bytes and does not pass.
   */
  lemma ReplyAgrees<S>(port: Port<S>, s: S, buf: seq<byte>, received: seq<byte>)
    requires |buf| >= BUFFER && |received| >= BUFFER
    requires Reply(buf, Served(port, s, buf).1) <= received
    ensures var answer := Served(port, s, buf).1;
            var reply := Reply(buf, answer);
            && ModbusCheck(reply)
            && (answer.Fine? ==> && |reply| == ResponseLength(buf[1], WordAt(buf, 4))
                                 && ResponseCheck(received, |reply|) == 1)
            && (answer.Exception? ==> |reply| == 5 && ResponseCheck(received, |reply|) == 0)
  {
    var answer := Served(port, s, buf).1;
    ServedExpected(port, s, buf);
    ExpectedAgrees(buf, answer, received);
  }

  /** A reply of the expected shape passes the master's check. */
  lemma BodyAccepted(body: seq<byte>, received: seq<byte>)
    requires |body| >= 3 && |received| >= BUFFER && WithCrc(body) <= received
    requires body[1] <= 6 || body[1] == 15 || body[1] == 16
    requires body[1] <= 4 ==> body[2] == |body| - 3 && body[2] <= 250
    requires body[1] >= 5 ==> |body| == 6
    requires body[1] == 5 ==> body[4..6] in {[0xff, 0], [0, 0]}
    ensures ResponseCheck(received, |body| + 2) == 1
  {
    assert forall k :: 0 <= k < |body| ==> received[k] == WithCrc(body)[k] == body[k];
    assert received[..|body| + 2] == WithCrc(body);
    WithCrcChecks(body);
    if body[1] == 5 {
      assert body[4..6] == [body[4], body[5]];
    }
  }

  lemma ErrorNotAccepted(slave: byte, mbFunction: byte, code: byte, received: seq<byte>)
    requires |received| >= BUFFER && WithCrc([slave, Flagged(mbFunction), code]) <= received
    ensures ResponseCheck(received, 5) == 0
  {
    assert received[1] == WithCrc([slave, Flagged(mbFunction), code])[1] == Flagged(mbFunction);
  }

  lemma ExpectedAgrees(buf: seq<byte>, answer: Answer, received: seq<byte>)
    requires |buf| >= BUFFER && |received| >= BUFFER && Expected(buf, answer) && Reply(buf, answer) <= received
    ensures var reply := Reply(buf, answer);
            && ModbusCheck(reply)
            && (answer.Fine? ==> && |reply| == ResponseLength(buf[1], WordAt(buf, 4))
                                 && ResponseCheck(received, |reply|) == 1)
            && (answer.Exception? ==> |reply| == 5 && ResponseCheck(received, |reply|) == 0)
  {
    var reply := Reply(buf, answer);
    var body := if answer.Fine? then answer.body else [buf[0], Flagged(buf[1]), answer.code];
    WithCrcChecks(body);
    if answer.Fine? {
      BodyAccepted(body, received);
    } else {
      ErrorNotAccepted(buf[0], buf[1], answer.code, received);
    }
  }

  // -------------------------------------------------------------------------------- TCP

  /** A request is sent when its reply is expected to have more than two and at most 256 bytes. */
  predicate IsSent(tcp: bool, mbFunction: byte, items: u16) {
    2 < (if tcp then TcpResponseLength(mbFunction, items) else ResponseLength(mbFunction, items)) <= 256
  }

  /** The master reads up to 125 registers over RTU, and no more than 123 over TCP. */
  lemma ReadIsSentExactly(tcp: bool, mbFunction: byte, n: u16)
    requires mbFunction == 3 || mbFunction == 4
    ensures IsSent(tcp, mbFunction, n) <==> n <= if tcp then 123 else 125
  {
  }

  /** `modbus_make_tcp_packet`: the header with the transaction number, then the request. */
  function TcpRequest(transaction: u16, body: seq<byte>): seq<byte>
    requires |body| < 65536
  {
    Big(transaction) + [0, 0] + Big(|body|) + body
  }

  /** A checksum behind the request, which the RTU routines expect and nobody receives. */
  function WithFakeCrc(buf: seq<byte>, len: nat): (r: seq<byte>)
    requires MODBUS_TCP_HEADER_SIZE <= len && len + 2 <= |buf|
    ensures |r| == |buf|
  {
    buf[..6] + WithCrc(buf[6..len]) + buf[len + 2..]
  }

  /** `it_modbus_tcp_full_check` */
  predicate TcpFullCheck(buf: seq<byte>, len: nat)
    requires MODBUS_TCP_HEADER_SIZE <= len && len + 2 <= |buf| && |buf| >= MODBUS_TCP_HEADER_SIZE + BUFFER
  {
    RequestCheck(WithFakeCrc(buf, len)[6..], len - 4) == 1
  }

  /** Behind the header the slave finds the request with its checksum. */
  lemma TcpUnwraps(transaction: u16, body: seq<byte>, buf: seq<byte>)
    requires |body| < 65536 && TcpRequest(transaction, body) <= buf && |body| + 8 <= |buf|
    ensures WithCrc(body) <= WithFakeCrc(buf, |body| + 6)[6..]
  {
    assert buf[6..|body| + 6] == TcpRequest(transaction, body)[6..] == body;
    assert WithFakeCrc(buf, |body| + 6)[6..] == WithCrc(body) + buf[|body| + 8..];
  }

  /** Requests over TCP pass the full check, function 16 again exactly up to 123 words. */
  lemma TcpRequestPasses(transaction: u16, slave: byte, mbFunction: byte, start: u16, n: u16, data: Option<seq<byte>>,
                         body: seq<byte>, buf: seq<byte>)
    requires Shared(mbFunction) && DataFits(mbFunction, n, data) && |buf| >= MODBUS_TCP_HEADER_SIZE + BUFFER
    requires RequestBody(slave, mbFunction, start, n, data) == Some(body) && |body| + 8 <= |buf|
    requires |body| < 65536 && TcpRequest(transaction, body) <= buf
    ensures TcpFullCheck(buf, |body| + 6) <==> (mbFunction == 16 ==> n <= 123)
  {
    TcpUnwraps(transaction, body, buf);
    RequestPasses(slave, mbFunction, start, n, data, WithFakeCrc(buf, |body| + 6)[6..]);
  }

  /** The header of a reply: four bytes of the request and the length. */
  lemma TcpReplyHead(buf: seq<byte>, answer: Answer)
    requires |buf| >= MODBUS_TCP_HEADER_SIZE + BUFFER && 2 <= |Reply(buf[6..], answer)| < 65536
    ensures var reply := TcpReply(buf, answer);
            && |reply| == |Reply(buf[6..], answer)| + 4
            && reply[..4] == buf[..4] && WordAt(reply, 4) == |reply| - 6
  {
    var reply, length := TcpReply(buf, answer), |Reply(buf[6..], answer)| - 2;
    assert reply[4] == length / 256 % 256 && reply[5] == length % 256;
  }

  /** The rest of a reply: what RTU would carry, without the checksum. */
  lemma TcpReplyTail(buf: seq<byte>, answer: Answer, body: seq<byte>)
    requires |buf| >= MODBUS_TCP_HEADER_SIZE + BUFFER && Reply(buf[6..], answer) == WithCrc(body)
    ensures TcpReply(buf, answer)[6..] == body
  {
    assert WithCrc(body)[..|body|] == body;
  }

  /** Replies to expected answers are as long as the master predicts. */
  lemma TcpReplyLength(buf: seq<byte>, answer: Answer)
    requires |buf| >= 8 && Expected(buf, answer)
    ensures var length := |Reply(buf, answer)|;
            && 5 <= length < 65536
            && length + 4 == if answer.Fine? then TcpResponseLength(buf[1], WordAt(buf, 4)) else 9
  {
  }

  /** Over TCP a reply has exactly the length the master predicts, or nine bytes with an error. */
  lemma TcpReplyAgrees<S>(port: Port<S>, s: S, buf: seq<byte>)
    requires |buf| >= MODBUS_TCP_HEADER_SIZE + BUFFER
    ensures var answer := Served(port, s, buf[6..]).1;
            var reply := TcpReply(buf, answer);
            && |reply| == (if answer.Fine? then TcpResponseLength(buf[7], WordAt(buf, 10)) else 9)
            && reply[..4] == buf[..4] && WordAt(reply, 4) == |reply| - 6
            && reply[6..] + Tail(ModbusCrc(reply[6..])) == Reply(buf[6..], answer)
  {
    var answer := Served(port, s, buf[6..]).1;
    ServedExpected(port, s, buf[6..]);
    ExpectedOverTcp(buf, answer);
  }

  lemma ExpectedOverTcp(buf: seq<byte>, answer: Answer)
    requires |buf| >= MODBUS_TCP_HEADER_SIZE + BUFFER && Expected(buf[6..], answer)
    ensures var reply := TcpReply(buf, answer);
            && |reply| == (if answer.Fine? then TcpResponseLength(buf[7], WordAt(buf, 10)) else 9)
            && reply[..4] == buf[..4] && WordAt(reply, 4) == |reply| - 6
            && reply[6..] + Tail(ModbusCrc(reply[6..])) == Reply(buf[6..], answer)
  {
    var body := if answer.Fine? then answer.body else [buf[6..][0], Flagged(buf[6..][1]), answer.code];
    assert buf[6..][1] == buf[7] && WordAt(buf[6..], 4) == WordAt(buf, 10);
    TcpReplyLength(buf[6..], answer);
    TcpReplyHead(buf, answer);
    TcpReplyTail(buf, answer, body);
  }

  /** The reply as the master reads it: over TCP behind the header, with a checksum added to what was received. */
  function Unwrapped(tcp: bool, frame: seq<byte>, response: nat): (body: seq<byte>)
    requires MODBUS_TCP_HEADER_SIZE <= response && response + 2 <= |frame|
    ensures |body| == if tcp then |frame| - 6 else |frame|
  {
    if tcp then WithFakeCrc(frame, response)[6..] else frame
  }

  /** A reply over TCP that `modbus_tcp_packet` built is, unwrapped, the reply that RTU would carry. */
  lemma TcpReplyUnwraps<S>(port: Port<S>, s: S, buf: seq<byte>, received: seq<byte>)
    requires |buf| >= MODBUS_TCP_HEADER_SIZE + BUFFER
    requires TcpReply(buf, Served(port, s, buf[6..]).1) <= received
    requires |TcpReply(buf, Served(port, s, buf[6..]).1)| + 2 <= |received|
    ensures var answer := Served(port, s, buf[6..]).1;
            Reply(buf[6..], answer) <= Unwrapped(true, received, |TcpReply(buf, answer)|)
  {
    TcpReplyAgrees(port, s, buf);
    ReplyUnwraps(TcpReply(buf, Served(port, s, buf[6..]).1), received);
  }

  lemma ReplyUnwraps(reply: seq<byte>, received: seq<byte>)
    requires MODBUS_TCP_HEADER_SIZE <= |reply| && |reply| + 2 <= |received| && reply <= received
    ensures WithCrc(reply[6..]) <= Unwrapped(true, received, |reply|)
  {
    assert received[6..|reply|] == reply[6..];
    var frame := WithCrc(reply[6..]);
    assert Unwrapped(true, received, |reply|) == frame + received[|reply| + 2..];
  }

  // -------------------------------------------------------------------------- the master

  /** The words as `u16` values lie in memory. */
  function BytesOf(words: seq<u16>): (s: seq<byte>)
    ensures |s| == 2 * |words|
  {
    if words == [] then [] else [words[0] % 256, words[0] / 256] + BytesOf(words[1..])
  }

  /** The words that the master takes out of a reply to function 3 or 4, if it accepts the reply. */
  function WordsOfReply(slave: byte, count: nat, frame: seq<byte>): Option<seq<u16>>
    requires 5 <= |frame| && 0 < count <= MODBUS_MAX_MODBUS_REGS_NUM
  {
    if frame[2] != 2 * count || frame[0] != slave then None
    else if |frame| < 2 * count + 5 || !ModbusCheck(frame[..2 * count + 5]) then None
    else Some(WordsFrom(frame, count))
  }

  /** The first `n` words behind the three bytes of the head, high byte first. */
  function WordsFrom(frame: seq<byte>, n: nat): (r: seq<u16>)
    requires 2 * n + 5 <= |frame|
    ensures |r| == n
  {
    if n == 0 then [] else WordsFrom(frame, n - 1) + [WordAt(frame, 3 + 2 * (n - 1))]
  }

  lemma {:induction false} SwappedBytesAt(words: seq<u16>, i: nat)
    requires i < |words|
    ensures Swapped(BytesOf(words))[2 * i] == words[i] / 256 && Swapped(BytesOf(words))[2 * i + 1] == words[i] % 256
  {
    var rest := BytesOf(words)[2..];
    assert rest == BytesOf(words[1..]);
    if i > 0 {
      SwappedBytesAt(words[1..], i - 1);
    }
  }

  lemma {:induction false} WordsComeBack(frame: seq<byte>, head: seq<byte>, words: seq<u16>, n: nat)
    requires |head| == 3 && n <= |words| && head + Swapped(BytesOf(words)) <= frame && 2 * |words| + 5 <= |frame|
    ensures WordsFrom(frame, n) == words[..n]
  {
    if n > 0 {
      WordsComeBack(frame, head, words, n - 1);
      SwappedBytesAt(words, n - 1);
      var sent := head + Swapped(BytesOf(words));
      assert frame[3 + 2 * (n - 1)] == sent[3 + 2 * (n - 1)];
      assert frame[3 + 2 * (n - 1) + 1] == sent[3 + 2 * (n - 1) + 1];
      assert words[..n] == words[..n - 1] + [words[n - 1]];
    }
  }
}
