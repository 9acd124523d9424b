/**
  Words from a Modbus master into the registers of a device and back: function 16 and then
  function 3 (sections 6.12 and 6.3 of the MODBUS Application Protocol V1.1b3).
 */
module EndToEnd {
  import opened Bits
  import opened Memory
  import opened Registers
  import opened Lookup
  import opened PendingBuffer
  import opened WritePath
  import opened WriteTheorems
  import opened WordWrites
  import opened Modbus
  import opened Crc16

  /** A device as the slave sees it: its store and its pending buffer. */
  datatype Session = Session(store: Store, pending: Pending)

  datatype Coils = Coils(get: (Session, nat, nat) -> seq<byte>, put: (Session, nat, seq<byte>) -> Session)

  function FromOutcome(r: Outcome<Store>): (Session, int) {
    (Session(r.state, r.pending), r.code)
  }

  /** The registers of a device behind Modbus. Reading is a plain copy of memory. */
  function PortOf(cfg: Config, coils: Coils): Port<Session> {
    Port(
      (word: nat, mdbFunction: nat) => FindWord(cfg.tables, word, mdbFunction),
      (s: Session, a: nat, n: nat) => if a + n <= |s.store.mem| then Slice(s.store.mem, a, n) else [],
      (s: Session, a: nat, data: seq<byte>) => FromOutcome(SetBytes(EngineOf(cfg), s.store, s.pending, a, data)),
      (s: Session, a: nat, data: seq<byte>) => FromOutcome(Access(EngineOf(cfg), s.store, s.pending, a, data)),
      coils.get,
      coils.put)
  }

  /** `port` leads to the registers of the device. */
  ghost predicate LeadsTo(port: Port<Session>, cfg: Config, coils: Coils) {
    forall n: nat :: Inside(n) ==> port == PortOf(cfg, coils)
  }

  // --------------------------------------------------------------- for any register bank

  /** The request to write the words in `data` from `start` on. */
  function WriteRequest(slave: byte, start: u16, n: u16, data: seq<byte>): seq<byte>
    requires 0 < n <= 123
  {
    [slave, 16] + Big(start) + Big(n) + [2 * n] + Swapped(data)
  }

  /** The request to read words with function 3 or 4. */
  function ReadRequest(slave: byte, mbFunction: byte, start: u16, n: u16): seq<byte> {
    [slave, mbFunction] + Big(start) + Big(n)
  }

  /** These are what `modbus_make_packet` builds. */
  lemma RequestsAreBuilt(slave: byte, start: u16, n: u16, data: seq<byte>)
    requires 0 < n <= 123 && |data| == 2 * n
    ensures RequestBody(slave, 16, start, n, Some(data)) == Some(WriteRequest(slave, start, n, data))
    ensures RequestBody(slave, 3, start, n, None) == Some(ReadRequest(slave, 3, start, n))
    ensures RequestBody(slave, 4, start, n, None) == Some(ReadRequest(slave, 4, start, n))
  {
    assert data[..2 * n] == data;
  }

  /** The start and the number of words in a request. */
  lemma HeadFields(head: seq<byte>, slave: byte, mbFunction: byte, start: u16, n: u16, buf: seq<byte>)
    requires head == [slave, mbFunction] + Big(start) + Big(n) && head <= buf
    ensures buf[0] == slave && buf[1] == mbFunction && buf[..6] == head
    ensures WordAt(buf, 2) == start && WordAt(buf, 4) == n
  {
    assert head[2] == start / 256 && head[3] == start % 256;
    assert head[4] == n / 256 && head[5] == n % 256;
  }

  /** The payload behind the head and the number of its bytes. */
  lemma PayloadField(head: seq<byte>, count: byte, payload: seq<byte>, buf: seq<byte>)
    requires |head| == 6 && head + [count] + payload <= buf
    ensures head <= buf && buf[7..7 + |payload|] == payload
  {
    var request := head + [count] + payload;
    assert buf[..|request|] == request;
    assert buf[7..7 + |payload|] == request[7..];
    assert head == request[..6];
  }

  /** The slave takes exactly the words' bytes out of the request and writes them. */
  lemma WriteServed<S>(port: Port<S>, s: S, p: nat, slave: byte, start: u16, n: u16, data: seq<byte>, buf: seq<byte>)
    requires 0 < n <= 123 && |data| == 2 * n && |buf| >= BUFFER && WriteRequest(slave, start, n, data) <= buf
    requires port.find(start, 3) == Some(p) && port.setBuffer(s, p, data).1 >= 0
    ensures Served(port, s, buf) == (port.setBuffer(s, p, data).0, Fine([slave, 16] + Big(start) + Big(n)))
  {
    var head := [slave, 16] + Big(start) + Big(n);
    PayloadField(head, 2 * n, Swapped(data), buf);
    HeadFields(head, slave, 16, start, n, buf);
    SwappedTwice(data);
  }

  /** The reply to a read carries the bytes at the address. */
  lemma ReadServed<S>(port: Port<S>, s: S, p: nat, slave: byte, mbFunction: byte, start: u16, data: seq<byte>, n: u16,
                      buf: seq<byte>)
    requires mbFunction == 3 || mbFunction == 4
    requires 0 < n <= 125 && |buf| >= BUFFER && ReadRequest(slave, mbFunction, start, n) <= buf
    requires port.find(start, mbFunction) == Some(p) && port.getBuffer(s, p, 2 * n) == data && |data| == 2 * n
    ensures Served(port, s, buf) == (s, Fine([slave, mbFunction, 2 * n] + Swapped(data)))
  {
    HeadFields(ReadRequest(slave, mbFunction, start, n), slave, mbFunction, start, n, buf);
  }

  /** A frame is found in front of what was received. */
  lemma FrameInFront(head: seq<byte>, payload: seq<byte>, received: seq<byte>)
    requires |head| == 3 && WithCrc(head + payload) <= received
    ensures received[0] == head[0] && received[2] == head[2] && head + payload <= received
    ensures ModbusCheck(received[..|payload| + 5])
  {
    var body := head + payload;
    WithCrcChecks(body);
    assert received[..|payload| + 5] == WithCrc(body);
    assert body == WithCrc(body)[..|body|];
    assert received[0] == body[0] && received[2] == body[2];
  }

  /** The master decodes what such a reply carries. */
  lemma ReplyDecoded(slave: byte, mbFunction: byte, words: seq<u16>, head: seq<byte>, received: seq<byte>)
    requires 0 < |words| <= 125 && head == [slave, mbFunction, 2 * |words|]
    requires WithCrc(head + Swapped(BytesOf(words))) <= received
    ensures |received| >= 5 && WordsOfReply(slave, |words|, received) == Some(words)
  {
    FrameInFront(head, Swapped(BytesOf(words)), received);
    WordsComeBack(received, head, words, |words|);
    assert words[..|words|] == words;
  }

  /** The answer to a read that carries `words`. */
  function Carrying(slave: byte, mbFunction: byte, words: seq<u16>): Answer
    requires |words| <= 125
  {
    Fine([slave, mbFunction, 2 * |words|] + Swapped(BytesOf(words)))
  }

  lemma AnswerDecoded(slave: byte, mbFunction: byte, words: seq<u16>, again: seq<byte>, answer: Answer)
    requires 0 < |words| <= 125 && |again| >= 2 && answer == Carrying(slave, mbFunction, words)
    ensures |Reply(again, answer)| >= 5 && WordsOfReply(slave, |words|, Reply(again, answer)) == Some(words)
  {
    ReplyDecoded(slave, mbFunction, words, [slave, mbFunction, 2 * |words|], Reply(again, answer));
  }

  /** The words that lie at `p` in memory, low byte first. */
  function WordsAt(m: seq<byte>, p: nat, n: nat): (w: seq<u16>)
    requires p + 2 * n <= |m|
    ensures |w| == n
  {
    seq(n, k requires 0 <= k < n => m[p + 2 * k] as int + 256 * m[p + 2 * k + 1] as int)
  }

  lemma {:induction false} WordsAtAreBytes(m: seq<byte>, p: nat, n: nat)
    requires p + 2 * n <= |m|
    ensures BytesOf(WordsAt(m, p, n)) == Slice(m, p, 2 * n)
    decreases n
  {
    if n > 0 {
      var words := WordsAt(m, p, n);
      assert words[1..] == WordsAt(m, p + 2, n - 1);
      WordsAtAreBytes(m, p + 2, n - 1);
      assert words[0] % 256 == m[p] && words[0] / 256 == m[p + 1];
      assert Slice(m, p, 2 * n) == [m[p], m[p + 1]] + Slice(m, p + 2, 2 * (n - 1));
    }
  }

  /** Over TCP, too, the master decodes what the answer carries. */
  lemma WordsOverTcp<S>(port: Port<S>, s: S, slave: byte, mbFunction: byte, words: seq<u16>, buf: seq<byte>,
                       received: seq<byte>)
    requires 0 < |words| <= 125 && |buf| >= MODBUS_TCP_HEADER_SIZE + BUFFER
    requires Served(port, s, buf[6..]).1 == Carrying(slave, mbFunction, words)
    requires TcpReply(buf, Carrying(slave, mbFunction, words)) <= received
    requires |TcpReply(buf, Carrying(slave, mbFunction, words))| + 2 <= |received|
    ensures var body := Unwrapped(true, received, |TcpReply(buf, Carrying(slave, mbFunction, words))|);
            |body| >= 5 && WordsOfReply(slave, |words|, body) == Some(words)
  {
    var answer := Carrying(slave, mbFunction, words);
    TcpReplyUnwraps(port, s, buf, received);
    assert Reply(buf[6..], answer) == WithCrc(answer.body);
    ReplyDecoded(slave, mbFunction, words, [slave, mbFunction, 2 * |words|],
                 Unwrapped(true, received, |TcpReply(buf, answer)|));
  }

  /** A register bank that keeps the bytes it is given gives them back. */
  lemma BankRoundTrip<S>(port: Port<S>, s: S, p: nat, slave: byte, start: u16, n: u16, data: seq<byte>, buf: seq<byte>,
                         again: seq<byte>)
    requires 0 < n <= 123 && |data| == 2 * n && |buf| >= BUFFER && |again| >= BUFFER && port.find(start, 3) == Some(p)
    requires WriteRequest(slave, start, n, data) <= buf && ReadRequest(slave, 3, start, n) <= again
    requires port.setBuffer(s, p, data).1 >= 0 && port.getBuffer(port.setBuffer(s, p, data).0, p, 2 * n) == data
    ensures Served(port, s, buf) == (port.setBuffer(s, p, data).0, Fine([slave, 16] + Big(start) + Big(n)))
    ensures Served(port, port.setBuffer(s, p, data).0, again) ==
            (port.setBuffer(s, p, data).0, Fine([slave, 3, 2 * n] + Swapped(data)))
  {
    WriteServed(port, s, p, slave, start, n, data, buf);
    ReadServed(port, port.setBuffer(s, p, data).0, p, slave, 3, start, data, n, again);
  }

  /** The request to write one word. */
  function WordRequest(slave: byte, start: u16, v: u16): seq<byte> {
    [slave, 6] + Big(start) + Big(v)
  }

  lemma WordServed<S>(port: Port<S>, s: S, p: nat, slave: byte, start: u16, v: u16, buf: seq<byte>)
    requires |buf| >= BUFFER && WordRequest(slave, start, v) <= buf
    requires port.find(start, 3) == Some(p) && port.setValue(s, p, [v % 256, v / 256]).1 >= 0
    ensures RequestBody(slave, 6, start, 1, Some([v % 256, v / 256])) == Some(WordRequest(slave, start, v))
    ensures Served(port, s, buf) == (port.setValue(s, p, [v % 256, v / 256]).0, Fine(WordRequest(slave, start, v)))
  {
    HeadFields(WordRequest(slave, start, v), slave, 6, start, v, buf);
    assert buf[..6] == WordRequest(slave, start, v);
    assert buf[4] == buf[..6][4] && buf[5] == buf[..6][5];
  }

  // --------------------------------------------------------------------- for a device

  lemma DeviceFinds(cfg: Config, coils: Coils, port: Port<Session>, word: nat, mdbFunction: nat)
    requires LeadsTo(port, cfg, coils)
    ensures port.find(word, mdbFunction) == FindWord(cfg.tables, word, mdbFunction)
  {
    assert Inside(0);
  }

  /** A device keeps the bytes that are written to whole elements without bounds that take them. */
  lemma DeviceKeeps(cfg: Config, credential: bool, coils: Coils, port: Port<Session>, s: Session, p: nat,
                    data: seq<byte>)
    requires LeadsTo(port, cfg, coils) && Permitted(cfg, credential, s.store) && data != []
    requires WholeElements(EngineOf(cfg), TakingUnbounded(cfg, credential), p, data)
    requires Undisturbed(EngineOf(cfg), s.pending, p, data)
    ensures p + |data| <= |s.store.mem| && port.setBuffer(s, p, data).1 == 1
    ensures port.setBuffer(s, p, data).0.store.mem == Splice(s.store.mem, p, data)
    ensures port.getBuffer(port.setBuffer(s, p, data).0, p, |data|) == data
  {
    UnboundedBufferStored(cfg, credential, s.store, s.pending, p, data);
    SliceOfSplice(s.store.mem, p, data);
    assert Inside(0);
  }

  /**
    Words that a master writes with function 16 into whole elements without bounds that take them,
    and reads back with function 3, come back as they were; memory has changed only there.
   */
  lemma WordsRoundTrip(cfg: Config, credential: bool, coils: Coils, port: Port<Session>, s: Session, p: nat,
                       slave: byte, start: u16, words: seq<u16>, buf: seq<byte>, again: seq<byte>)
    requires LeadsTo(port, cfg, coils) && Permitted(cfg, credential, s.store)
    requires FindWord(cfg.tables, start, 3) == Some(p)
    requires 0 < |words| <= 123 && |buf| >= BUFFER && |again| >= BUFFER
    requires WholeElements(EngineOf(cfg), TakingUnbounded(cfg, credential), p, BytesOf(words))
    requires Undisturbed(EngineOf(cfg), s.pending, p, BytesOf(words))
    requires WriteRequest(slave, start, |words|, BytesOf(words)) <= buf
    requires ReadRequest(slave, 3, start, |words|) <= again
    ensures p + 2 * |words| <= |s.store.mem|
    ensures var written := Served(port, s, buf);
            var read := Served(port, written.0, again);
            && written.1 == Fine([slave, 16] + Big(start) + Big(|words|))
            && written.0.store.mem == Splice(s.store.mem, p, BytesOf(words))
            && read == (written.0, Carrying(slave, 3, words))
            && |Reply(again, read.1)| >= 5 && WordsOfReply(slave, |words|, Reply(again, read.1)) == Some(words)
  {
    DeviceFinds(cfg, coils, port, start, 3);
    DeviceKeeps(cfg, credential, coils, port, s, p, BytesOf(words));
    BankRoundTrip(port, s, p, slave, start, |words|, BytesOf(words), buf, again);
    AnswerDecoded(slave, 3, words, again, Carrying(slave, 3, words));
  }

  /** What the slave does with a packet of `len` bytes over TCP: it adds the checksum that RTU expects. */
  function ServedTcp<S>(port: Port<S>, s: S, buf: seq<byte>, len: nat): (S, Answer)
    requires |buf| >= MODBUS_TCP_HEADER_SIZE + BUFFER && MODBUS_TCP_HEADER_SIZE <= len && len + 2 <= |buf|
  {
    Served(port, s, WithFakeCrc(buf, len)[6..])
  }

  /** The request that the slave finds behind the header. */
  lemma RequestBehindHeader(transaction: u16, body: seq<byte>, buf: seq<byte>, len: nat)
    requires |body| < 65536 && TcpRequest(transaction, body) <= buf && len == |body| + 6 && len + 2 <= |buf|
    ensures body <= WithFakeCrc(buf, len)[6..]
  {
    TcpUnwraps(transaction, body, buf);
    assert WithCrc(body)[..|body|] == body;
  }

  lemma WriteBehindHeader(transaction: u16, slave: byte, start: u16, words: seq<u16>, buf: seq<byte>, len: nat)
    requires 0 < |words| <= 123 && |buf| >= MODBUS_TCP_HEADER_SIZE + BUFFER && len == 13 + 2 * |words|
    requires TcpRequest(transaction, WriteRequest(slave, start, |words|, BytesOf(words))) <= buf
    ensures WriteRequest(slave, start, |words|, BytesOf(words)) <= WithFakeCrc(buf, len)[6..]
  {
    RequestBehindHeader(transaction, WriteRequest(slave, start, |words|, BytesOf(words)), buf, len);
  }

  lemma ReadBehindHeader(transaction: u16, slave: byte, start: u16, n: u16, buf: seq<byte>)
    requires |buf| >= MODBUS_TCP_HEADER_SIZE + BUFFER && TcpRequest(transaction, ReadRequest(slave, 3, start, n)) <= buf
    ensures ReadRequest(slave, 3, start, n) <= WithFakeCrc(buf, 12)[6..]
  {
    RequestBehindHeader(transaction, ReadRequest(slave, 3, start, n), buf, 12);
  }

  /** The same over TCP, with any transaction numbers; the write request has `len` bytes. */
  lemma TcpRoundTrip(cfg: Config, credential: bool, coils: Coils, port: Port<Session>, s: Session, p: nat, slave: byte,
                     start: u16, words: seq<u16>, x: u16, y: u16, buf: seq<byte>, len: nat, again: seq<byte>,
                     received: seq<byte>)
    requires LeadsTo(port, cfg, coils) && Permitted(cfg, credential, s.store)
    requires FindWord(cfg.tables, start, 3) == Some(p) && 0 < |words| <= 123
    requires WholeElements(EngineOf(cfg), TakingUnbounded(cfg, credential), p, BytesOf(words))
    requires Undisturbed(EngineOf(cfg), s.pending, p, BytesOf(words))
    requires |buf| >= MODBUS_TCP_HEADER_SIZE + BUFFER && |again| >= MODBUS_TCP_HEADER_SIZE + BUFFER
    requires TcpRequest(x, WriteRequest(slave, start, |words|, BytesOf(words))) <= buf && len == 13 + 2 * |words|
    requires TcpRequest(y, ReadRequest(slave, 3, start, |words|)) <= again
    requires var written := ServedTcp(port, s, buf, len);
             var reply := TcpReply(WithFakeCrc(again, 12), ServedTcp(port, written.0, again, 12).1);
             reply <= received && |reply| + 2 <= |received|
    ensures p + 2 * |words| <= |s.store.mem|
    ensures var written := ServedTcp(port, s, buf, len);
            var reply := TcpReply(WithFakeCrc(again, 12), ServedTcp(port, written.0, again, 12).1);
            && written.0.store.mem == Splice(s.store.mem, p, BytesOf(words))
            && |reply| == 2 * |words| + 9 && |Unwrapped(true, received, |reply|)| >= 5
            && WordsOfReply(slave, |words|, Unwrapped(true, received, |reply|)) == Some(words)
  {
    WriteBehindHeader(x, slave, start, words, buf, len);
    ReadBehindHeader(y, slave, start, |words|, again);
    var first, second := WithFakeCrc(buf, len), WithFakeCrc(again, 12);
    WordsRoundTrip(cfg, credential, coils, port, s, p, slave, start, words, first[6..], second[6..]);
    WordsOverTcp(port, Served(port, s, first[6..]).0, slave, 3, words, second, received);
  }

  /**
    What a master reads with function 3 or 4 is what lies in memory, low byte before high byte, at
    the place that the word's address leads to; reading changes nothing.
   */
  lemma ReadsAreMemory(cfg: Config, coils: Coils, port: Port<Session>, s: Session, p: nat, slave: byte,
                       mbFunction: byte, start: u16, n: u16, buf: seq<byte>)
    requires LeadsTo(port, cfg, coils) && (mbFunction == 3 || mbFunction == 4)
    requires FindWord(cfg.tables, start, mbFunction) == Some(p) && p + 2 * n <= |s.store.mem|
    requires 0 < n <= 125 && |buf| >= BUFFER && ReadRequest(slave, mbFunction, start, n) <= buf
    ensures var read, words := Served(port, s, buf), WordsAt(s.store.mem, p, n);
            && read == (s, Carrying(slave, mbFunction, words))
            && |Reply(buf, read.1)| >= 5 && WordsOfReply(slave, n, Reply(buf, read.1)) == Some(words)
  {
    var words := WordsAt(s.store.mem, p, n);
    DeviceFinds(cfg, coils, port, start, mbFunction);
    DeviceGets(cfg, coils, port, s, p, 2 * n);
    WordsAtAreBytes(s.store.mem, p, n);
    ReadServed(port, s, p, slave, mbFunction, start, BytesOf(words), n, buf);
    AnswerDecoded(slave, mbFunction, words, buf, Carrying(slave, mbFunction, words));
  }

  // ------------------------------------------------------------------------ function 6

  /** The word that lies in memory at `p` after `v` was written there with function 6. */
  function WordAfter(spot: Spot, p: Pending, m: seq<byte>, a: nat, v: u16): u16
    requires Around(spot, a) && a + 1 < |m|
  {
    if !Full(Filled(spot, p, a, 0, 0).cells, spot.item) then Word(m[a], m[a + 1])
    else if a + 1 < spot.start + spot.item then v
    else Word(v % 256, m[a + 1])
  }

  lemma WordAtDevice(cfg: Config, s: Store, p: Pending, spot: Spot, a: nat, v: u16)
    requires StoreOk(cfg, s) && a + 2 <= |s.mem|
    requires Locate(EngineOf(cfg), a) == Some(spot) && IsOpen(cfg, a)
    ensures var r := Access(EngineOf(cfg), s, p, a, [v % 256, v / 256]);
            && r.code == 1 && |r.state.mem| == |s.mem|
            && Word(r.state.mem[a], r.state.mem[a + 1]) == WordAfter(spot, p, s.mem, a, v)
  {
    EngineCoherent(cfg, |s.mem|);
    UnboundedStores(cfg, false);
    OpenElement(cfg, s, spot, a);
    WordWritten(EngineOf(cfg), Permits(cfg, false), MemoryOf(), TakingUnbounded(cfg, false), Clamping(cfg),
                s, p, spot, a, v % 256, v / 256);
  }

  /** What function 6 does to a device: the word goes to the element around `p` in one access. */
  lemma DeviceWord(cfg: Config, coils: Coils, port: Port<Session>, s: Session, spot: Spot, p: nat, v: u16)
    requires LeadsTo(port, cfg, coils) && StoreOk(cfg, s.store) && p + 2 <= |s.store.mem|
    requires Locate(EngineOf(cfg), p) == Some(spot) && IsOpen(cfg, p)
    ensures var done, w := port.setValue(s, p, [v % 256, v / 256]), WordAfter(spot, s.pending, s.store.mem, p, v);
            done.1 == 1 && port.getBuffer(done.0, p, 2) == [w % 256, w / 256]
  {
    var data := [v % 256, v / 256];
    WordAtDevice(cfg, s.store, s.pending, spot, p, v);
    DeviceSets(cfg, coils, port, s, p, data);
    var done := port.setValue(s, p, data).0;
    DeviceGets(cfg, coils, port, done, p, 2);
    PairInMemory(done.store.mem, p);
  }

  lemma DeviceSets(cfg: Config, coils: Coils, port: Port<Session>, s: Session, p: nat, data: seq<byte>)
    requires LeadsTo(port, cfg, coils)
    ensures port.setValue(s, p, data) == FromOutcome(Access(EngineOf(cfg), s.store, s.pending, p, data))
  {
    assert Inside(0);
  }

  lemma DeviceGets(cfg: Config, coils: Coils, port: Port<Session>, s: Session, p: nat, n: nat)
    requires LeadsTo(port, cfg, coils) && p + n <= |s.store.mem|
    ensures port.getBuffer(s, p, n) == Slice(s.store.mem, p, n)
  {
    assert Inside(0);
  }

  lemma PairInMemory(m: seq<byte>, p: nat)
    requires p + 2 <= |m|
    ensures Slice(m, p, 2) == [Word(m[p], m[p + 1]) % 256, Word(m[p], m[p + 1]) / 256]
  {
  }

  /** An element lies in one register: what holds at one of its addresses holds at its start. */
  lemma OpenElement(cfg: Config, s: Store, spot: Spot, a: nat)
    requires StoreOk(cfg, s) && Locate(EngineOf(cfg), a) == Some(spot) && IsOpen(cfg, a)
    ensures TakesAll(TakingUnbounded(cfg, false), spot) && EngineOf(cfg).allowed(s, spot.start)
  {
    var place := FindAddress(cfg.tables, a);
    LocateAt(cfg, |s.mem|, place.table, place.index, a);
    assert AllowedAt(cfg, s, spot.start);
  }

  /** What a read with function 3 yields after a write with function 6. */
  function ReadBack<S>(port: Port<S>, s: S, slave: byte, buf: seq<byte>, again: seq<byte>): Option<seq<u16>>
    requires |buf| >= BUFFER && |again| >= BUFFER
  {
    var reply := Reply(again, Served(port, Served(port, s, buf).0, again).1);
    if |reply| >= 5 then WordsOfReply(slave, 1, reply) else None
  }

  /** Written with function 6, without an error, the word `v` is read back as `w`. */
  predicate ReadsAs<S>(port: Port<S>, s: S, slave: byte, start: u16, v: u16, w: u16, buf: seq<byte>, again: seq<byte>) {
    |buf| >= BUFFER && |again| >= BUFFER
    && WordRequest(slave, start, v) <= buf && ReadRequest(slave, 3, start, 1) <= again ==>
      Served(port, s, buf).1 == Fine(WordRequest(slave, start, v)) && ReadBack(port, s, slave, buf, again) == Some([w])
  }

  lemma BankReadsAs<S>(port: Port<S>, s: S, p: nat, slave: byte, start: u16, v: u16, w: u16, buf: seq<byte>,
                       again: seq<byte>)
    requires port.find(start, 3) == Some(p) && port.setValue(s, p, [v % 256, v / 256]).1 >= 0
    requires port.getBuffer(port.setValue(s, p, [v % 256, v / 256]).0, p, 2) == [w % 256, w / 256]
    ensures ReadsAs(port, s, slave, start, v, w, buf, again)
  {
    if |buf| >= BUFFER && |again| >= BUFFER && WordRequest(slave, start, v) <= buf
       && ReadRequest(slave, 3, start, 1) <= again {
      WordServed(port, s, p, slave, start, v, buf);
      var written, data := port.setValue(s, p, [v % 256, v / 256]).0, [w % 256, w / 256];
      ReadServed(port, written, p, slave, 3, start, data, 1, again);
      assert BytesOf([w]) == data;
      AnswerDecoded(slave, 3, [w], again, Carrying(slave, 3, [w]));
    }
  }

  /**
    What becomes of a word that a master writes with function 6 into a writable register without
    bounds: no error is reported, and function 3 reads the word itself, or its low byte before
    what was there, or what was there, as the element and the pending bytes have it.
   */
  lemma WordReadsAs(cfg: Config, coils: Coils, port: Port<Session>, s: Session, spot: Spot, p: nat, slave: byte,
                    start: u16, v: u16, buf: seq<byte>, again: seq<byte>)
    requires LeadsTo(port, cfg, coils) && StoreOk(cfg, s.store) && FindWord(cfg.tables, start, 3) == Some(p)
    requires Locate(EngineOf(cfg), p) == Some(spot) && IsOpen(cfg, p) && p + 2 <= |s.store.mem|
    ensures ReadsAs(port, s, slave, start, v, WordAfter(spot, s.pending, s.store.mem, p, v), buf, again)
  {
    DeviceFinds(cfg, coils, port, start, 3);
    DeviceWord(cfg, coils, port, s, spot, p, v);
    BankReadsAs(port, s, p, slave, start, v, WordAfter(spot, s.pending, s.store.mem, p, v), buf, again);
  }

  /** A packet buffer that begins with `request`. */
  function Padded(request: seq<byte>): (buf: seq<byte>)
    requires |request| <= BUFFER
    ensures |buf| == BUFFER && request <= buf
  {
    request + Zeros(BUFFER - |request|)
  }

  /**
    Function 6 is faithful, for all words, exactly when the word fits into what is left of its
    element and completes it together with the pending bytes: for elements of one byte never,
    of two bytes at their start always, of more bytes only when the rest is pending.
   */
  lemma WordsComeBackExactly(cfg: Config, coils: Coils, port: Port<Session>, s: Session, spot: Spot, p: nat,
                             slave: byte, start: u16)
    requires LeadsTo(port, cfg, coils) && StoreOk(cfg, s.store) && FindWord(cfg.tables, start, 3) == Some(p)
    requires Locate(EngineOf(cfg), p) == Some(spot) && IsOpen(cfg, p) && p + 2 <= |s.store.mem|
    ensures (forall v: u16, buf, again :: ReadsAs(port, s, slave, start, v, v, buf, again))
       <==> Completes(spot, s.pending, p)
  {
    var m := s.store.mem;
    if Completes(spot, s.pending, p) {
      forall v: u16, buf, again ensures ReadsAs(port, s, slave, start, v, v, buf, again) {
        WordReadsAs(cfg, coils, port, s, spot, p, slave, start, v, buf, again);
      }
    } else {
      var v := Word(Other(m[p]), Other(m[p + 1]));
      var buf, again := Padded(WordRequest(slave, start, v)), Padded(ReadRequest(slave, 3, start, 1));
      WordReadsAs(cfg, coils, port, s, spot, p, slave, start, v, buf, again);
      assert WordAfter(spot, s.pending, m, p, v) != v;
      assert !ReadsAs(port, s, slave, start, v, v, buf, again);
    }
  }

  /** Elements of two bytes take every word, whatever is pending. */
  lemma TwoBytesComplete(spot: Spot, p: Pending, a: nat)
    requires Around(spot, a) && spot == Spot(a, 2)
    ensures Completes(spot, p, a)
  {
    FilledAt(spot, p, a, 0, 0, 0);
    FilledAt(spot, p, a, 0, 0, 1);
  }

  /** Longer elements take a word only when all their other bytes are pending. */
  lemma LongerNeedPending(spot: Spot, p: Pending, a: nat)
    requires Around(spot, a)
    ensures Completes(spot, p, a) <==>
            && a + 2 <= spot.start + spot.item
            && forall k :: 0 <= k < spot.item && spot.start + k != a && spot.start + k != a + 1 ==>
                 Aimed(p, spot.start).cells[k].Some?
  {
    forall k | 0 <= k < spot.item
      ensures Filled(spot, p, a, 0, 0).cells[k].Some? <==>
              (spot.start + k == a || (spot.start + k == a + 1 && a + 1 < spot.start + spot.item)
               || Aimed(p, spot.start).cells[k].Some?)
    {
      FilledAt(spot, p, a, 0, 0, k);
    }
  }
}
