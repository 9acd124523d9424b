/**
  Which frames a Modbus station accepts, byte by byte (main/modbus.c:446-614 and 627-727), and what
  that protects: a request or reply damaged in two adjacent bytes is turned down over RTU and
  taken over TCP.
 */
module FrameChecks {
  import opened Bits
  import opened Memory
  import opened Crc16
  import opened Modbus

  /**
    The checksum behind the data fits. Up to 256 bytes that is a run that leaves zero, as
    section 6.2.2 of MODBUS over Serial Line V1.02 has it; of a longer frame only the first 254
    bytes are run over and compared with the last two.
   */
  predicate ChecksumFits(f: seq<byte>) {
    var n := |f|;
    if n < 3 then false
    else if n <= 256 then Run(0xFFFF, f) == 0
    else Run(0xFFFF, f[..254]) == f[n - 2] as int + 256 * f[n - 1] as int
  }

  lemma ChecksumFitsExactly(f: seq<byte>)
    ensures ModbusCheck(f) <==> ChecksumFits(f)
  {
    if 3 <= |f| <= 256 {
      CheckIsZeroRun(f);
    } else if |f| > 256 {
      assert f[..|f| - 2][..254] == f[..254];
    }
  }

  // ---------------------------------------------------------------------------- requests

  /** How long a request is that came in `length` bytes: what it says itself is what counts. */
  function RequestLength(buf: seq<byte>, length: nat): Option<nat>
    requires |buf| >= 7
  {
    if buf[1] in {0, 1, 2, 3, 4, 5, 6} then Some(8)
    else if buf[1] in {15, 16} then Some(9 + buf[6] as int)
    else if buf[1] == 0x41 then Some(length)
    else None
  }

  /**
    A request of at most 256 bytes is accepted exactly when its function is known and the checksum
    fits at the length that it announces; unknown functions are told from broken frames.
   */
  lemma RequestAcceptedExactly(buf: seq<byte>, length: nat)
    requires |buf| >= 264 && length >= 2
    ensures RequestCheck(buf, length) == 1 <==>
            && length <= 256 && RequestLength(buf, length).Some?
            && ChecksumFits(buf[..RequestLength(buf, length).value])
    ensures RequestCheck(buf, length) == -1 <==> length <= 256 && RequestLength(buf, length).None?
    ensures RequestCheck(buf, length) in {-1, 0, 1}
  {
    if length <= 256 && RequestLength(buf, length).Some? {
      var n := RequestLength(buf, length).value;
      assert n <= 264;
      ChecksumFitsExactly(buf[..n]);
    }
  }

  /** `other` is `buf` but for the bytes at `i` and `i + 1`, one of which at least is another. */
  predicate Damaged(buf: seq<byte>, other: seq<byte>, i: nat) {
    && |buf| == |other| && i + 1 < |buf|
    && (forall k :: 0 <= k < |buf| && k != i && k != i + 1 ==> buf[k] == other[k])
    && (buf[i] != other[i] || buf[i + 1] != other[i + 1])
  }

  lemma DamageShows(buf: seq<byte>, other: seq<byte>, n: nat, i: nat)
    requires Damaged(buf, other, i) && i + 1 < n <= |buf| && n <= 256 && ChecksumFits(buf[..n])
    ensures !ChecksumFits(other[..n])
  {
    var f, g := buf[..n], other[..n];
    assert f[i] != g[i] || f[i + 1] != g[i + 1];
    assert DifferAt(f, g, i);
    ChecksumFitsExactly(f);
    ChecksumFitsExactly(g);
    ModbusDetectsAdjacentChange(f, g, i);
  }

  /**
    An accepted request of up to 256 bytes that is damaged in two adjacent bytes is not accepted,
    unless the damage makes another length of it.
   */
  lemma DamagedRequestIsRejected(buf: seq<byte>, other: seq<byte>, length: nat, i: nat)
    requires |buf| >= 264 && length >= 2 && RequestCheck(buf, length) == 1 && Damaged(buf, other, i)
    requires RequestLength(buf, length).Some? && i + 1 < RequestLength(buf, length).value <= 256
    requires RequestLength(other, length) == RequestLength(buf, length)
    ensures RequestCheck(other, length) == 0
  {
    RequestAcceptedExactly(buf, length);
    RequestAcceptedExactly(other, length);
    DamageShows(buf, other, RequestLength(buf, length).value, i);
  }

  // ----------------------------------------------------------------------------- replies

  /** How long a reply is. The answer to function 5 must carry one of its two values. */
  function ReplyLength(buf: seq<byte>): Option<nat>
    requires |buf| >= 6
  {
    if buf[1] in {0, 1, 2, 3, 4} && buf[2] < 251 then Some(5 + buf[2] as int)
    else if buf[1] == 5 && (buf[4] == 0xff || buf[4] == 0) && buf[5] == 0 then Some(8)
    else if buf[1] in {6, 15, 16} then Some(8)
    else None
  }

  /** The master takes a reply exactly when its checksum fits; a reply to function 0x41 it always takes. */
  lemma ReplyAcceptedExactly(buf: seq<byte>, length: nat)
    requires |buf| >= 264
    ensures ResponseCheck(buf, length) == 1 <==>
            && length <= 256
            && (buf[1] == 0x41 || (ReplyLength(buf).Some? && ChecksumFits(buf[..ReplyLength(buf).value])))
    ensures ResponseCheck(buf, length) in {0, 1}
  {
    if ReplyLength(buf).Some? {
      ChecksumFitsExactly(buf[..ReplyLength(buf).value]);
    }
  }

  lemma DamagedReplyIsRejected(buf: seq<byte>, other: seq<byte>, length: nat, i: nat)
    requires |buf| >= 264 && ResponseCheck(buf, length) == 1 && Damaged(buf, other, i)
    requires buf[1] != 0x41 && other[1] != 0x41 && ReplyLength(buf).Some? && i + 1 < ReplyLength(buf).value
    requires ReplyLength(other) in {ReplyLength(buf), None}
    ensures ResponseCheck(other, length) == 0
  {
    ReplyAcceptedExactly(buf, length);
    ReplyAcceptedExactly(other, length);
    if ReplyLength(other).Some? {
      DamageShows(buf, other, ReplyLength(buf).value, i);
    }
  }

  /** From a reply that is damaged in two adjacent bytes the master takes no words. */
  lemma DamagedReplyHasNoWords(slave: byte, count: nat, frame: seq<byte>, other: seq<byte>, i: nat)
    requires 0 < count <= 125 && |frame| >= 5 && WordsOfReply(slave, count, frame).Some?
    requires Damaged(frame, other, i) && i + 1 < 2 * count + 5
    ensures WordsOfReply(slave, count, other) == None
  {
    var n := 2 * count + 5;
    ChecksumFitsExactly(frame[..n]);
    ChecksumFitsExactly(other[..n]);
    DamageShows(frame, other, n, i);
  }

  // --------------------------------------------------------------------------------- TCP

  /** Over TCP the slave adds a checksum to what it got: the frame of `length` bytes that it then checks. */
  lemma TcpAcceptedExactly(buf: seq<byte>, len: nat)
    requires 6 <= len && len + 2 <= |buf| && |buf| >= 270
    ensures var frame, n := WithFakeCrc(buf, len)[6..], RequestLength(WithFakeCrc(buf, len)[6..], len - 4);
            TcpFullCheck(buf, len) <==> len <= 260 && n.Some? && ChecksumFits(frame[..n.value])
  {
    RequestAcceptedExactly(WithFakeCrc(buf, len)[6..], len - 4);
  }

  /**
    So nothing but the length is checked: a request with a known function whose announced length
    is the one that came is accepted, whatever its other bytes are.
   */
  lemma TcpAcceptsAnyContent(buf: seq<byte>, len: nat)
    requires 13 <= len <= 260 && len + 2 <= |buf| && |buf| >= 270
    requires RequestLength(buf[6..], len - 4) == Some(len - 4)
    ensures TcpFullCheck(buf, len)
  {
    var frame, n := WithFakeCrc(buf, len)[6..], len - 4;
    TcpAcceptedExactly(buf, len);
    var body := buf[6..len];
    assert frame == WithCrc(body) + buf[len + 2..];
    assert frame[..n] == WithCrc(body);
    assert frame[1] == body[1] == buf[6..][1] && frame[6] == body[6] == buf[6..][6];
    WithCrcChecks(body);
    ChecksumFitsExactly(WithCrc(body));
  }

  // ---------------------------------------------------------------------- bytes on the wire

  /** The requests of the master, byte by byte; what it does not build. */
  lemma RequestInBytes(slave: byte, mbFunction: byte, start: u16, n: u16, data: Option<seq<byte>>)
    requires DataFits(mbFunction, n, data)
    ensures var body := RequestBody(slave, mbFunction, start, n, data);
            match mbFunction
            case 1 | 2 | 3 | 4 => body == Some([slave, mbFunction, start / 256, start % 256, n / 256, n % 256])
            case 5 =>
              body == Some([slave, 5, start / 256, start % 256, if data.value[0] % 2 == 1 then 255 else 0, 0])
            case 6 =>
              data.Some? ==> body == Some([slave, 6, start / 256, start % 256, data.value[1], data.value[0]])
            case 15 =>
              data.Some? && n <= 254 ==>
                body == Some([slave, 15, start / 256, start % 256, n / 256, n % 256, (n + 7) / 8] + data.value)
            case 16 =>
              data.Some? && n <= 127 ==>
                && body.Some? && |body.value| == 7 + 2 * n
                && body.value[..7] == [slave, 16, start / 256, start % 256, n / 256, n % 256, 2 * n]
                && forall k :: 0 <= k < n ==>
                     body.value[7 + 2 * k] == data.value[2 * k + 1] && body.value[8 + 2 * k] == data.value[2 * k]
            case _ => body == None
    ensures RequestBody(slave, mbFunction, start, n, data).None? <==>
            || mbFunction == 0 || 7 <= mbFunction <= 14 || mbFunction > 16
            || (mbFunction in {6, 15, 16} && data.None?)
            || (mbFunction == 15 && n > 254) || (mbFunction == 16 && n > 127)
  {
    var head := [slave, mbFunction] + Big(start);
    assert head + Big(n) == [slave, mbFunction, start / 256, start % 256, n / 256, n % 256];
    if mbFunction == 5 || (mbFunction == 6 && data.Some?) {
      assert mbFunction == 6 ==> head + [data.value[1], data.value[0]]
                                 == [slave, mbFunction, start / 256, start % 256, data.value[1], data.value[0]];
      assert head + [0xff, 0] == [slave, mbFunction, start / 256, start % 256, 0xff, 0];
      assert head + [0, 0] == [slave, mbFunction, start / 256, start % 256, 0, 0];
    } else if mbFunction == 15 && data.Some? && n <= 254 {
      assert head + Big(n) + [(n + 7) / 8]
          == [slave, mbFunction, start / 256, start % 256, n / 256, n % 256, (n + 7) / 8];
    } else if mbFunction == 16 && data.Some? && n <= 127 {
      forall k | 0 <= k < n
        ensures Swapped(data.value[..2 * n])[2 * k] == data.value[2 * k + 1]
        ensures Swapped(data.value[..2 * n])[2 * k + 1] == data.value[2 * k]
      {
        SwappedPair(data.value[..2 * n], k);
      }
    }
  }

  lemma {:induction false} SwappedPair(s: seq<byte>, k: nat)
    requires 2 * k + 1 < |s|
    ensures Swapped(s)[2 * k] == s[2 * k + 1] && Swapped(s)[2 * k + 1] == s[2 * k]
  {
    if k > 0 {
      SwappedPair(s[2..], k - 1);
    }
  }

  /** The number that two bytes of a frame stand for, the high byte first. */
  function Number(buf: seq<byte>, i: nat): nat
    requires i + 1 < |buf|
  {
    256 * buf[i] as int + buf[i + 1] as int
  }

  /**
    When a read or write of words is refused, and with which code: 3 for a number of words that is
    not between 1 and 125, else 2 for an address without a register, else what the registers
    report; any other function is refused with 1. A refused read or write of words whose place or
    number is wrong changes nothing.
   */
  lemma RefusedExactly<S>(port: Port<S>, s: S, buf: seq<byte>)
    requires |buf| >= 264
    ensures var done, f, start, n := Served(port, s, buf), buf[1], Number(buf, 2), Number(buf, 4);
            match f
            case 3 | 4 =>
              && done.0 == s
              && (done.1 == Exception(3) <==> n < 1 || n > 125)
              && (done.1 == Exception(2) <==> 1 <= n <= 125 && port.find(start, f) == None)
              && (1 <= n <= 125 && port.find(start, f).Some? <==> done.1.Fine?)
            case 6 =>
              match port.find(start, 3) {
                case None => done == (s, Exception(2))
                case Some(p) =>
                  var r := port.setValue(s, p, [buf[5], buf[4]]);
                  && done.0 == r.0 && (done.1.Fine? <==> r.1 >= 0)
                  && (r.1 == -3 ==> done.1 == Exception(3)) && (r.1 < 0 && r.1 != -3 ==> done.1 == Exception(2))
              }
            case 16 =>
              if n < 1 || n > 125 then done == (s, Exception(3))
              else match port.find(start, 3) {
                case None => done == (s, Exception(2))
                case Some(p) =>
                  exists data: seq<byte> :: SwappedIn(buf, n, data) &&
                    var r := port.setBuffer(s, p, data);
                    && done.0 == r.0 && (done.1.Fine? <==> r.1 >= 0)
                    && (r.1 == -3 ==> done.1 == Exception(3)) && (r.1 < 0 && r.1 != -3 ==> done.1 == Exception(2))
              }
            case _ => f in {0, 1, 2, 5, 15} || done == (s, Exception(1))
  {
    var n := Number(buf, 4);
    if buf[1] == 16 && 1 <= n <= 125 {
      var data := Swapped(buf[7..7 + 2 * n]);
      forall k | 0 <= k < n ensures data[2 * k] == buf[8 + 2 * k] && data[2 * k + 1] == buf[7 + 2 * k] {
        SwappedPair(buf[7..7 + 2 * n], k);
      }
      assert SwappedIn(buf, n, data);
    }
  }

  /** `data` are the `n` words in a write request, the low byte of each first. */
  predicate SwappedIn(buf: seq<byte>, n: nat, data: seq<byte>)
    requires 7 + 2 * n <= |buf|
  {
    && |data| == 2 * n
    && forall k :: 0 <= k < n ==> data[2 * k] == buf[8 + 2 * k] && data[2 * k + 1] == buf[7 + 2 * k]
  }

  lemma LastCoilWraps(start: u16, n: u16, last: nat)
    requires last == (start + n + 65535) % 65536
    ensures LastCoil(start, n) == last
  {
  }

  lemma CoilReadRefused<S>(port: Port<S>, s: S, buf: seq<byte>, start: nat, n: nat, last: nat)
    requires |buf| >= 264 && start == Number(buf, 2) && n == Number(buf, 4) && last == (start + n + 65535) % 65536
    requires buf[1] <= 2
    ensures var answer := Served(port, s, buf).1;
            var missing := port.find(start, buf[1]) == None || port.find(last, buf[1]) == None;
            && (answer == Exception(2) <==> missing)
            && (answer == Exception(3) <==> !missing && (n == 0 || n > 2000))
            && (answer.Fine? <==> !missing && 1 <= n <= 2000)
  {
    LastCoilWraps(WordAt(buf, 2), WordAt(buf, 4), last);
    assert Served(port, s, buf).1 == ReadCoils(port, s, buf);
  }

  lemma CoilWriteRefused<S>(port: Port<S>, s: S, buf: seq<byte>, start: nat, n: nat, last: nat)
    requires |buf| >= 264 && start == Number(buf, 2) && n == Number(buf, 4) && last == (start + n + 65535) % 65536
    requires buf[1] == 15
    ensures var answer := Served(port, s, buf).1;
            var missing := port.find(start, 1) == None || port.find(last, 1) == None;
            var wrong := n == 0 || n > 1968 || buf[6] != (n + 7) / 8;
            && (answer == Exception(2) <==> missing)
            && (answer == Exception(3) <==> !missing && wrong)
            && (answer.Fine? <==> !missing && !wrong)
  {
    LastCoilWraps(WordAt(buf, 2), WordAt(buf, 4), last);
    assert Served(port, s, buf) == WriteCoils(port, s, buf);
  }

  /**
    When coils are refused: with 2 when the first or the last of them, counted around at 65536, has
    no register, else with 3 for none or more than 2000 to read, none or more than 1968 to write, a
    number of bytes that is not theirs, or a value for a single coil that is neither 0xff00 nor 0.
   */
  lemma CoilsRefusedExactly<S>(port: Port<S>, s: S, buf: seq<byte>, start: nat, n: nat, last: nat)
    requires |buf| >= 264 && start == Number(buf, 2) && n == Number(buf, 4) && last == (start + n + 65535) % 65536
    ensures var answer, f := Served(port, s, buf).1, buf[1];
            match f
            case 0 | 1 | 2 =>
              var missing := port.find(start, f) == None || port.find(last, f) == None;
              && (answer == Exception(2) <==> missing)
              && (answer == Exception(3) <==> !missing && (n == 0 || n > 2000))
              && (answer.Fine? <==> !missing && 1 <= n <= 2000)
            case 5 =>
              && (answer == Exception(2) <==> port.find(start, 1) == None)
              && (answer == Exception(3) <==> port.find(start, 1).Some? && n != 0xff00 && n != 0)
              && (answer.Fine? <==> port.find(start, 1).Some? && (n == 0xff00 || n == 0))
            case 15 =>
              var missing := port.find(start, 1) == None || port.find(last, 1) == None;
              var wrong := n == 0 || n > 1968 || buf[6] != (n + 7) / 8;
              && (answer == Exception(2) <==> missing)
              && (answer == Exception(3) <==> !missing && wrong)
              && (answer.Fine? <==> !missing && !wrong)
            case _ => true
  {
    if buf[1] <= 2 {
      CoilReadRefused(port, s, buf, start, n, last);
    } else if buf[1] == 15 {
      CoilWriteRefused(port, s, buf, start, n, last);
    }
  }

  /** A request over TCP: its number, two zeros and its length come first. */
  lemma TcpRequestInBytes(transaction: u16, body: seq<byte>)
    requires |body| < 65536
    ensures var request := TcpRequest(transaction, body);
            && |request| == 6 + |body| && request[6..] == body
            && request[..6] == [transaction / 256, transaction % 256, 0, 0, |body| / 256, |body| % 256]
  {
  }
}
