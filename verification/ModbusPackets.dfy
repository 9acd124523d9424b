/**
  The packet routines of main/modbus.c as they run: requests are put together in a buffer, and
  the slave turns a request into its reply in place.
 */
module ModbusPackets {
  import opened Bits
  import opened Memory
  import opened Crc16
  import opened Modbus

  /** Swapping one word more. */
  lemma {:induction false} SwappedNext(s: seq<byte>, hi: byte, lo: byte)
    requires |s| % 2 == 0
    ensures Swapped(s + [hi, lo]) == Swapped(s) + [lo, hi]
  {
    if s == [] {
      assert s + [hi, lo] == [hi, lo];
      assert [hi, lo][2..] == [];
    } else {
      assert (s + [hi, lo])[2..] == s[2..] + [hi, lo];
      SwappedNext(s[2..], hi, lo);
    }
  }

  method HtonsBuff(buff: array<byte>, from: nat, words: nat)
    requires from + 2 * words <= buff.Length
    modifies buff
    ensures buff[..] == old(buff[..from]) + Swapped(old(buff[from..from + 2 * words])) + old(buff[from + 2 * words..])
  {
    ghost var before := buff[..];
    SwapsBegin(before, from);
    for i := 0 to words
      invariant buff[..] == PartlySwapped(before, from, 2 * i)
    {
      SwapsFollow(before, buff[..], from, 2 * i);
      SwapWord(buff, from + 2 * i);
    }
  }

  /** A packet of which `n` bytes from `from` on have been swapped. */
  function PartlySwapped(s: seq<byte>, from: nat, n: nat): (r: seq<byte>)
    requires from + n <= |s|
    ensures |r| == |s|
  {
    s[..from] + Swapped(s[from..from + n]) + s[from + n..]
  }

  lemma SwapsBegin(s: seq<byte>, from: nat)
    requires from <= |s|
    ensures PartlySwapped(s, from, 0) == s
  {
    assert s[from..from] == [];
  }

  method SwapWord(buff: array<byte>, at: nat)
    requires at + 2 <= buff.Length
    modifies buff
    ensures buff[..] == old(buff[..])[at := old(buff[at + 1])][at + 1 := old(buff[at])]
  {
    buff[at], buff[at + 1] := buff[at + 1], buff[at];
  }

  lemma SwapsFollow(s: seq<byte>, now: seq<byte>, from: nat, n: nat)
    requires from + n + 2 <= |s| && n % 2 == 0 && now == PartlySwapped(s, from, n)
    ensures now[from + n := now[from + n + 1]][from + n + 1 := now[from + n]] == PartlySwapped(s, from, n + 2)
  {
    var at := from + n;
    SwappedNext(s[from..at], s[at], s[at + 1]);
    assert s[from..at + 2] == s[from..at] + [s[at], s[at + 1]];
    PairSwapped(s[..from] + Swapped(s[from..at]), s[at..]);
    assert s[at..][2..] == s[at + 2..];
    assert PartlySwapped(s, from, n + 2) == s[..from] + Swapped(s[from..at]) + [s[at + 1], s[at]] + s[at + 2..];
  }

  lemma PairSwapped(head: seq<byte>, tail: seq<byte>)
    requires |tail| >= 2
    ensures var n := |head|;
            && (head + tail)[n] == tail[0] && (head + tail)[n + 1] == tail[1]
            && (head + tail)[n := tail[1]][n + 1 := tail[0]] == head + [tail[1], tail[0]] + tail[2..]
  {
  }

  /** The checksum is stored behind `len` bytes. */
  method PutCrc(pckt: array<byte>, from: nat, len: nat)
    requires from + len + 2 <= pckt.Length
    modifies pckt
    ensures pckt[..from] == old(pckt[..from]) && pckt[from + len + 2..] == old(pckt[from + len + 2..])
    ensures pckt[from..from + len + 2] == WithCrc(old(pckt[from..from + len]))
  {
    var crc := ModbusCrc16(pckt, from, len);
    pckt[from + len], pckt[from + len + 1] := crc % 256, crc / 256;
  }

  /** The data of a request that writes words or coils. */
  method PutData(packet: array<byte>, at: nat, n: u16, data: seq<byte>) returns (end: nat)
    requires at + 3 + |data| <= packet.Length && |data| < 256
    modifies packet
    ensures end == at + 3 + |data|
    ensures packet[..end] == old(packet[..at]) + Big(n) + [|data|] + data
  {
    packet[at], packet[at + 1], packet[at + 2] := n / 256, n % 256, |data|;
    ghost var head := packet[..at + 3];
    SpliceParts(packet[..], at + 3, data);
    CopyIn(packet, at + 3, data);
    end := at + 3 + |data|;
    assert packet[..end] == head + data;
  }

  /** Functions 15 and 16: the number, the number of bytes and the data. */
  method PutWrite(packet: array<byte>, n: u16, data: seq<byte>, swapped: bool) returns (end: nat)
    requires packet.Length >= BUFFER && |data| < 256 && (swapped ==> |data| == 2 * n)
    modifies packet
    ensures end == 7 + |data|
    ensures packet[..end] == old(packet[..4]) + Big(n) + [|data|] + if swapped then Swapped(data) else data
  {
    end := PutData(packet, 4, n, data);
    if swapped {
      ghost var head := old(packet[..4]) + Big(n) + [|data|];
      assert packet[..end] == head + data;
      assert packet[..7] == head && packet[7..7 + 2 * n] == data;
      HtonsBuff(packet, 7, n);
      assert packet[..end] == head + Swapped(data);
    }
  }

  /** `modbus_make_packet` up to the checksum. */
  method PutBody(slave: byte, mbFunction: byte, start: u16, n: u16, data: Option<seq<byte>>, packet: array<byte>)
    returns (end: int)
    requires packet.Length >= BUFFER && DataFits(mbFunction, n, data)
    modifies packet
    ensures var body := RequestBody(slave, mbFunction, start, n, data);
            if body == None then end == -1
            else end == |body.value| && end + 2 <= packet.Length && packet[..end] == body.value
  {
    packet[0], packet[1], packet[2], packet[3] := slave, mbFunction, start / 256, start % 256;
    assert packet[..4] == [slave, mbFunction] + Big(start);
    if 1 <= mbFunction <= 4 {
      packet[4], packet[5] := n / 256, n % 256;
      end := 6;
      assert packet[..6] == [slave, mbFunction] + Big(start) + Big(n);
    } else if mbFunction == 16 && n <= 127 {
      if data == None {
        return -1;
      }
      end := PutWrite(packet, n, data.value[..2 * n], true);
    } else if mbFunction == 15 && n <= 254 {
      if data == None {
        return -1;
      }
      end := PutWrite(packet, n, data.value, false);
    } else if mbFunction == 6 {
      if data == None {
        return -1;
      }
      packet[4], packet[5] := data.value[1], data.value[0];
      end := 6;
      assert packet[..6] == [slave, mbFunction] + Big(start) + [data.value[1], data.value[0]];
    } else if mbFunction == 5 {
      var on := data.value[0] % 2 == 1;
      packet[4], packet[5] := if on then 0xff else 0, 0;
      end := 6;
      assert packet[..6] == [slave, mbFunction] + Big(start) + if on then [0xff, 0] else [0, 0];
    } else {
      return -1;
    }
  }

  /** `modbus_make_packet` */
  method MakePacket(slave: byte, mbFunction: byte, start: u16, n: u16, data: Option<seq<byte>>, packet: array<byte>)
    returns (length: int)
    requires packet.Length >= BUFFER && DataFits(mbFunction, n, data)
    modifies packet
    ensures var body := RequestBody(slave, mbFunction, start, n, data);
            if body == None then length == -1
            else length == |body.value| + 2 <= packet.Length && packet[..length] == WithCrc(body.value)
  {
    length := PutBody(slave, mbFunction, start, n, data, packet);
    if length > 0 {
      assert packet[0..length] == packet[..length];
      PutCrc(packet, 0, length);
      assert packet[0..length + 2] == packet[..length + 2];
      length := length + 2;
    }
  }

  // ---------------------------------------------------------------------------- the slave

  /** The packet `now`, with error and length, carries the answer to the packet `before`. */
  ghost predicate Carries(answer: Answer, error: byte, lenReply: nat, now: seq<byte>, before: seq<byte>) {
    && |now| == |before| >= BUFFER
    && match answer
       case Fine(body) => error == 0 && lenReply == |body| + 2 <= |now| && body <= now
       case Exception(code) => code != 0 && error == code && now[..2] == before[..2]
  }

  /** The error for a negative result of the register bank. */
  method ErrorOf(result: int) returns (error: byte)
    ensures error == if result < 0 then CodeOf(result) else 0
  {
    if result < 0 {
      if result == -2 {
        error := ILLEGAL_ADDRESS;
      } else if result == -3 {
        error := ILLEGAL_VALUE;
      } else {
        error := ILLEGAL_ADDRESS;
      }
    } else {
      error := 0;
    }
  }

  /** The body of a reply with data: a byte with their number, then the data. */
  method PutReplyData(pckt: array<byte>, at: nat, data: seq<byte>)
    requires at + 3 + |data| <= pckt.Length && |data| < 256
    modifies pckt
    ensures pckt[..at] == old(pckt[..at])
    ensures pckt[at..at + 3 + |data|] == [old(pckt[at]), old(pckt[at + 1]), |data|] + data
    ensures pckt[at..at + 3 + |data|] <= pckt[at..]
  {
    pckt[at + 2] := |data|;
    ghost var head := pckt[..at + 3];
    SpliceParts(pckt[..], at + 3, data);
    CopyIn(pckt, at + 3, data);
    assert pckt[..at + 3 + |data|] == head + data;
    assert head[at..] == [pckt[at], pckt[at + 1], |data|];
    assert pckt[at..at + 3 + |data|] == head[at..] + data;
    assert pckt[..at] == head[..at];
  }

  /** Functions 0, 1 and 2. */
  method ServeCoils<S>(port: Port<S>, s: S, pckt: array<byte>, at: nat) returns (error: byte, lenReply: nat)
    requires at + BUFFER <= pckt.Length
    modifies pckt
    ensures pckt[..at] == old(pckt[..at])
    ensures Carries(ReadCoils(port, s, old(pckt[at..])), error, lenReply, pckt[at..], old(pckt[at..]))
  {
    ghost var before := pckt[at..];
    var start, n := Word(pckt[at + 3], pckt[at + 2]), Word(pckt[at + 5], pckt[at + 4]);
    assert start == WordAt(before, 2) && n == WordAt(before, 4) && before[1] == pckt[at + 1];
    var p := port.find(start, pckt[at + 1]);
    var last := port.find(LastCoil(start, n), pckt[at + 1]);
    error, lenReply := 0, 0;
    if p == None || last == None {
      error := ILLEGAL_ADDRESS;
    } else if n == 0 || n > MODBUS_MAX_READ_COILS {
      error := ILLEGAL_VALUE;
    } else {
      var bytes := (n + 7) / 8;
      var data := Exactly(port.getCoils(s, p.value, n), bytes);
      assert ReadCoils(port, s, before) == Fine([before[0], before[1], bytes] + data);
      PutReplyData(pckt, at, data);
      lenReply := bytes + 5;
      assert [before[0], before[1], bytes] + data == pckt[at..at + 3 + bytes];
    }
  }

  /** Functions 3 and 4. */
  method ServeRegisters<S>(port: Port<S>, s: S, pckt: array<byte>, at: nat) returns (error: byte, lenReply: nat)
    requires at + BUFFER <= pckt.Length
    modifies pckt
    ensures pckt[..at] == old(pckt[..at])
    ensures Carries(ReadRegisters(port, s, old(pckt[at..])), error, lenReply, pckt[at..], old(pckt[at..]))
  {
    ghost var before := pckt[at..];
    var start, n := Word(pckt[at + 3], pckt[at + 2]), Word(pckt[at + 5], pckt[at + 4]);
    assert start == WordAt(before, 2) && n == WordAt(before, 4) && before[1] == pckt[at + 1];
    var p := port.find(start, pckt[at + 1]);
    error, lenReply := 0, 0;
    if p == None {
      error := ILLEGAL_ADDRESS;
    }
    if n < 1 || n > MODBUS_MAX_MODBUS_REGS_NUM {
      error := ILLEGAL_VALUE;
    } else if error == 0 {
      var data := Exactly(port.getBuffer(s, p.value, 2 * n), 2 * n);
      assert ReadRegisters(port, s, before) == Fine([before[0], before[1], 2 * n] + Swapped(data));
      PutSwappedData(pckt, at, n, data);
      lenReply := 2 * n + 5;
      assert [before[0], before[1], 2 * n] + Swapped(data) == pckt[at..at + 3 + 2 * n];
    }
  }

  /** The words of a reply go out in network order. */
  method PutSwappedData(pckt: array<byte>, at: nat, n: nat, data: seq<byte>)
    requires at + 3 + |data| <= pckt.Length && |data| == 2 * n < 256
    modifies pckt
    ensures pckt[..at] == old(pckt[..at])
    ensures pckt[at..at + 3 + 2 * n] == [old(pckt[at]), old(pckt[at + 1]), 2 * n] + Swapped(data)
    ensures pckt[at..at + 3 + 2 * n] <= pckt[at..]
  {
    PutReplyData(pckt, at, data);
    ghost var before := pckt[..at + 3];
    assert pckt[at + 3..at + 3 + 2 * n] == data;
    HtonsBuff(pckt, at + 3, n);
    assert pckt[..at + 3 + 2 * n] == before + Swapped(data);
    assert pckt[..at] == before[..at];
    assert before[at..] == [before[at], before[at + 1], 2 * n];
    assert pckt[at..at + 3 + 2 * n] == before[at..] + Swapped(data);
  }

  /** Function 5. */
  method ServeWriteCoil<S>(port: Port<S>, s: S, pckt: array<byte>, at: nat)
    returns (after: S, error: byte, lenReply: nat)
    requires at + BUFFER <= pckt.Length
    ensures after == WriteCoil(port, s, pckt[at..]).0
    ensures Carries(WriteCoil(port, s, pckt[at..]).1, error, lenReply, pckt[at..], pckt[at..])
  {
    after, error, lenReply := s, 0, 0;
    var p := port.find(Word(pckt[at + 3], pckt[at + 2]), MDB_COILS_RW);
    var status := Word(pckt[at + 5], pckt[at + 4]);
    if p == None {
      error := ILLEGAL_ADDRESS;
    } else {
      var value := 0;
      if status == 0xff00 {
        value := 1;
      } else if status == 0 {
        value := 0;
      } else {
        error := ILLEGAL_VALUE;
      }
      if error == 0 {
        after := port.setCoils(s, p.value, [value]);
      }
      lenReply := 8;
    }
  }

  /** Function 6. */
  method ServeWriteRegister<S>(port: Port<S>, s: S, pckt: array<byte>, at: nat)
    returns (after: S, error: byte, lenReply: nat)
    requires at + BUFFER <= pckt.Length
    ensures after == WriteRegister(port, s, pckt[at..]).0
    ensures Carries(WriteRegister(port, s, pckt[at..]).1, error, lenReply, pckt[at..], pckt[at..])
  {
    after, error, lenReply := s, 0, 0;
    var p := port.find(Word(pckt[at + 3], pckt[at + 2]), MDB_HOLDING_REGS_RW);
    if p == None {
      error := ILLEGAL_ADDRESS;
    } else {
      lenReply := 8;
      var done := port.setValue(s, p.value, [pckt[at + 5], pckt[at + 4]]);
      after := done.0;
      error := ErrorOf(done.1);
    }
  }

  /** Function 15. */
  method ServeWriteCoils<S>(port: Port<S>, s: S, pckt: array<byte>, at: nat)
    returns (after: S, error: byte, lenReply: nat)
    requires at + BUFFER <= pckt.Length
    ensures after == WriteCoils(port, s, pckt[at..]).0
    ensures Carries(WriteCoils(port, s, pckt[at..]).1, error, lenReply, pckt[at..], pckt[at..])
  {
    after, error, lenReply := s, 0, 0;
    var start, n := Word(pckt[at + 3], pckt[at + 2]), Word(pckt[at + 5], pckt[at + 4]);
    var p := port.find(start, MDB_COILS_RW);
    if p != None && port.find(LastCoil(start, n), MDB_COILS_RW) != None {
      if n == 0 || n > MODBUS_MAX_WRITE_COILS || pckt[at + 6] != (n + 7) / 8 {
        error := ILLEGAL_VALUE;
      } else {
        assert pckt[at + 7..at + 7 + (n + 7) / 8] == pckt[at..][7..7 + (n + 7) / 8];
        after := port.setCoils(s, p.value, pckt[at + 7..at + 7 + (n + 7) / 8]);
        lenReply := 8;
      }
    } else {
      error := ILLEGAL_ADDRESS;
    }
  }

  /** Function 16: the words are swapped where they are. */
  method ServeWriteRegisters<S>(port: Port<S>, s: S, pckt: array<byte>, at: nat)
    returns (after: S, error: byte, lenReply: nat)
    requires at + BUFFER <= pckt.Length
    modifies pckt
    ensures pckt[..at] == old(pckt[..at])
    ensures after == WriteRegisters(port, s, old(pckt[at..])).0
    ensures Carries(WriteRegisters(port, s, old(pckt[at..])).1, error, lenReply, pckt[at..], old(pckt[at..]))
  {
    after, error, lenReply := s, 0, 0;
    var n := Word(pckt[at + 5], pckt[at + 4]);
    var p := port.find(Word(pckt[at + 3], pckt[at + 2]), MDB_HOLDING_REGS_RW);
    if p == None {
      error := ILLEGAL_ADDRESS;
    }
    if n < 1 || n > MODBUS_MAX_MODBUS_REGS_NUM {
      error := ILLEGAL_VALUE;
    }
    if error == 0 {
      SwapPayload(pckt, at, n);
      var done := port.setBuffer(s, p.value, pckt[at + 7..at + 7 + 2 * n]);
      after := done.0;
      error := ErrorOf(done.1);
      if error == 0 {
        lenReply := 8;
      }
    }
  }

  /** The words of a write request are swapped; its first six bytes stay. */
  method SwapPayload(pckt: array<byte>, at: nat, n: nat)
    requires at + 7 + 2 * n <= pckt.Length
    modifies pckt
    ensures pckt[..at] == old(pckt[..at])
    ensures pckt[at..][..6] == old(pckt[at..])[..6] && pckt[at..][..2] == old(pckt[at..])[..2]
    ensures pckt[at + 7..at + 7 + 2 * n] == Swapped(old(pckt[at..])[7..7 + 2 * n])
  {
    ghost var before := pckt[..];
    assert before[at..][7..7 + 2 * n] == before[at + 7..at + 7 + 2 * n];
    HtonsBuff(pckt, at + 7, n);
    assert pckt[..at + 7] == before[..at + 7];
    assert pckt[..at] == pckt[..at + 7][..at];
    assert pckt[at..][..6] == before[..at + 7][at..][..6];
    assert pckt[at..][..2] == before[..at + 7][at..][..2];
  }

  /** `modbus_rtu_packet`: the request at `at` becomes the reply. */
  method RtuPacket<S>(port: Port<S>, s: S, pckt: array<byte>, at: nat) returns (after: S, lenReply: nat)
    requires at + BUFFER <= pckt.Length
    modifies pckt
    ensures pckt[..at] == old(pckt[..at])
    ensures var served := Served(port, s, old(pckt[at..]));
            && after == served.0 && lenReply == |Reply(old(pckt[at..]), served.1)|
            && at + lenReply <= pckt.Length && pckt[at..at + lenReply] == Reply(old(pckt[at..]), served.1)
  {
    ghost var before := pckt[at..];
    var error: byte;
    after := s;
    var mbFunction := pckt[at + 1];
    if mbFunction <= 2 {
      error, lenReply := ServeCoils(port, s, pckt, at);
    } else if mbFunction == 3 || mbFunction == 4 {
      error, lenReply := ServeRegisters(port, s, pckt, at);
    } else if mbFunction == 5 {
      after, error, lenReply := ServeWriteCoil(port, s, pckt, at);
    } else if mbFunction == 6 {
      after, error, lenReply := ServeWriteRegister(port, s, pckt, at);
    } else if mbFunction == 15 {
      after, error, lenReply := ServeWriteCoils(port, s, pckt, at);
    } else if mbFunction == 16 {
      after, error, lenReply := ServeWriteRegisters(port, s, pckt, at);
    } else {
      error, lenReply := ILLEGAL_FUNCTION, 0;
    }
    lenReply := FinishReply(Served(port, s, before).1, error, lenReply, pckt, at, before);
  }

  /** An error turns the packet into an exception; the checksum goes behind either. */
  method FinishReply(ghost answer: Answer, error: byte, length: nat, pckt: array<byte>, at: nat,
                     ghost before: seq<byte>)
    returns (lenReply: nat)
    requires at + BUFFER <= pckt.Length && Carries(answer, error, length, pckt[at..], before)
    modifies pckt
    ensures pckt[..at] == old(pckt[..at])
    ensures lenReply == |Reply(before, answer)| && at + lenReply <= pckt.Length
    ensures pckt[at..at + lenReply] == Reply(before, answer)
  {
    lenReply := length;
    assert pckt[at..][0] == pckt[at] && pckt[at..][1] == pckt[at + 1];
    if error != 0 {
      assert before[..2][0] == before[0] && before[..2][1] == before[1];
      assert pckt[at..][..2][0] == pckt[at] && pckt[at..][..2][1] == pckt[at + 1];
      pckt[at + 1] := Flagged(pckt[at + 1]);
      pckt[at + 2] := error;
      lenReply := 5;
      assert pckt[at..at + 3] == [before[0], Flagged(before[1]), error];
    } else {
      assert pckt[at..at + length - 2] == pckt[at..][..length - 2] == answer.body;
    }
    PutCrc(pckt, at, lenReply - 2);
  }

  /** `modbus_tcp_packet` */
  method TcpPacket<S>(port: Port<S>, s: S, pckt: array<byte>, len: nat) returns (after: S, lenReply: nat)
    requires MODBUS_TCP_HEADER_SIZE + BUFFER <= pckt.Length && MODBUS_TCP_HEADER_SIZE <= len && len + 2 <= pckt.Length
    modifies pckt
    ensures var buf := WithFakeCrc(old(pckt[..]), len);
            var served := Served(port, s, buf[6..]);
            && after == served.0 && lenReply == |TcpReply(buf, served.1)| <= pckt.Length
            && pckt[..lenReply] == TcpReply(buf, served.1)
  {
    ghost var buf := WithFakeCrc(pckt[..], len);
    PutFakeCrc(pckt, len);
    assert buf[6..] == pckt[6..];
    after, lenReply := RtuPacket(port, s, pckt, 6);
    ReplyIsLong(port, s, buf[6..]);
    lenReply := FinishTcp(pckt, lenReply, buf[..6], Reply(buf[6..], Served(port, s, buf[6..]).1));
    assert buf[..6][..4] == buf[..4];
  }

  method PutFakeCrc(pckt: array<byte>, len: nat)
    requires MODBUS_TCP_HEADER_SIZE <= len && len + 2 <= pckt.Length
    modifies pckt
    ensures pckt[..] == WithFakeCrc(old(pckt[..]), len)
  {
    ghost var before := pckt[..];
    assert before[6..len] == pckt[6..len];
    PutCrc(pckt, 6, len - 6);
    assert pckt[..] == pckt[..6] + pckt[6..len + 2] + pckt[len + 2..];
  }

  /** The header takes the new length, and the checksum is cut off. */
  method FinishTcp(pckt: array<byte>, length: nat, ghost head: seq<byte>, ghost reply: seq<byte>)
    returns (lenReply: nat)
    requires 4 < length == |reply| && 6 + length <= pckt.Length
    requires pckt[..6] == head && pckt[6..6 + length] == reply
    modifies pckt
    ensures lenReply == length + 4
    ensures pckt[..lenReply] == head[..4] + [(length - 2) / 256 % 256, (length - 2) % 256] + reply[..length - 2]
  {
    lenReply := length;
    if lenReply > 4 {
      lenReply := lenReply - 2;
      pckt[4] := lenReply / 256 % 256;
      pckt[5] := lenReply % 256;
      lenReply := lenReply + MODBUS_TCP_HEADER_SIZE;
    }
    assert pckt[..4] == head[..4];
    assert pckt[6..6 + length] == reply;
    assert pckt[6..lenReply] == pckt[6..6 + length][..length - 2];
    assert pckt[..lenReply] == pckt[..4] + [pckt[4], pckt[5]] + pckt[6..lenReply];
  }

  lemma ReplyIsLong<S>(port: Port<S>, s: S, buf: seq<byte>)
    requires |buf| >= BUFFER
    ensures |Reply(buf, Served(port, s, buf).1)| > 4
  {
    ServedExpected(port, s, buf);
  }

  /** `genenerate_error_packet` */
  method ErrorPacket(slave: byte, packet: array<byte>, at: nat, code: byte)
    requires at + 5 <= packet.Length
    modifies packet
    ensures packet[..at] == old(packet[..at])
    ensures packet[at..at + 5] == WithCrc([slave, Flagged(old(packet[at + 1])), code])
    ensures packet[at..at + 3] == [slave, Flagged(old(packet[at + 1])), code]
  {
    packet[at], packet[at + 1], packet[at + 2] := slave, Flagged(packet[at + 1]), code;
    assert packet[at..at + 3] == [slave, Flagged(old(packet[at + 1])), code];
    PutCrc(packet, at, 3);
    assert packet[at..at + 3] == packet[at..at + 5][..3];
  }

  /** `modbus_err_packet_type`: five bytes over RTU, nine over TCP. */
  method ErrPacketType(tcp: bool, slave: byte, packet: array<byte>, code: byte) returns (len: nat)
    requires packet.Length >= 11
    modifies packet
    ensures !tcp ==> len == 5 && packet[..len] == WithCrc([slave, Flagged(old(packet[1])), code])
    ensures tcp ==> len == 9 && packet[..len] == old(packet[..4]) + [0, 3] + [slave, Flagged(old(packet[7])), code]
  {
    if tcp {
      ghost var head, body := packet[..6], [slave, Flagged(packet[7]), code];
      ErrorPacket(slave, packet, 6, code);
      assert packet[..9] == head + body;
      len := 9;
      packet[4], packet[5] := 0, 3;
      assert packet[..9] == (head + body)[4 := 0][5 := 3];
      assert (head + body)[4 := 0][5 := 3] == head[..4] + [0, 3] + body;
    } else {
      ErrorPacket(slave, packet, 0, code);
      assert packet[0..5] == packet[..5];
      len := 5;
    }
  }

  // --------------------------------------------------------------------------- the master

  const INVALID_FRAME: int := -104

  function Min(a: nat, b: nat): (m: nat)
    ensures m <= a && m <= b && m in {a, b}
  {
    if a <= b then a else b
  }

  lemma {:induction false} WordsFromPrefix(frame: seq<byte>, n: nat, k: nat)
    requires k <= n && 2 * n + 5 <= |frame|
    ensures WordsFrom(frame, n)[..k] == WordsFrom(frame, k)
  {
    if k < n {
      WordsFromPrefix(frame, n - 1, k);
      assert WordsFrom(frame, n)[..k] == WordsFrom(frame, n - 1)[..k];
    } else {
      assert WordsFrom(frame, n)[..n] == WordsFrom(frame, n);
    }
  }

  /**
    The end of `modbus_master_read_registers`, from the received frame on: the reply is checked,
    and as many of its words as the destination holds are copied.
   */
  method TakeWords(tcp: bool, frame: array<byte>, response: nat, slave: byte, count: nat, dest: array<u16>)
    returns (res: int)
    requires 0 < count <= MODBUS_MAX_MODBUS_REGS_NUM
    requires frame.Length >= MODBUS_TCP_HEADER_SIZE + BUFFER && response + 2 <= frame.Length
    modifies frame, dest
    ensures frame[..] == if tcp && response >= 6 then WithFakeCrc(old(frame[..]), response) else old(frame[..])
    ensures response < 6 ==> res == INVALID_FRAME && dest[..] == old(dest[..])
    ensures response >= 6 ==>
        var body := Unwrapped(tcp, old(frame[..]), response);
        match WordsOfReply(slave, count, body)
        case Some(words) =>
          var k := Min(count, dest.Length);
          res == response && dest[..] == words[..k] + old(dest[..])[k..]
        case None =>
          && dest[..] == old(dest[..])
          && res == if body[2] != 2 * count || body[0] != slave then 0 else INVALID_FRAME
  {
    if response < 6 {
      return INVALID_FRAME;
    }
    ghost var body := Unwrapped(tcp, frame[..], response);
    var at := FindBody(tcp, frame, response);
    assert frame[at] == frame[at..][0] && frame[at + 2] == frame[at..][2];
    if frame[at + 2] != 2 * count || frame[at] != slave {
      return 0;
    }
    var announced: nat := frame[at + 2];
    var calcLen := announced + 3 + 2;
    var ok := ModbusCrc16Check(frame, at, calcLen);
    assert frame[at..at + calcLen] == body[..calcLen];
    if !ok {
      return INVALID_FRAME;
    }
    CopyWords(frame, at, count, dest, body);
    WordsFromPrefix(body, count, Min(count, dest.Length));
    return response;
  }

  /** Where the reply starts; over TCP it gets the checksum that the check expects. */
  method FindBody(tcp: bool, frame: array<byte>, response: nat) returns (at: nat)
    requires MODBUS_TCP_HEADER_SIZE <= response && response + 2 <= frame.Length
    modifies frame
    ensures frame[..] == if tcp then WithFakeCrc(old(frame[..]), response) else old(frame[..])
    ensures at == (if tcp then 6 else 0) && frame[at..] == Unwrapped(tcp, old(frame[..]), response)
  {
    at := 0;
    if tcp {
      at := MODBUS_TCP_HEADER_SIZE;
      PutFakeCrc(frame, response);
    }
    assert frame[at..] == frame[..][at..];
  }

  /** One word more in front of what was there before. */
  lemma PutNext(words: seq<u16>, before: seq<u16>, w: u16)
    requires |words| < |before|
    ensures (words + before[|words|..])[|words| := w] == words + [w] + before[|words| + 1..]
  {
  }

  /** The words go to the destination, high byte first, until it is full. */
  method CopyWords(frame: array<byte>, at: nat, count: nat, dest: array<u16>, ghost body: seq<byte>)
    requires at <= frame.Length && frame[at..] == body && 2 * count + 5 <= |body|
    modifies dest
    ensures var k := Min(count, dest.Length); dest[..] == WordsFrom(body, k) + old(dest[..])[k..]
  {
    ghost var before := dest[..];
    var i := 0;
    while i < count && i < dest.Length
      invariant 0 <= i <= Min(count, dest.Length)
      invariant frame[at..] == body
      invariant dest[..] == WordsFrom(body, i) + before[i..]
    {
      assert frame[at..][3 + 2 * i] == frame[at + 3 + 2 * i] && frame[at..][4 + 2 * i] == frame[at + 4 + 2 * i];
      var w := Word(frame[at + 4 + 2 * i], frame[at + 3 + 2 * i]);
      assert WordsFrom(body, i + 1) == WordsFrom(body, i) + [w];
      PutNext(WordsFrom(body, i), before, w);
      dest[i] := w;
      i := i + 1;
    }
  }
}
