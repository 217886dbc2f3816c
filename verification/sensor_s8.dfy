/** The Senseair S8 driver (class SensorS8). Three fixed Modbus RTU
    requests: function 04 (Read Input Registers) for the CO2 reading,
    function 03 (Read Holding Registers) for the ABC period and function 06
    (Write Single Register) to set the ABC period, whose reply echoes the
    request. Reads return the big-endian register value, or -1 on any
    failure; the write returns whether the echo matched, and `true` when
    the exchange was abandoned, because its -1 is converted to `bool`. */
module SensorS8Driver {
  import opened ModbusCrc
  import opened SerialLink
  import opened Exchange

  /** Read input register 0x0003 (the CO2 reading) of device 0xFE. */
  const Co2Request: seq<bv8> := [0xFE, 0x04, 0x00, 0x03, 0x00, 0x01, 0xD5, 0xC5]

  /** Read holding register 0x001F (the ABC period) of device 0xFE. */
  const AbcRequest: seq<bv8> := [0xFE, 0x03, 0x00, 0x1F, 0x00, 0x01, 0xA1, 0xC3]

  /** Write 0x00B4 (180 hours) to holding register 0x001F of device 0xFE. */
  const AbcCommand: seq<bv8> := [0xFE, 0x06, 0x00, 0x1F, 0x00, 0xB4, 0xAC, 0x74]

  /** Every exchange waits until this many bytes are buffered. */
  const AwaitedLength: nat := 7

  /** Bytes read back by getCO2 and getABCPeriod. */
  const ReadResponseLength: nat := 7

  /** Bytes read back by setABCPeriod. */
  const WriteResponseLength: nat := 8

  /** C++'s conversion of an `int` to `bool`. */
  function AsBool(x: int): (r: bool)
    ensures x == -1 ==> r
    ensures x == 0 ==> !r
  {
    x != 0
  }

  lemma Co2RequestChecksum()
    ensures Join(Co2Request[6], Co2Request[7]) == Crc16(Co2Request[..6])
    ensures Co2Request == AppendCrc(Co2Request[..6])
  {
    assert Step(0xFFFF, 0xFE) == 0xC03E by { StepUnrolled(0xFFFF, 0xFE); }
    assert Step(0xC03E, 0x04) == 0x1340 by { StepUnrolled(0xC03E, 0x04); }
    assert Step(0x1340, 0x00) == 0xF012 by { StepUnrolled(0x1340, 0x00); }
    assert Step(0xF012, 0x03) == 0x0C30 by { StepUnrolled(0xF012, 0x03); }
    assert Step(0x0C30, 0x00) == 0x140C by { StepUnrolled(0x0C30, 0x00); }
    assert Step(0x140C, 0x01) == 0xC5D5 by { StepUnrolled(0x140C, 0x01); }
    RegisterOfSix(Co2Request[..6], [0xC03E, 0x1340, 0xF012, 0x0C30, 0x140C, 0xC5D5]);
    assert Crc16(Co2Request[..6]) == 0xD5C5;
    AppendCrcOfChecked(Co2Request);
  }

  lemma AbcRequestChecksum()
    ensures Join(AbcRequest[6], AbcRequest[7]) == Crc16(AbcRequest[..6])
    ensures AbcRequest == AppendCrc(AbcRequest[..6])
  {
    assert Step(0xFFFF, 0xFE) == 0xC03E by { StepUnrolled(0xFFFF, 0xFE); }
    assert Step(0xC03E, 0x03) == 0xD101 by { StepUnrolled(0xC03E, 0x03); }
    assert Step(0xD101, 0x00) == 0xC010 by { StepUnrolled(0xD101, 0x00); }
    assert Step(0xC010, 0x1F) == 0x0480 by { StepUnrolled(0xC010, 0x1F); }
    assert Step(0x0480, 0x00) == 0xA005 by { StepUnrolled(0x0480, 0x00); }
    assert Step(0xA005, 0x01) == 0xC3A1 by { StepUnrolled(0xA005, 0x01); }
    RegisterOfSix(AbcRequest[..6], [0xC03E, 0xD101, 0xC010, 0x0480, 0xA005, 0xC3A1]);
    assert Crc16(AbcRequest[..6]) == 0xA1C3;
    AppendCrcOfChecked(AbcRequest);
  }

  lemma AbcCommandChecksum()
    ensures Join(AbcCommand[6], AbcCommand[7]) == Crc16(AbcCommand[..6])
    ensures AbcCommand == AppendCrc(AbcCommand[..6])
  {
    assert Step(0xFFFF, 0xFE) == 0xC03E by { StepUnrolled(0xFFFF, 0xFE); }
    assert Step(0xC03E, 0x06) == 0xD2C1 by { StepUnrolled(0xC03E, 0x06); }
    assert Step(0xD2C1, 0x00) == 0x9013 by { StepUnrolled(0xD2C1, 0x00); }
    assert Step(0x9013, 0x1F) == 0x0590 by { StepUnrolled(0x9013, 0x1F); }
    assert Step(0x0590, 0x00) == 0x6C05 by { StepUnrolled(0x0590, 0x00); }
    assert Step(0x6C05, 0xB4) == 0x74AC by { StepUnrolled(0x6C05, 0xB4); }
    RegisterOfSix(AbcCommand[..6], [0xC03E, 0xD2C1, 0x9013, 0x0590, 0x6C05, 0x74AC]);
    assert Crc16(AbcCommand[..6]) == 0xAC74;
    AppendCrcOfChecked(AbcCommand);
  }

  /** The checks getCO2 and getABCPeriod make on a 7-byte response: the
      address and function code must repeat the request's and bytes 5-6 must
      hold the checksum of bytes 0-4; the byte count (byte 2) is not looked
      at. The register value is returned, or -1. */
  function DecodeReading(request: seq<bv8>, resp: seq<bv8>): (r: int)
    requires |request| == 8 && |resp| == ReadResponseLength
    ensures r == -1 || 0 <= r <= 0xFFFF
    ensures r != -1 <==>
      resp[0] == request[0] && resp[1] == request[1] && Join(resp[5], resp[6]) == Crc16(resp[..5])
    ensures r != -1 ==> r == Join(resp[3], resp[4]) as int
  {
    JoinAsInt(resp[3], resp[4]);
    if resp[0] != request[0] || resp[1] != request[1] then -1
    else if Join(resp[5], resp[6]) != Crc16(resp[..5]) then -1
    else resp[3] as int * 256 + resp[4] as int
  }

  /** The response a sensor sends to a read request: address and function
      code echoed, byte count 2, the value big-endian, then the checksum. */
  function EncodeReading(request: seq<bv8>, value: bv16): (resp: seq<bv8>)
    requires |request| == 8
    ensures |resp| == ReadResponseLength
  {
    AppendCrc([request[0], request[1], 2, (value >> 8) as bv8, (value & 0xFF) as bv8])
  }

  /** A well-formed response to a read request decodes to its value. */
  lemma DecodeEncoded(request: seq<bv8>, value: bv16)
    requires |request| == 8
    ensures DecodeReading(request, EncodeReading(request, value)) == value as int
  {
    var body := [request[0], request[1], 2, (value >> 8) as bv8, (value & 0xFF) as bv8];
    assert EncodeReading(request, value)[..5] == body;
    SplitJoin(value);
  }

  /** The decoder accepts a response with byte count 2 only if it is the
      well-formed response for the value it returns: a wrong address,
      function code or checksum is rejected. */
  lemma DecodedIsEncoded(request: seq<bv8>, resp: seq<bv8>)
    requires |request| == 8 && |resp| == ReadResponseLength && resp[2] == 2
    requires DecodeReading(request, resp) != -1
    ensures DecodeReading(request, resp) == Join(resp[3], resp[4]) as int
    ensures EncodeReading(request, Join(resp[3], resp[4])) == resp
  {
    var v := Join(resp[3], resp[4]);
    JoinSplit(v, resp[3], resp[4]);
    assert [request[0], request[1], 2, (v >> 8) as bv8, (v & 0xFF) as bv8] == resp[..5];
    AppendCrcOfChecked(resp);
  }

  /** The value getCO2 or getABCPeriod returns after an exchange. */
  function ReadResult(request: seq<bv8>, e: Outcome): (r: int)
    requires |request| == 8
    requires e.frame.Some? ==> |e.frame.value| == ReadResponseLength
    ensures r == -1 || 0 <= r <= 0xFFFF
    ensures e.frame.None? ==> r == -1
  {
    match e.frame
    case None => -1
    case Some(resp) => DecodeReading(request, resp)
  }

  /** The value setABCPeriod returns after an exchange: `memcmp` of the
      command and the eight bytes read, or -1 converted to `bool`. */
  function WriteResult(e: Outcome): (r: bool)
    ensures !r <==> e.frame.Some? && e.frame.value != AbcCommand
  {
    match e.frame
    case None => AsBool(-1)
    case Some(resp) => resp == AbcCommand
  }

  /** A read operation that gets the well-formed response for `value` in
      the first delay after its first request returns `value`, having
      written the request once and consumed the whole response. */
  lemma ReadAnsweredOnce(request: seq<bv8>, value: bv16, later: seq<bv8>)
    requires |request| == 8
    ensures var l := Link([], t => if t == 0 then EncodeReading(request, value) else later, 0);
      var e := ExchangeSpec(l, AwaitedLength, ReadResponseLength);
      ReadResult(request, e) == value as int && e.writes == 1 && e.link.buffer == [] && e.link.clock == 1
  {
    var resp := EncodeReading(request, value);
    var l := Link([], t => if t == 0 then resp else later, 0);
    var s := TransmitSpec(l, l.clock + MaxRetry);
    assert Tick(l).buffer == resp;
    assert s == Sent(true, 1, Tick(l)) by { TicksSucc(l, 0); }
    assert AwaitSpec(Tick(l), 1 + MaxTimeout, AwaitedLength) == Awaited(false, 0, Tick(l));
    assert resp[..ReadResponseLength] == resp;
    DecodeEncoded(request, value);
  }

  /** A read operation returns the value of a response that passes both
      checks, and -1 for one that fails either, whatever the stream did
      before. */
  lemma ReadResultOfFrame(request: seq<bv8>, l: Link)
    requires |request| == 8
    ensures var e := ExchangeSpec(l, AwaitedLength, ReadResponseLength);
      e.frame.Some? ==> ReadResult(request, e) == DecodeReading(request, e.frame.value)
    ensures var e := ExchangeSpec(l, AwaitedLength, ReadResponseLength);
      ReadResult(request, e) != -1 <==>
        Arrived(l, MaxRetry) != [] && ReadResponseLength <= |Arrived(l, e.writes + MaxTimeout)| &&
        ReadResponseLength <= |Arrived(l, e.delays)| &&
        DecodeReading(request, Arrived(l, e.delays)[..ReadResponseLength]) != -1
  {
    FrameReadSameLength(l, ReadResponseLength);
    FrameConsumed(l, AwaitedLength, ReadResponseLength);
  }

  /** A read operation whose request is never answered writes it 11 times
      and returns -1. */
  lemma ReadNoResponse(request: seq<bv8>, l: Link)
    requires |request| == 8
    requires Arrived(l, MaxRetry) == []
    ensures var e := ExchangeSpec(l, AwaitedLength, ReadResponseLength);
      ReadResult(request, e) == -1 && e.writes == MaxRetry + 1 && e.link == Ticks(l, MaxRetry + 1)
  {
    NoResponse(l, AwaitedLength, ReadResponseLength);
  }

  /** A read operation that sees fewer than 7 bytes at its last length check
      discards them all and returns -1. */
  lemma ReadShortResponse(request: seq<bv8>, l: Link)
    requires |request| == 8
    requires Arrived(l, MaxRetry) != []
    ensures var e := ExchangeSpec(l, AwaitedLength, ReadResponseLength);
      |Arrived(l, e.writes + MaxTimeout)| < AwaitedLength ==>
        ReadResult(request, e) == -1 && e.link.buffer == []
  {
    ShortResponse(l, AwaitedLength, ReadResponseLength);
  }

  /** A successful read consumes exactly the 7 bytes of the response, which
      were buffered when it started reading, and returns their big-endian
      register value, never the -1 sentinel. */
  lemma ReadSuccess(request: seq<bv8>, l: Link)
    requires |request| == 8
    ensures var e := ExchangeSpec(l, AwaitedLength, ReadResponseLength);
      ReadResult(request, e) != -1 ==>
        var got := Arrived(l, e.delays);
        ReadResponseLength <= |got| &&
        e.link == Ticks(l, e.delays).(buffer := got[ReadResponseLength..]) &&
        ReadResult(request, e) == Join(got[3], got[4]) as int &&
        0 <= ReadResult(request, e) <= 0xFFFF
  {
    FrameConsumed(l, AwaitedLength, ReadResponseLength);
  }

  /** setABCPeriod reports success when its request is never answered. */
  lemma WriteNoResponse(l: Link)
    requires Arrived(l, MaxRetry) == []
    ensures var e := ExchangeSpec(l, AwaitedLength, WriteResponseLength);
      WriteResult(e) && e.writes == MaxRetry + 1
  {
    NoResponse(l, AwaitedLength, WriteResponseLength);
  }

  /** setABCPeriod reports success when the response is too short. */
  lemma WriteShortResponse(l: Link)
    requires Arrived(l, MaxRetry) != []
    ensures var e := ExchangeSpec(l, AwaitedLength, WriteResponseLength);
      |Arrived(l, e.writes + MaxTimeout)| < AwaitedLength ==> WriteResult(e) && e.link.buffer == []
  {
    ShortResponse(l, AwaitedLength, WriteResponseLength);
  }

  /** setABCPeriod returns false exactly when eight bytes were read and
      they differ from the command. */
  lemma WriteFalseOnlyOnMismatch(l: Link)
    ensures var e := ExchangeSpec(l, AwaitedLength, WriteResponseLength);
      !WriteResult(e) <==>
        Arrived(l, MaxRetry) != [] && AwaitedLength <= |Arrived(l, e.writes + MaxTimeout)| &&
        WriteResponseLength <= |Arrived(l, e.delays)| &&
        Arrived(l, e.delays)[..WriteResponseLength] != AbcCommand
  {
    FrameRead(l, AwaitedLength, WriteResponseLength);
    FrameConsumed(l, AwaitedLength, WriteResponseLength);
  }

  /** setABCPeriod waits for 7 bytes but reads 8: an echo whose first seven
      bytes arrive in one delay and whose last byte arrives in the next is
      not compared; the read of the eighth byte fails, the operation
      reports success, and the eighth byte is left to arrive later. */
  lemma WriteSplitEcho()
    ensures var l := Link([], t => if t == 0 then AbcCommand[..7] else if t == 1 then AbcCommand[7..] else [], 0);
      var e := ExchangeSpec(l, AwaitedLength, WriteResponseLength);
      e.frame.None? && WriteResult(e) && e.writes == 1 && e.link.buffer == [] && e.link.clock == 1 &&
      e.link.schedule(e.link.clock) == [0x74]
  {
    var l := Link([], t => if t == 0 then AbcCommand[..7] else if t == 1 then AbcCommand[7..] else [], 0);
    assert Tick(l).buffer == AbcCommand[..7];
    assert TransmitSpec(l, l.clock + MaxRetry) == Sent(true, 1, Tick(l)) by { TicksSucc(l, 0); }
    assert AwaitSpec(Tick(l), 1 + MaxTimeout, AwaitedLength) == Awaited(false, 0, Tick(l));
  }

  /** The checks at the end of getCO2 and getABCPeriod, on the response
      buffer: address and function code, then the checksum, which the driver
      compares after reading both bytes pairs as integers. */
  method CheckReading(request: seq<bv8>, response: array<bv8>) returns (r: int)
    requires |request| == 8 && response.Length == ReadResponseLength
    ensures r == DecodeReading(request, response[..])
  {
    ghost var resp := response[..];
    if response[0] != request[0] || response[1] != request[1] {
      return -1;
    }
    var high := response[3] as int;
    var low := response[4] as int;
    var val := high * 256 + low;
    high := response[5] as int;
    low := response[6] as int;
    JoinOfInts(resp[5], resp[6], high, low);
    var crc: bv16 := (high * 256 + low) as bv16;
    var crcCalc := ComputeCrc16(response, ReadResponseLength - 2);
    assert response[..ReadResponseLength - 2] == resp[..5];
    if crc != crcCalc {
      return -1;
    }
    r := val;
  }

  /** The driver object. Only the stream it talks to is modelled; the debug
      stream and the `debug` flag affect nothing but diagnostics. */
  class SensorS8 {
    var serial: Stream

    /** `begin`: keeps the stream and reads the CO2 value once, ignoring the
        result except for diagnostics. */
    constructor Begin(s: Stream)
      modifies s
      ensures serial == s
      ensures var e := ExchangeSpec(old(s.State()), AwaitedLength, ReadResponseLength);
        s.State() == e.link && s.written == old(s.written) + Repeat(Co2Request, e.writes)
    {
      serial := s;
      new;
      var _ := GetCO2();
    }

    /** The transmit loop: while nothing is buffered, write the request and
        wait; give up after the eleventh write. */
    method Transmit(request: seq<bv8>) returns (answered: bool)
      modifies serial
      ensures var s := TransmitSpec(old(serial.State()), old(serial.clock) + MaxRetry);
        answered == s.answered && serial.State() == s.link &&
        serial.written == old(serial.written) + Repeat(request, s.writes)
    {
      ghost var l0 := serial.State();
      ghost var last := l0.clock + MaxRetry;
      var retry: nat := 0;
      while serial.Available() == 0
        invariant retry <= MaxRetry && serial.clock == l0.clock + retry
        invariant serial.written == old(serial.written) + Repeat(request, retry)
        invariant var s := TransmitSpec(serial.State(), last);
          TransmitSpec(l0, last) == s.(writes := s.writes + retry)
        decreases MaxRetry - retry
      {
        retry := retry + 1;
        serial.Write(request);
        serial.Delay();
        if retry > MaxRetry {
          return false;
        }
      }
      answered := true;
    }

    /** The wait loop: poll until `need` bytes are buffered; after the
        eleventh check, read and discard everything buffered and go on. */
    method AwaitLength(need: nat)
      modifies serial
      ensures serial.State() == AwaitSpec(old(serial.State()), old(serial.clock) + MaxTimeout, need).link
      ensures serial.written == old(serial.written)
    {
      ghost var l0 := serial.State();
      ghost var last := l0.clock + MaxTimeout;
      var timeout: nat := 0;
      while serial.Available() < need
        invariant timeout <= MaxTimeout && serial.clock == l0.clock + timeout
        invariant serial.written == old(serial.written)
        invariant AwaitSpec(serial.State(), last, need).link == AwaitSpec(l0, last, need).link
        decreases MaxTimeout - timeout
      {
        timeout := timeout + 1;
        if timeout > MaxTimeout {
          ghost var drained := serial.State().(buffer := []);
          while serial.Available() > 0
            invariant serial.State().(buffer := []) == drained
            invariant serial.written == old(serial.written)
            decreases |serial.buffer|
          {
            var _ := serial.Read();
          }
          break;
        }
        serial.Delay();
      }
    }

    /** The read loop: fill `response` one byte at a time, failing at the
        first read that returns -1. */
    method ReadInto(response: array<bv8>) returns (ok: bool)
      modifies serial, response
      ensures var r := ReadSpec(old(serial.State()), response.Length);
        ok == r.frame.Some? && serial.State() == r.link && (ok ==> response[..] == r.frame.value)
      ensures serial.written == old(serial.written)
    {
      ghost var b0 := serial.buffer;
      var i := 0;
      while i < response.Length
        invariant 0 <= i <= response.Length && i <= |b0|
        invariant response[..i] == b0[..i] && serial.buffer == b0[i..]
        invariant serial.schedule == old(serial.schedule) && serial.clock == old(serial.clock)
        invariant serial.written == old(serial.written)
      {
        var b := serial.Read();
        if b == -1 {
          return false;
        }
        response[i] := b as bv8;
        i := i + 1;
      }
      assert response[..] == response[..i];
      ok := true;
    }

    /** The body shared by getCO2 and getABCPeriod. */
    method ReadRegister(request: seq<bv8>) returns (r: int)
      requires |request| == 8
      modifies serial
      ensures var e := ExchangeSpec(old(serial.State()), AwaitedLength, ReadResponseLength);
        r == ReadResult(request, e) && serial.State() == e.link &&
        serial.written == old(serial.written) + Repeat(request, e.writes)
    {
      var answered := Transmit(request);
      if !answered {
        return -1;
      }
      AwaitLength(AwaitedLength);
      var response := new bv8[ReadResponseLength](_ => 0);
      var ok := ReadInto(response);
      if !ok {
        return -1;
      }
      r := CheckReading(request, response);
    }

    /** `getCO2`: the CO2 reading, or -1. */
    method GetCO2() returns (r: int)
      modifies serial
      ensures var e := ExchangeSpec(old(serial.State()), AwaitedLength, ReadResponseLength);
        r == ReadResult(Co2Request, e) && serial.State() == e.link &&
        serial.written == old(serial.written) + Repeat(Co2Request, e.writes)
    {
      r := ReadRegister(Co2Request);
    }

    /** `getABCPeriod`: the ABC period, or -1. */
    method GetABCPeriod() returns (r: int)
      modifies serial
      ensures var e := ExchangeSpec(old(serial.State()), AwaitedLength, ReadResponseLength);
        r == ReadResult(AbcRequest, e) && serial.State() == e.link &&
        serial.written == old(serial.written) + Repeat(AbcRequest, e.writes)
    {
      r := ReadRegister(AbcRequest);
    }

    /** `setABCPeriod`: writes the fixed command and compares the echo. */
    method SetABCPeriod() returns (ok: bool)
      modifies serial
      ensures var e := ExchangeSpec(old(serial.State()), AwaitedLength, WriteResponseLength);
        ok == WriteResult(e) && serial.State() == e.link &&
        serial.written == old(serial.written) + Repeat(AbcCommand, e.writes)
    {
      var answered := Transmit(AbcCommand);
      if !answered {
        return AsBool(-1);
      }
      AwaitLength(AwaitedLength);
      var response := new bv8[WriteResponseLength](_ => 0);
      var full := ReadInto(response);
      if !full {
        return AsBool(-1);
      }
      ok := response[..] == AbcCommand;
    }
  }
}
