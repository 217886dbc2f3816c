# SensorS8 driver model

A Dafny model of the Arduino driver for the Senseair S8 CO2 sensor
(`src/SensorS8.cpp`). The driver talks Modbus RTU to device address 0xFE over
a byte stream and has three operations built on one request/response
exchange:

- `getCO2` sends function 04 (Read Input Registers) for input register
  0x0003 and returns the register value, or -1;
- `getABCPeriod` sends function 03 (Read Holding Registers) for holding
  register 0x001F and returns the value, or -1;
- `setABCPeriod` sends function 06 (Write Single Register), writing 180
  (0x00B4) to register 0x001F, and returns whether the reply echoes the
  command.

Every frame ends with the CRC-16/MODBUS checksum computed by `_crc16`. This
is section 6.2.2 of the MODBUS over Serial Line Specification and
Implementation Guide V1.02: preset 0xFFFF, reflected polynomial 0xA001,
result byte-swapped.

Files:

- `crc16.dfy` (module `ModbusCrc`):
  - the checksum as a left fold (`Register`, `Crc16`);
  - `_crc16`'s nested loops as the method `ComputeCrc16`, proved equal to it;
  - the big-endian byte pairing `high*256 + low` (`Join`);
  - Modbus framing (`AppendCrc`).
- `serial_link.dfy` (module `SerialLink`): the byte stream.
  - A class `Stream` holds a receive buffer, a schedule of arrivals, a clock counting `delay(50)` calls and a log of written frames.
  - `read()` returns -1 when the buffer is empty.
  - Each `delay(50)` moves the chunk scheduled for the current clock value into the buffer.
- `exchange.dfy` (module `Exchange`): specification functions for the three phases of an exchange, and lemmas about them.
  - `TransmitSpec`: the retry loop.
  - `AwaitSpec`: the wait-for-length loop, which drains the buffer when it gives up.
  - `ReadSpec`: the fixed-length read.
  - `ExchangeSpec`: the whole exchange.
- `sensor_s8.dfy` (module `SensorS8Driver`): the driver.
  - The three fixed frames, and the response checks and decoding.
  - Lemmas about each operation's result.
  - The class `SensorS8`. Its methods run the loops step by step on the stream. Each is proved to leave the stream, the write log and the result exactly as the specification functions say.

Behaviour the model reproduces as the code has it:

- **Retry count.** The transmit loop writes the request up to 11 times, not 10. `retry` is incremented before the write and checked only after the delay, so the loop gives up when `retry > 10`.
- **Wait loop.** It makes up to 11 length checks with 10 delays between them.
- **Write exchange length.** `setABCPeriod` waits for 7 bytes, like the reads, but then reads 8. An echo whose last byte is late is not compared, and the operation reports success (`WriteSplitEcho`).
- **`-1` from a `bool` function.** Both abort paths of `setABCPeriod` return -1 from a `bool` function, which converts to `true` (`WriteNoResponse`, `WriteShortResponse`).
- **Byte count not checked.** The reads never look at byte 2, the byte count, of the response.

## Model

| member | source | states |
|---|---|---|
| ModbusCrc.ComputeCrc16 | src/SensorS8.cpp:191-207 | the nested loops return the byte-swapped left fold of the per-byte step over `buf[0..len)`; no byte at or beyond `len` affects the result |
| ModbusCrc.RegisterSnoc | src/SensorS8.cpp:194-205 | the register after one more byte is one more step (XOR the byte in, 8 shift/XOR-0xA001 rounds) over the register so far |
| ModbusCrc.Swap | src/SensorS8.cpp:206 | the returned value's high byte is the register's low byte and vice versa |
| ModbusCrc.SwapInvolutive | src/SensorS8.cpp:206 | swapping the returned value again gives back the raw register |
| ModbusCrc.Crc16Unswapped | src/SensorS8.cpp:192-206 | for every buffer, swapping the returned checksum again gives back the raw register of the fold |
| ModbusCrc.Crc16Empty | src/SensorS8.cpp:192-206 | with no bytes the checksum is 0xFFFF, the preset, which is its own swap |
| ModbusCrc.Join | src/SensorS8.cpp:62-68 | two bytes read big-endian: the first is the upper half and the second the lower half of the 16-bit result |
| ModbusCrc.SplitJoin | src/SensorS8.cpp:62-68 | every 16-bit value is the big-endian pairing of its two bytes |
| ModbusCrc.JoinAsInt | src/SensorS8.cpp:62-64 | the pairing equals the driver's integer arithmetic `high*256 + low` |
| ModbusCrc.JoinOfInts | src/SensorS8.cpp:66-68 | storing `high*256 + low` in a `uint16_t` loses nothing |
| ModbusCrc.JoinSplit | src/SensorS8.cpp:62-68 | a paired value splits back into the bytes it came from |
| ModbusCrc.AppendCrc | src/SensorS8.cpp:25 | a frame is its body followed by the body's checksum, high byte first, so that reading the last two bytes as `high*256 + low` gives the checksum |
| ModbusCrc.AppendCrcOfChecked | src/SensorS8.cpp:66-71 | a frame whose last two bytes read big-endian equal the checksum of the rest is exactly the framing of the rest |
| SensorS8Driver.Co2RequestChecksum | src/SensorS8.cpp:25 | bytes 6-7 of FE 04 00 03 00 01 D5 C5 hold `_crc16` of bytes 0-5 |
| SensorS8Driver.AbcRequestChecksum | src/SensorS8.cpp:84 | bytes 6-7 of FE 03 00 1F 00 01 A1 C3 hold `_crc16` of bytes 0-5 |
| SensorS8Driver.AbcCommandChecksum | src/SensorS8.cpp:149 | bytes 6-7 of FE 06 00 1F 00 B4 AC 74 hold `_crc16` of bytes 0-5 |
| SensorS8Driver.DecodeReading | src/SensorS8.cpp:58-79 | a 7-byte response is accepted iff bytes 0 and 1 repeat the request's and bytes 5-6 hold the checksum of bytes 0-4 (byte 2 is ignored); then the result is the big-endian value of bytes 3-4, in [0, 65535], otherwise -1 |
| SensorS8Driver.DecodeEncoded | src/SensorS8.cpp:58-79 | the well-formed response carrying any 16-bit value decodes to that value |
| SensorS8Driver.DecodedIsEncoded | src/SensorS8.cpp:58-79 | an accepted response with byte count 2 is exactly the well-formed response for the value returned |
| SensorS8Driver.CheckReading | src/SensorS8.cpp:58-79 | the checks on the response array return what DecodeReading gives for its contents |
| SensorS8Driver.ReadResult | src/SensorS8.cpp:23-80 | a read operation returns -1 whenever its read loop failed, otherwise the decoded response; never anything outside [-1, 65535] |
| SensorS8Driver.AsBool | src/SensorS8.cpp:161-183 | C++'s conversion to `bool`: the -1 returned by setABCPeriod's aborts becomes `true`, a zero becomes `false` |
| SensorS8Driver.WriteResult | src/SensorS8.cpp:161-188 | setABCPeriod returns false iff 8 bytes were read and they differ from the command; the -1 returned on either abort is `true` |
| SensorS8Driver.ReadNoResponse | src/SensorS8.cpp:28-36 | with no byte arriving within 10 delays, a read operation writes its request exactly 11 times, makes 11 delays and returns -1 |
| SensorS8Driver.ReadShortResponse | src/SensorS8.cpp:40-56 | with fewer than 7 bytes at the wait loop's last check, every buffered byte is discarded and the read operation returns -1 |
| SensorS8Driver.ReadSuccess | src/SensorS8.cpp:50-79 | a successful read consumes exactly the 7 response bytes, leaves later bytes buffered, and returns their bytes 3-4 big-endian |
| SensorS8Driver.ReadResultOfFrame | src/SensorS8.cpp:40-79 | a read operation succeeds iff a byte arrives within 10 delays, 7 bytes are buffered by the wait loop's last check, and the first 7 bytes pass the header and checksum checks |
| SensorS8Driver.ReadAnsweredOnce | src/SensorS8.cpp:23-80 | a sensor that answers the first request with the well-formed response gets its value returned after one write and one delay, with the response fully consumed |
| SensorS8Driver.WriteNoResponse | src/SensorS8.cpp:152-163 | with no answer, setABCPeriod writes the command 11 times and returns true |
| SensorS8Driver.WriteShortResponse | src/SensorS8.cpp:165-186 | with fewer than 7 bytes at the last check, setABCPeriod drains the buffer and returns true |
| SensorS8Driver.WriteFalseOnlyOnMismatch | src/SensorS8.cpp:177-188 | setABCPeriod returns false iff 8 bytes could be read and they differ from the command |
| SensorS8Driver.WriteSplitEcho | src/SensorS8.cpp:165-188 | an exact echo whose 8th byte arrives one delay late is not compared; setABCPeriod returns true and leaves that byte to arrive later |
| SensorS8Driver.SensorS8.Begin | src/SensorS8.cpp:3-21 | keeps the stream and performs one getCO2 exchange on it |
| SensorS8Driver.SensorS8.Transmit | src/SensorS8.cpp:28-36 | the retry loop leaves the stream as TransmitSpec says and logs the request once per write |
| SensorS8Driver.SensorS8.AwaitLength | src/SensorS8.cpp:38-48 | the wait loop, including the drain on timeout, leaves the stream as AwaitSpec says and writes nothing |
| SensorS8Driver.SensorS8.ReadInto | src/SensorS8.cpp:50-56 | the read loop fills the array with the oldest buffered bytes, or fails at the first -1, as ReadSpec says |
| SensorS8Driver.SensorS8.ReadRegister | src/SensorS8.cpp:23-80 | the body shared by the two read operations returns ReadResult of the exchange and leaves the stream and write log as ExchangeSpec says |
| SensorS8Driver.SensorS8.GetCO2 | src/SensorS8.cpp:23-80 | getCO2 returns ReadResult for its request, and the stream and write log follow ExchangeSpec |
| SensorS8Driver.SensorS8.GetABCPeriod | src/SensorS8.cpp:82-145 | getABCPeriod returns ReadResult for its request, and the stream and write log follow ExchangeSpec |
| SensorS8Driver.SensorS8.SetABCPeriod | src/SensorS8.cpp:147-189 | setABCPeriod waits for 7 bytes, reads 8 and returns WriteResult, and the stream and write log follow ExchangeSpec |
| Exchange.Repeat | src/SensorS8.cpp:28-36 | the write log of the retry loop: the request, as many times as it was written |
| Exchange.TransmitSpec | src/SensorS8.cpp:28-36 | the retry loop stops with a byte buffered after at most 10 delays, or writes 11 times and gives up |
| Exchange.TransmitGivesUp | src/SensorS8.cpp:28-36 | the retry loop gives up iff nothing has arrived by its last check |
| Exchange.TransmitStopsAtFirstByte | src/SensorS8.cpp:28-36 | the retry loop stops at the first check that finds a byte |
| Exchange.Answered | src/SensorS8.cpp:28-36 | an exchange goes past the retry loop iff some byte arrives within 10 delays |
| Exchange.NoResponse | src/SensorS8.cpp:28-36 | the request is written exactly 11 times iff no byte arrives within 10 delays, and then nothing is read |
| Exchange.StaleBytes | src/SensorS8.cpp:28 | a byte already buffered when an operation starts means the request is never written |
| Exchange.AwaitSpec | src/SensorS8.cpp:38-48 | the wait loop stops with the needed count buffered, or after its 11th check drains the buffer |
| Exchange.AwaitDrains | src/SensorS8.cpp:40-48 | the wait loop drains iff fewer than the needed count are buffered at its last check |
| Exchange.AwaitStopsAtFirstFull | src/SensorS8.cpp:40-48 | the wait loop stops at the first check that finds the needed count |
| Exchange.ReadSpec | src/SensorS8.cpp:50-56 | reading n bytes succeeds iff n are buffered; it then takes exactly the n oldest bytes, otherwise the buffer is emptied |
| Exchange.ExchangeSpec | src/SensorS8.cpp:23-56 | at most 11 writes, each followed by one delay, then at most 10 delays in the wait loop; a frame read has the requested length |
| Exchange.ShortResponse | src/SensorS8.cpp:40-54 | too few bytes at the wait loop's last check means all are discarded and nothing is read |
| Exchange.FrameRead | src/SensorS8.cpp:40-56 | a frame is read iff a byte arrived in time, the wait loop saw the needed count, and enough bytes were buffered for the read |
| Exchange.FrameConsumed | src/SensorS8.cpp:50-56 | a frame read is the oldest bytes that had arrived, and exactly those are removed |
| Exchange.FrameReadSameLength | src/SensorS8.cpp:40-56 | when the wait loop and the read use the same length, the read succeeds iff the wait loop saw that many bytes |
| SerialLink.Stream.Available | src/SensorS8.cpp:28-43 | `available()` is zero exactly when no byte is buffered |
| SerialLink.Stream.Read | src/SensorS8.cpp:51 | `read()` returns the oldest buffered byte and removes it, or -1 when nothing is buffered |
| SerialLink.Stream.Write | src/SensorS8.cpp:31 | `write` logs the frame and leaves the receive side unchanged |
| SerialLink.Stream.Delay | src/SensorS8.cpp:32 | `delay(50)` lets the chunk scheduled for the current clock arrive |
| SerialLink.ArrivedGrows | src/SensorS8.cpp:40 | bytes buffered while nobody reads are never lost, so later checks see a longer buffer |

## Left out

- The Arduino `Stream` (`available`, `read`, `write`) is a library the driver calls. It is modelled by the `Stream` class: a receive buffer and a log of writes. Bytes arrive only during delays, following a schedule given as a parameter. Real asynchronous arrival in the middle of a read is not modelled.
- `delay(50)` is modelled as one tick of a clock that lets the next scheduled chunk arrive. Wall-clock time is not modelled.
- The `debug` flag and all `_debugSerial` output (src/SensorS8.cpp:6-20, 72-74, 93-95, 115-117) only print diagnostics and do not affect any result, so they are left out. `begin` is modelled without the debug stream argument.
- The `uint8_t` counters `retry`, `timeout`, `i` and `pos` are modelled as unbounded naturals. They never exceed 11 (`pos` never exceeds `len`), so no wrap-around can happen. `ComputeCrc16` requires `len < 256` to match the `uint8_t len` parameter.
- The model assumes a 32-bit `int`, as on the ESP-class cores whose `Stream` has the `printf` the driver uses for diagnostics. The decoded value `high*256 + low` is computed as `int`, kept in `unsigned long` and returned as `int`; with a 16-bit `int`, values 0x8000-0xFFFF would come back negative and 0xFFFF would equal the -1 sentinel. `DecodeReading` and `ReadResult` state the result range [0, 65535] under this assumption.
- `getCO2` and `getABCPeriod` differ only in the request frame and in diagnostics. Both are modelled by one shared method, `ReadRegister`.
- The header file src/SensorS8.h only declares the class and is not part of this model.
