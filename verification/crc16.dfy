/** CRC-16/MODBUS as computed by SensorS8::_crc16: register preset to 0xFFFF,
    each byte XORed into the low half of the register, then eight rounds of
    "shift right, and XOR the reflected polynomial 0xA001 if the bit shifted
    out was set"; the final register is returned with its two bytes swapped. */
module ModbusCrc {

  /** The reflected generator polynomial. */
  const Poly: bv16 := 0xA001

  /** The register's initial value. */
  const Preset: bv16 := 0xFFFF

  /** One round of the inner loop. */
  function Shift(crc: bv16): bv16
  {
    if crc & 0x0001 != 0 then (crc >> 1) ^ Poly else crc >> 1
  }

  /** `n` rounds of the inner loop. */
  function Rounds(crc: bv16, n: nat): bv16
    decreases n
  {
    if n == 0 then crc else Rounds(Shift(crc), n - 1)
  }

  /** What one pass of the outer loop does to the register. */
  function Step(crc: bv16, b: bv8): bv16
  {
    Rounds(crc ^ (b as bv16), 8)
  }

  /** The register after the bytes of `s`: a left fold of Step from Preset. */
  function Register(s: seq<bv8>): bv16
  {
    if s == [] then Preset else Step(Register(s[..|s| - 1]), s[|s| - 1])
  }

  /** Exchanges the high and the low byte of a 16-bit value. */
  function Swap(x: bv16): (r: bv16)
    ensures r >> 8 == x & 0xFF
    ensures r & 0xFF == x >> 8
  {
    ((x & 0xFF) << 8) | ((x & 0xFF00) >> 8)
  }

  /** The value _crc16 returns for the bytes of `s`. */
  function Crc16(s: seq<bv8>): bv16
  {
    Swap(Register(s))
  }

  /** Two bytes read big-endian into a 16-bit value (`high*256 + low` in the
      driver). The high byte is the upper half and the low byte the lower. */
  function Join(hi: bv8, lo: bv8): (r: bv16)
    ensures r >> 8 == hi as bv16 && r & 0xFF == lo as bv16
  {
    ((hi as bv16) << 8) | (lo as bv16)
  }

  /** Splitting a 16-bit value into its bytes and joining them gives it back. */
  lemma SplitJoin(x: bv16)
    ensures Join((x >> 8) as bv8, (x & 0xFF) as bv8) == x
  {
  }

  /** Widening a byte keeps its value. */
  lemma Widen(b: bv8)
    ensures (b as bv16) as int == b as int
  {
  }

  /** A 16-bit value as an integer is its high byte times 256 plus its low
      byte. */
  lemma HiLo(x: bv16)
    ensures x as int == (x >> 8) as int * 256 + (x & 0xFF) as int
  {
  }

  /** Narrowing a widened byte gives it back. */
  lemma Narrow(b: bv8)
    ensures (b as bv16) as bv8 == b
  {
  }

  /** A 16-bit value survives the trip to an integer and back. */
  lemma AsIntAndBack(x: bv16)
    ensures (x as int) as bv16 == x
  {
  }

  /** Joining agrees with the driver's integer arithmetic `high*256 + low`. */
  lemma JoinAsInt(hi: bv8, lo: bv8)
    ensures Join(hi, lo) as int == hi as int * 256 + lo as int
  {
    var x := Join(hi, lo);
    assert (x >> 8) as int == hi as int by { Widen(hi); }
    assert (x & 0xFF) as int == lo as int by { Widen(lo); }
    HiLo(x);
  }

  /** `high*256 + low` computed on the integer values `high` and `low` of two
      bytes and stored in a 16-bit variable loses nothing and equals the
      joined value. */
  lemma JoinOfInts(hi: bv8, lo: bv8, high: int, low: int)
    requires high == hi as int && low == lo as int
    ensures 0 <= high * 256 + low < 0x1_0000
    ensures (high * 256 + low) as bv16 == Join(hi, lo)
  {
    JoinAsInt(hi, lo);
    AsIntAndBack(Join(hi, lo));
  }

  /** The bytes of a 16-bit value are the bytes it was joined from. */
  lemma JoinSplit(x: bv16, hi: bv8, lo: bv8)
    requires Join(hi, lo) == x
    ensures (x >> 8) as bv8 == hi && (x & 0xFF) as bv8 == lo
  {
    Narrow(hi);
    Narrow(lo);
  }

  /** A Modbus RTU frame: the body followed by its checksum, which goes out
      big-endian as the driver reads it back (`high*256 + low`). */
  function AppendCrc(body: seq<bv8>): (r: seq<bv8>)
    ensures |r| == |body| + 2 && r[..|body|] == body
    ensures Join(r[|body|], r[|body| + 1]) == Crc16(body)
  {
    var crc := Crc16(body);
    SplitJoin(crc);
    body + [(crc >> 8) as bv8, (crc & 0xFF) as bv8]
  }

  /** A frame whose last two bytes hold the checksum of the rest is the
      framing of that rest: the checksum bytes are determined. */
  lemma {:induction false} AppendCrcOfChecked(frame: seq<bv8>)
    requires |frame| >= 2
    requires Join(frame[|frame| - 2], frame[|frame| - 1]) == Crc16(frame[..|frame| - 2])
    ensures AppendCrc(frame[..|frame| - 2]) == frame
  {
    var n := |frame| - 2;
    JoinSplit(Crc16(frame[..n]), frame[n], frame[n + 1]);
    assert frame == frame[..n] + [frame[n], frame[n + 1]];
  }

  /** Swapping twice gives back the value swapped. */
  lemma SwapInvolutive(x: bv16)
    ensures Swap(Swap(x)) == x
  {
  }

  /** Swapping the value _crc16 returns again gives back the raw register. */
  lemma Crc16Unswapped(s: seq<bv8>)
    ensures Swap(Crc16(s)) == Register(s)
  {
    SwapInvolutive(Register(s));
  }

  /** With no bytes the register keeps its preset, which swaps to itself. */
  lemma Crc16Empty()
    ensures Crc16([]) == 0xFFFF
    ensures Swap(Crc16([])) == Register([])
  {
  }

  /** The register over `s + [b]` is one more Step over the register of `s`. */
  lemma {:induction false} RegisterSnoc(s: seq<bv8>, b: bv8)
    ensures Register(s + [b]) == Step(Register(s), b)
  {
    assert (s + [b])[..|s + [b]| - 1] == s;
  }

  /** The register over the first `k + 1` bytes of `s` is one more Step over
      the register of the first `k`. */
  lemma RegisterNext(s: seq<bv8>, k: nat)
    requires k < |s|
    ensures Register(s[..k + 1]) == Step(Register(s[..k]), s[k])
  {
    assert s[..k + 1] == s[..k] + [s[k]];
    RegisterSnoc(s[..k], s[k]);
  }

  /** Eight rounds written out, for evaluating Step on known bytes. */
  lemma StepUnrolled(crc: bv16, b: bv8)
    ensures Step(crc, b) == Shift(Shift(Shift(Shift(Shift(Shift(Shift(Shift(crc ^ (b as bv16)))))))))
  {
  }

  /** The register over six bytes, given the register after each of them. */
  lemma RegisterOfSix(s: seq<bv8>, r: seq<bv16>)
    requires |s| == 6 && |r| == 6
    requires Step(Preset, s[0]) == r[0]
    requires forall k :: 0 < k < 6 ==> Step(r[k - 1], s[k]) == r[k]
    ensures Register(s) == r[5]
  {
    assert s[..0] == [];
    assert s[..6] == s;
    var k := 0;
    while k < 6
      invariant k <= 6
      invariant k > 0 ==> Register(s[..k]) == r[k - 1]
    {
      RegisterNext(s, k);
      k := k + 1;
    }
  }

  /** SensorS8::_crc16 over `buf[0..len)`: nested loops updating one 16-bit
      register. The result depends on `buf[..len]` only. */
  method ComputeCrc16(buf: array<bv8>, len: nat) returns (crc: bv16)
    requires len <= buf.Length && len < 256
    ensures crc == Crc16(buf[..len])
  {
    crc := 0xFFFF;
    var pos := 0;
    while pos < len
      invariant 0 <= pos <= len
      invariant crc == Register(buf[..pos])
    {
      crc := crc ^ (buf[pos] as bv16);
      ghost var start := crc;
      var i := 8;
      while i != 0
        invariant 0 <= i <= 8
        invariant Rounds(start, 8) == Rounds(crc, i)
      {
        if crc & 0x0001 != 0 {
          crc := crc >> 1;
          crc := crc ^ 0xA001;
        } else {
          crc := crc >> 1;
        }
        i := i - 1;
      }
      assert buf[..pos + 1] == buf[..pos] + [buf[pos]];
      RegisterSnoc(buf[..pos], buf[pos]);
      pos := pos + 1;
    }
    crc := ((crc & 0xFF) << 8) | ((crc & 0xFF00) >> 8);
  }
}
