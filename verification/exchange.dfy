/** The request/response exchange that getCO2, getABCPeriod and setABCPeriod
    each spell out (src/SensorS8.cpp): a transmit loop that rewrites the
    request until a byte is buffered, a wait loop that polls for the
    response's length and drains the buffer when it gives up, and a read of
    a fixed number of bytes. Each phase is specified here as a function of
    the receive side of the stream; the driver's methods are proved to
    follow these functions.

    The loops' counters (`retry`, `timeout`) count delays, so each phase is
    stated with the clock value of its last check: a loop entered at clock
    `c` makes its last check at `c + MaxRetry` (or `c + MaxTimeout`). */
module Exchange {
  import opened SerialLink

  datatype Option<T> = None | Some(value: T)

  /** The transmit loop gives up once `retry` exceeds this. */
  const MaxRetry: nat := 10

  /** The wait loop gives up once `timeout` exceeds this. */
  const MaxTimeout: nat := 10

  /** `n` copies of a frame: what the transmit loop leaves in the write log. */
  function Repeat(frame: seq<bv8>, n: nat): (r: seq<seq<bv8>>)
    ensures |r| == n
    ensures forall i :: 0 <= i < n ==> r[i] == frame
  {
    if n == 0 then [] else Repeat(frame, n - 1) + [frame]
  }

  /** How the transmit loop ended: whether a byte was buffered, how many
      times the request was written (each write is followed by one delay),
      and the receive side afterwards. */
  datatype Sent = Sent(answered: bool, writes: nat, link: Link)

  /** The transmit loop whose last check is at clock `last`. */
  function TransmitSpec(l: Link, last: nat): (r: Sent)
    requires l.clock <= last
    ensures r.link == Ticks(l, r.writes)
    ensures r.answered <==> r.writes <= last - l.clock
    ensures !r.answered ==> r.writes == last - l.clock + 1
    ensures r.answered ==> r.link.buffer != []
    decreases last - l.clock
  {
    if l.buffer != [] then Sent(true, 0, l)
    else if l.clock == last then
      assert Ticks(l, 1) == Ticks(Tick(l), 0) by { TicksSucc(l, 0); }
      Sent(false, 1, Tick(l))
    else
      var s := TransmitSpec(Tick(l), last);
      s.(writes := s.writes + 1)
  }

  /** How the wait loop ended: whether it gave up and drained the buffer,
      how many delays it made, and the receive side afterwards. */
  datatype Awaited = Awaited(drained: bool, delays: nat, link: Link)

  /** The wait loop for `need` bytes whose last check is at clock `last`. */
  function AwaitSpec(l: Link, last: nat, need: nat): (r: Awaited)
    requires l.clock <= last
    ensures r.delays <= last - l.clock
    ensures r.drained ==> r.delays == last - l.clock && r.link == Ticks(l, r.delays).(buffer := [])
    ensures !r.drained ==> r.link == Ticks(l, r.delays) && |r.link.buffer| >= need
    decreases last - l.clock
  {
    if |l.buffer| >= need then Awaited(false, 0, l)
    else if l.clock == last then Awaited(true, 0, l.(buffer := []))
    else
      var a := AwaitSpec(Tick(l), last, need);
      a.(delays := a.delays + 1)
  }

  /** How the read loop ended: the `n` bytes read, or None when a read
      returned -1, and the receive side afterwards. */
  datatype Received = Received(frame: Option<seq<bv8>>, link: Link)

  /** Reading `n` bytes one at a time, stopping at the first -1. */
  function ReadSpec(l: Link, n: nat): (r: Received)
    ensures r.frame.Some? <==> n <= |l.buffer|
    ensures r.frame.Some? ==> |r.frame.value| == n && l.buffer == r.frame.value + r.link.buffer
    ensures r.frame.None? ==> r.link.buffer == []
    ensures r.link.schedule == l.schedule && r.link.clock == l.clock
  {
    if n <= |l.buffer| then
      assert l.buffer == l.buffer[..n] + l.buffer[n..];
      Received(Some(l.buffer[..n]), l.(buffer := l.buffer[n..]))
    else Received(None, l.(buffer := []))
  }

  /** A whole exchange: the request was written `writes` times, `delays`
      delays were made in all, `frame` holds the bytes read when all of
      them could be read, and `link` is the receive side afterwards. */
  datatype Outcome = Outcome(writes: nat, delays: nat, frame: Option<seq<bv8>>, link: Link)

  /** The exchange that waits for `need` bytes and then reads `len`. */
  function ExchangeSpec(l: Link, need: nat, len: nat): (r: Outcome)
    ensures r.frame.Some? ==> |r.frame.value| == len
    ensures r.writes <= MaxRetry + 1 && r.writes <= r.delays <= r.writes + MaxTimeout
  {
    var s := TransmitSpec(l, l.clock + MaxRetry);
    if !s.answered then Outcome(s.writes, s.writes, None, s.link)
    else
      var a := AwaitSpec(s.link, s.link.clock + MaxTimeout, need);
      var r := ReadSpec(a.link, len);
      Outcome(s.writes, s.writes + a.delays, r.frame, r.link)
  }

  /** The transmit loop gives up exactly when nothing has arrived by its
      last check. */
  lemma {:induction false} TransmitGivesUp(l: Link, last: nat)
    requires l.clock <= last
    ensures !TransmitSpec(l, last).answered <==> Arrived(l, last - l.clock) == []
    decreases last - l.clock
  {
    ArrivedGrows(l, 0, last - l.clock);
    if l.buffer == [] && l.clock < last {
      TransmitGivesUp(Tick(l), last);
    }
  }

  /** The transmit loop stops at the first check that finds a byte. */
  lemma {:induction false} TransmitStopsAtFirstByte(l: Link, last: nat, j: nat)
    requires l.clock <= last
    requires j < TransmitSpec(l, last).writes
    ensures Arrived(l, j) == []
    decreases last - l.clock
  {
    if j > 0 {
      TransmitStopsAtFirstByte(Tick(l), last, j - 1);
    }
  }

  /** The wait loop drains exactly when fewer than `need` bytes are buffered
      at its last check. */
  lemma {:induction false} AwaitDrains(l: Link, last: nat, need: nat)
    requires l.clock <= last
    ensures AwaitSpec(l, last, need).drained <==> |Arrived(l, last - l.clock)| < need
    decreases last - l.clock
  {
    ArrivedGrows(l, 0, last - l.clock);
    if |l.buffer| < need && l.clock < last {
      AwaitDrains(Tick(l), last, need);
    }
  }

  /** The wait loop stops at the first check that finds `need` bytes. */
  lemma {:induction false} AwaitStopsAtFirstFull(l: Link, last: nat, need: nat, j: nat)
    requires l.clock <= last
    requires j < AwaitSpec(l, last, need).delays
    ensures |Arrived(l, j)| < need
    decreases last - l.clock
  {
    if j > 0 {
      AwaitStopsAtFirstFull(Tick(l), last, need, j - 1);
    }
  }

  /** Some byte is buffered at one of the transmit loop's checks exactly
      when some byte arrives within `MaxRetry` delays. */
  lemma Answered(l: Link)
    ensures TransmitSpec(l, l.clock + MaxRetry).answered <==> Arrived(l, MaxRetry) != []
  {
    TransmitGivesUp(l, l.clock + MaxRetry);
  }

  /** No response: the request is written exactly 11 times, and nothing is
      read, exactly when no byte is buffered at any of the 11 checks. */
  lemma NoResponse(l: Link, need: nat, len: nat)
    ensures ExchangeSpec(l, need, len).writes == MaxRetry + 1 <==> Arrived(l, MaxRetry) == []
    ensures Arrived(l, MaxRetry) == [] ==>
      ExchangeSpec(l, need, len).frame.None? && ExchangeSpec(l, need, len).link == Ticks(l, MaxRetry + 1)
  {
    TransmitGivesUp(l, l.clock + MaxRetry);
  }

  /** Stale bytes: when a byte is already buffered the request is never
      written. */
  lemma StaleBytes(l: Link, need: nat, len: nat)
    requires l.buffer != []
    ensures ExchangeSpec(l, need, len).writes == 0
  {
  }

  /** Short response: when fewer than `need` bytes are buffered at the wait
      loop's last check, every buffered byte is discarded and the read fails
      at its first byte. */
  lemma ShortResponse(l: Link, need: nat, len: nat)
    requires 0 < len
    requires Arrived(l, MaxRetry) != []
    ensures ExchangeSpec(l, need, len).writes <= MaxRetry
    ensures var e := ExchangeSpec(l, need, len);
      |Arrived(l, e.writes + MaxTimeout)| < need ==>
        e.frame.None? && e.delays == e.writes + MaxTimeout &&
        e.link == Ticks(l, e.delays).(buffer := [])
  {
    var s := TransmitSpec(l, l.clock + MaxRetry);
    Answered(l);
    var w, m := s.writes, MaxTimeout;
    var e := ExchangeSpec(l, need, len);
    assert e.writes == w;
    if |Arrived(l, w + m)| < need {
      var a := AwaitSpec(s.link, s.link.clock + m, need);
      assert Ticks(s.link, m) == Ticks(l, w + m) by { TicksAdd(l, w, m); }
      assert a.drained by { AwaitDrains(s.link, s.link.clock + m, need); }
      assert e == Outcome(w, w + m, None, a.link);
    }
  }

  /** A frame was read exactly when some byte came before the transmit loop
      gave up, `need` bytes were buffered by the wait loop's last check, and
      `len` bytes were buffered when the wait loop stopped. */
  lemma FrameRead(l: Link, need: nat, len: nat)
    requires 0 < len
    ensures var e := ExchangeSpec(l, need, len);
      e.frame.Some? <==>
        Arrived(l, MaxRetry) != [] && need <= |Arrived(l, e.writes + MaxTimeout)| && len <= |Arrived(l, e.delays)|
  {
    var e := ExchangeSpec(l, need, len);
    var s := TransmitSpec(l, l.clock + MaxRetry);
    var w := s.writes;
    assert e.writes == w;
    Answered(l);
    if s.answered {
      var a := AwaitSpec(s.link, s.link.clock + MaxTimeout, need);
      assert a.drained <==> |Arrived(l, w + MaxTimeout)| < need by {
        AwaitDrains(s.link, s.link.clock + MaxTimeout, need);
        TicksAdd(l, w, MaxTimeout);
      }
      var r := ReadSpec(a.link, len);
      assert e.delays == w + a.delays && e.frame == r.frame;
      if !a.drained {
        assert a.link == Ticks(l, w + a.delays) by { TicksAdd(l, w, a.delays); }
      }
    }
  }

  /** A frame that was read is the first `len` bytes buffered when the wait
      loop stopped, and exactly those bytes are consumed. */
  lemma FrameConsumed(l: Link, need: nat, len: nat)
    requires 0 < len
    ensures var e := ExchangeSpec(l, need, len);
      e.frame.Some? ==>
        len <= |Arrived(l, e.delays)| &&
        e.frame.value == Arrived(l, e.delays)[..len] &&
        e.link == Ticks(l, e.delays).(buffer := Arrived(l, e.delays)[len..])
  {
    var e := ExchangeSpec(l, need, len);
    var s := TransmitSpec(l, l.clock + MaxRetry);
    if s.answered {
      var w := s.writes;
      var a := AwaitSpec(s.link, s.link.clock + MaxTimeout, need);
      var r := ReadSpec(a.link, len);
      assert e == Outcome(w, w + a.delays, r.frame, r.link);
      if r.frame.Some? {
        assert a.link == Ticks(l, e.delays) by { TicksAdd(l, w, a.delays); }
      }
    }
  }

  /** When the exchange waits for as many bytes as it reads, a frame is read
      exactly when `len` bytes are buffered by the wait loop's last check. */
  lemma FrameReadSameLength(l: Link, len: nat)
    requires 0 < len
    ensures var e := ExchangeSpec(l, len, len);
      e.frame.Some? <==> Arrived(l, MaxRetry) != [] && len <= |Arrived(l, e.writes + MaxTimeout)|
  {
    FrameRead(l, len, len);
    Answered(l);
    var e := ExchangeSpec(l, len, len);
    var s := TransmitSpec(l, l.clock + MaxRetry);
    assert e.writes == s.writes;
    if s.answered {
      var w := s.writes;
      var a := AwaitSpec(s.link, s.link.clock + MaxTimeout, len);
      assert a.drained <==> |Arrived(l, w + MaxTimeout)| < len by {
        AwaitDrains(s.link, s.link.clock + MaxTimeout, len);
        TicksAdd(l, w, MaxTimeout);
      }
      assert e.delays == w + a.delays;
      if !a.drained {
        assert a.link == Ticks(l, e.delays) by { TicksAdd(l, w, a.delays); }
        assert len <= |Arrived(l, e.delays)|;
      }
    }
  }
}
