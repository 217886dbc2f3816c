/** The byte stream the driver talks to (an Arduino `Stream`), reduced to what
    the driver uses: a count of buffered bytes, reading one byte (-1 when
    none is buffered) and writing a frame. Bytes that arrive while the driver
    waits are given by an explicit schedule: each `delay(50)` moves the next
    chunk of the schedule into the receive buffer. Reading, writing and
    asking for the count take no time. */
module SerialLink {

  /** The receive side of the stream: the buffered bytes, the schedule of
      arrivals (`schedule(t)` arrives during the delay that starts at time
      `t`) and the number of delays made so far. */
  datatype Link = Link(buffer: seq<bv8>, schedule: nat -> seq<bv8>, clock: nat)

  /** The effect of one `delay(50)` on the receive side. */
  function Tick(l: Link): Link
  {
    l.(buffer := l.buffer + l.schedule(l.clock), clock := l.clock + 1)
  }

  /** The receive side once the clock reads `t`, nothing being read
      meanwhile. */
  function Advance(l: Link, t: nat): (r: Link)
    requires l.clock <= t
    ensures r.clock == t && r.schedule == l.schedule
    decreases t - l.clock
  {
    if l.clock == t then l else Advance(Tick(l), t)
  }

  /** The receive side after `k` delays. */
  function Ticks(l: Link, k: nat): Link
  {
    Advance(l, l.clock + k)
  }

  /** The bytes buffered after `k` delays if nothing is read meanwhile. */
  function Arrived(l: Link, k: nat): seq<bv8>
  {
    Ticks(l, k).buffer
  }

  /** One delay, then `k` more. */
  lemma TicksSucc(l: Link, k: nat)
    ensures Ticks(l, k + 1) == Ticks(Tick(l), k)
  {
  }

  /** Delays compose. */
  lemma {:induction false} AdvanceAdd(l: Link, t: nat, u: nat)
    requires l.clock <= t <= u
    ensures Advance(Advance(l, t), u) == Advance(l, u)
    decreases t - l.clock
  {
    if l.clock < t {
      AdvanceAdd(Tick(l), t, u);
    }
  }

  /** Delays compose. */
  lemma TicksAdd(l: Link, j: nat, k: nat)
    ensures Ticks(Ticks(l, j), k) == Ticks(l, j + k)
  {
    AdvanceAdd(l, l.clock + j, l.clock + j + k);
  }

  /** Bytes are never lost while nobody reads: what is buffered at clock
      `t` is a prefix of what is buffered at any later clock `u`. */
  lemma {:induction false} AdvanceGrows(l: Link, t: nat, u: nat)
    requires l.clock <= t <= u
    ensures Advance(l, t).buffer <= Advance(l, u).buffer
    decreases u - l.clock
  {
    if l.clock < u {
      if l.clock == t {
        AdvanceGrows(Tick(l), l.clock + 1, u);
      } else {
        AdvanceGrows(Tick(l), t, u);
      }
    }
  }

  /** What is buffered after `j` delays is a prefix of what is buffered
      after `k >= j` delays. */
  lemma ArrivedGrows(l: Link, j: nat, k: nat)
    requires j <= k
    ensures Arrived(l, j) <= Arrived(l, k)
  {
    AdvanceGrows(l, l.clock + j, l.clock + k);
  }

  /** The stream object. `written` logs every frame written, in order. */
  class Stream {
    var buffer: seq<bv8>
    var schedule: nat -> seq<bv8>
    var clock: nat
    var written: seq<seq<bv8>>

    constructor (initial: seq<bv8>, arrivals: nat -> seq<bv8>)
      ensures State() == Link(initial, arrivals, 0) && written == []
    {
      buffer := initial;
      schedule := arrivals;
      clock := 0;
      written := [];
    }

    /** The receive side as a value. */
    function State(): Link
      reads this
    {
      Link(buffer, schedule, clock)
    }

    /** `available()`: the number of buffered bytes. */
    function Available(): (n: nat)
      reads this
      ensures n == 0 <==> buffer == []
    {
      |buffer|
    }

    /** `write(buf, len)`: sends a frame; the receive side is untouched. */
    method Write(frame: seq<bv8>)
      modifies this
      ensures written == old(written) + [frame]
      ensures State() == old(State())
    {
      written := written + [frame];
    }

    /** `read()`: the oldest buffered byte, or -1 when nothing is buffered. */
    method Read() returns (b: int)
      modifies this
      ensures old(buffer) == [] ==> b == -1 && buffer == []
      ensures old(buffer) != [] ==> b == old(buffer[0]) as int && buffer == old(buffer[1..])
      ensures schedule == old(schedule) && clock == old(clock) && written == old(written)
    {
      if buffer == [] {
        b := -1;
      } else {
        b := buffer[0] as int;
        buffer := buffer[1..];
      }
    }

    /** `delay(50)`: lets the chunk scheduled for now arrive. */
    method Delay()
      modifies this
      ensures State() == Tick(old(State()))
      ensures written == old(written)
    {
      buffer := buffer + schedule(clock);
      clock := clock + 1;
    }
  }
}
