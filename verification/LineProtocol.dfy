/** The UART line protocol of protocol.c behind its hardware layer. */
module LineProtocol {
  import opened Bytes

  const PROTO_MAX_LINE: nat := 64
  const TIMEOUT_TICKS: nat := 1000

  datatype Status = Ok | Overflow | Timeout

  // ---------- the protocol on values ----------

  /** What the protocol has seen: a byte, or the line going quiet. */
  datatype Symbol = Byte(b: byte) | Quiet

  /** The part of the state the output depends on, and the output. */
  datatype Core = Core(pending: seq<byte>, lines: uint32, tx: seq<byte>)

  const START := Core([], 0, [])

  /** The numbered echo of one line; `%s` stops at a NUL inside the line. */
  function Echo(lines: uint32, line: seq<byte>): seq<byte> {
    Decimal(lines as nat) + Ascii(":") + UpToNul(line) + [NEWLINE]
  }

  /** One symbol of input. */
  function React(c: Core, symbol: Symbol): Core {
    match symbol
    case Quiet => Core([], c.lines, c.tx + Ascii("timeout\n"))
    case Byte(b) =>
      if b == NEWLINE then Core([], Bump(c.lines), c.tx + Echo(Bump(c.lines), c.pending))
      else if |c.pending| >= PROTO_MAX_LINE - 1 then Core([], c.lines, c.tx + Ascii("overflow\n"))
      else c.(pending := c.pending + [b])
  }

  /** The whole input at once: the protocol as a fold over what it has seen. */
  function Fold(log: seq<Symbol>): Core {
    if log == [] then START else React(Fold(log[..|log| - 1]), log[|log| - 1])
  }

  function BytesOf(log: seq<Symbol>): seq<byte> {
    if log == [] then [] else
    BytesOf(log[..|log| - 1]) + match log[|log| - 1] case Byte(b) => [b] case Quiet => []
  }

  /** The protocol and its hardware: `rx` is what has arrived and is still unread,
      `log` is what the protocol has seen so far. */
  datatype World = World(core: Core, lastTick: uint32, lastStatus: Status, rx: seq<byte>, log: seq<Symbol>)

  /** Ticks since the last byte, on a 32-bit counter that wraps. */
  function Elapsed(now: uint32, last: uint32): nat {
    (now as int - last as int) % 0x1_0000_0000
  }

  function See(w: World, symbol: Symbol): World {
    w.(core := React(w.core, symbol), log := w.log + [symbol])
  }

  /** One call of protocol_poll at tick `now`. */
  function PollOnce(w: World, now: uint32): (World, Status)
    decreases |w.rx|
  {
    if w.rx != [] then
      var next := See(w, Byte(w.rx[0])).(rx := w.rx[1..], lastTick := now);
      if w.rx[0] != NEWLINE && |w.core.pending| >= PROTO_MAX_LINE - 1
      then (next.(lastStatus := Overflow), Overflow)
      else PollOnce(next, now)
    else if |w.core.pending| > 0 && Elapsed(now, w.lastTick) > TIMEOUT_TICKS then
      (See(w, Quiet).(lastStatus := Timeout), Timeout)
    else (w, Ok)
  }

  /** The same with something sent before. */
  function After(sent: seq<byte>, w: World): World { w.(core := w.core.(tx := sent + w.core.tx)) }

  // ---------- the protocol as the program runs it ----------

  /** The hardware layer: a queue of received bytes, the bytes sent, a clock. */
  class Hal {
    var rx: seq<byte>
    var tx: seq<byte>
    var now: uint32

    constructor ()
      ensures rx == [] && tx == []
    {
      rx, tx, now := [], [], 0;
    }

    method UartRead() returns (got: bool, b: byte)
      modifies this`rx
      ensures got == (old(rx) != [])
      ensures if got then old(rx) == [b] + rx else rx == old(rx)
    {
      if rx == [] { return false, 0; }
      got, b := true, rx[0];
      rx := rx[1..];
    }

    method UartWrite(b: byte)
      modifies this`tx
      ensures tx == old(tx) + [b]
    {
      tx := tx + [b];
    }
  }

  class Protocol {
    const hal: Hal
    const line: array<byte>
    var used: byte
    var lastByteTick: uint32
    var linesHandled: uint32
    var lastStatus: Status
    ghost var log: seq<Symbol>

    ghost predicate Valid()
      reads this
    {
      line.Length == PROTO_MAX_LINE && used as nat <= PROTO_MAX_LINE - 1
    }

    ghost function View(): World
      requires Valid()
      reads this, hal, line
    {
      World(Core(line[..used as nat], linesHandled, hal.tx), lastByteTick, lastStatus, hal.rx, log)
    }

    /** protocol_init */
    constructor (hal: Hal)
      ensures Valid() && this.hal == hal && fresh(line)
      ensures View() == After(hal.tx, World(START, 0, Ok, hal.rx, []))
    {
      this.hal := hal;
      line := new byte[PROTO_MAX_LINE](_ => 0);
      used, lastByteTick, linesHandled, lastStatus := 0, 0, 0, Ok;
      log := [];
    }

    method Reply(s: seq<byte>)
      modifies hal`tx
      ensures hal.tx == old(hal.tx) + UpToNul(s)
    {
      var i := 0;
      while i < |s| && s[i] != NUL
        invariant i <= |s| && NUL !in s[..i]
        invariant hal.tx == old(hal.tx) + s[..i]
      {
        hal.UartWrite(s[i]);
        i := i + 1;
      }
      UpToNulUnique(s, i);
    }

    /** The `if (byte == '\n')` branch. */
    method FinishLine()
      requires Valid()
      modifies this`used, this`linesHandled, hal`tx, line
      ensures Valid() && used == 0 && linesHandled == Bump(old(linesHandled))
      ensures hal.tx == old(hal.tx) + Echo(linesHandled, old(line[..used as nat]))
    {
      ghost var pending := line[..used as nat];
      line[used as nat] := NUL;
      linesHandled := Bump(linesHandled);
      UpToNulOfLine(line[..], pending);
      var text := Decimal(linesHandled as nat) + Ascii(":") + UpToNul(line[..]) + [NEWLINE];
      EchoFits(linesHandled, pending);
      Reply(Truncated(text, PROTO_MAX_LINE + 16));
      used := 0;
    }

    /** The branch for a line that is too long. */
    method Overrun()
      requires Valid()
      modifies this`used, this`lastStatus, hal`tx
      ensures Valid() && used == 0 && lastStatus == Overflow
      ensures hal.tx == old(hal.tx) + Ascii("overflow\n")
    {
      OverflowReply();
      Reply(Ascii("overflow\n"));
      used := 0;
      lastStatus := Overflow;
    }

    /** The body of the read loop, for one byte. */
    method HandleByte(b: byte, now: uint32) returns (overflow: bool)
      requires Valid()
      modifies this, hal`tx, line
      ensures Valid()
      ensures overflow == (b != NEWLINE && |old(View()).core.pending| >= PROTO_MAX_LINE - 1)
      ensures View() == See(old(View()), Byte(b)).(
                lastTick := now, lastStatus := if overflow then Overflow else old(lastStatus))
    {
      overflow := false;
      lastByteTick := now;
      log := log + [Byte(b)];
      if b == NEWLINE {
        FinishLine();
      } else if used as nat >= PROTO_MAX_LINE - 1 {
        Overrun();
        overflow := true;
      } else {
        line[used as nat] := b;
        used := used + 1;
      }
    }

    method Poll() returns (status: Status)
      requires Valid()
      modifies this, hal, line
      ensures Valid() && hal.now == old(hal.now)
      ensures (View(), status) == PollOnce(old(View()), hal.now)
      ensures status == Timeout <==>
              old(hal.rx) == [] && old(used) > 0 &&
              exists n: nat :: TIMEOUT_TICKS < n < 0x1_0000_0000 && Tick(old(lastByteTick), n) == hal.now as nat
    {
      var now := hal.now;
      TimesOutIff(View(), now);
      while true
        invariant Valid() && hal.now == now == old(hal.now)
        invariant PollOnce(View(), now) == PollOnce(old(View()), now)
        decreases |hal.rx|
      {
        ghost var w := View();
        var got, b := hal.UartRead();
        if !got { break; }
        ghost var next := See(w, Byte(b)).(rx := w.rx[1..], lastTick := now);
        assert View() == w.(rx := w.rx[1..]) && w.rx[0] == b;
        var overflow := HandleByte(b, now);
        assert View() == if overflow then next.(lastStatus := Overflow) else next;
        if overflow { return Overflow; }
      }
      status := CheckQuiet(now);
    }

    /** Bytes arrive, or the protocol is polled at some tick. */
    method Handle(e: Event)
      requires Valid()
      modifies this, hal, line
      ensures Valid() && View() == ExecOne(old(View()), e)
    {
      match e
      case Arrive(bytes) => hal.rx := hal.rx + bytes;
      case Poll(now) =>
        hal.now := now;
        var _ := Poll();
    }

    /** Any schedule of arrivals and polls, on a protocol just initialised. */
    method HandleAll(events: seq<Event>)
      requires Valid() && View() == After(hal.tx, BOOT)
      modifies this, hal, line
      ensures Valid() && View() == After(old(hal.tx), Exec(BOOT, events))
      ensures BytesOf(log) + hal.rx == Arrived(events)
      ensures hal.tx == old(hal.tx) + Fold(log).tx && used as nat < PROTO_MAX_LINE
    {
      ghost var start := View();
      for i := 0 to |events|
        invariant Valid() && View() == Exec(start, events[..i])
      {
        ExecOneMore(start, events, i);
        Handle(events[i]);
      }
      assert events[..|events|] == events;
      ExecAfter(old(hal.tx), BOOT, events);
      OutputIsFold(events);
    }

    /** The end of a poll, once nothing is left to read. */
    method CheckQuiet(now: uint32) returns (status: Status)
      requires Valid() && hal.rx == []
      modifies this, hal`tx
      ensures Valid() && (View(), status) == PollOnce(old(View()), now)
    {
      if used > 0 && Elapsed(now, lastByteTick) > TIMEOUT_TICKS {
        GiveUp();
        return Timeout;
      }
      return Ok;
    }

    /** The branch for a line that has gone quiet. */
    method GiveUp()
      requires Valid()
      modifies this, hal`tx
      ensures Valid() && View() == See(old(View()), Quiet).(lastStatus := Timeout)
    {
      TimeoutReply();
      Reply(Ascii("timeout\n"));
      log := log + [Quiet];
      used := 0;
      lastStatus := Timeout;
    }
  }

  /** The fixed replies are ordinary C strings. */
  lemma OverflowReply()
    ensures UpToNul(Ascii("overflow\n")) == Ascii("overflow\n")
  {
    UpToNulUnique(Ascii("overflow\n"), 9);
  }

  lemma TimeoutReply()
    ensures UpToNul(Ascii("timeout\n")) == Ascii("timeout\n")
  {
    UpToNulUnique(Ascii("timeout\n"), 8);
  }

  lemma UpToNulOfLine(line: seq<byte>, pending: seq<byte>)
    requires |pending| < |line| && line[..|pending|] == pending && line[|pending|] == NUL
    ensures UpToNul(line) == UpToNul(pending)
  {
    var n := |UpToNul(pending)|;
    assert forall i :: 0 <= i < n ==> line[i] == pending[i];
    assert UpToNul(pending) == line[..n];
    UpToNulUnique(line, n);
  }

  /** The reply to a line always fits the 80-byte buffer it is formatted in. */
  lemma EchoFits(lines: uint32, line: seq<byte>)
    requires |line| <= PROTO_MAX_LINE - 1
    ensures |Echo(lines, line)| < PROTO_MAX_LINE + 16
    ensures UpToNul(Echo(lines, line)) == Echo(lines, line)
  {
    assert Pow10(10) == 10 * (10 * (10 * (10 * (10 * Pow10(5)))));
    assert Pow10(5) == 100000;
    DecimalLength(lines as nat, 10);
    assert NUL !in Ascii(":");
    UpToNulUnique(Echo(lines, line), |Echo(lines, line)|);
  }

  // ---------- any schedule of arrivals and polls ----------

  datatype Event = Arrive(bytes: seq<byte>) | Poll(now: uint32)

  function ExecOne(w: World, e: Event): World {
    match e
    case Arrive(bytes) => w.(rx := w.rx + bytes)
    case Poll(now) => PollOnce(w, now).0
  }

  function Exec(w: World, events: seq<Event>): World
    decreases |events|
  {
    if events == [] then w else Exec(ExecOne(w, events[0]), events[1..])
  }

  lemma {:induction false} ExecOneMore(w: World, events: seq<Event>, i: nat)
    requires i < |events|
    ensures Exec(w, events[..i + 1]) == ExecOne(Exec(w, events[..i]), events[i])
    decreases i
  {
    var one := ExecOne(w, events[0]);
    if i > 0 {
      assert events[..i + 1][1..] == events[1..][..i] && events[..i][1..] == events[1..][..i - 1];
      ExecOneMore(one, events[1..], i - 1);
    } else {
      assert Exec(one, events[..1][1..]) == one;
    }
  }

  function Arrived(events: seq<Event>): seq<byte> {
    if events == [] then [] else
    (match events[0] case Arrive(bytes) => bytes case Poll(_) => []) + Arrived(events[1..])
  }

  const BOOT := World(START, 0, Ok, [], [])

  /** The output is the fold over what was seen; what was seen and what is unread
      are the bytes that arrived, in order; a partial line leaves room for its NUL. */
  predicate Inv(w: World, arrived: seq<byte>) {
    && w.core == Fold(w.log)
    && BytesOf(w.log) + w.rx == arrived
    && |w.core.pending| <= PROTO_MAX_LINE - 1
    && NEWLINE !in w.core.pending
  }

  lemma SeeInv(w: World, symbol: Symbol)
    requires w.core == Fold(w.log) && |w.core.pending| <= PROTO_MAX_LINE - 1 && NEWLINE !in w.core.pending
    ensures var next := See(w, symbol);
            && next.core == Fold(next.log)
            && BytesOf(next.log) == BytesOf(w.log) + (match symbol case Byte(b) => [b] case Quiet => [])
            && |next.core.pending| <= PROTO_MAX_LINE - 1
            && NEWLINE !in next.core.pending
  {
    assert See(w, symbol).log[..|w.log|] == w.log;
  }

  lemma {:induction false} PollInv(w: World, now: uint32, arrived: seq<byte>)
    requires Inv(w, arrived)
    ensures Inv(PollOnce(w, now).0, arrived)
    decreases |w.rx|
  {
    if w.rx != [] {
      SeeInv(w, Byte(w.rx[0]));
      var next := See(w, Byte(w.rx[0])).(rx := w.rx[1..], lastTick := now);
      assert BytesOf(w.log) + w.rx == BytesOf(w.log) + [w.rx[0]] + w.rx[1..];
      PollInv(next, now, arrived);
    } else {
      SeeInv(w, Quiet);
    }
  }

  lemma ArriveInv(w: World, bytes: seq<byte>, arrived: seq<byte>)
    requires Inv(w, arrived)
    ensures Inv(w.(rx := w.rx + bytes), arrived + bytes)
  {
    Assoc(BytesOf(w.log), w.rx, bytes);
  }

  lemma {:induction false} ExecInv(w: World, events: seq<Event>, arrived: seq<byte>)
    requires Inv(w, arrived)
    ensures Inv(Exec(w, events), arrived + Arrived(events))
    decreases |events|
  {
    if events == [] {
      assert arrived + [] == arrived;
    } else {
      var rest := events[1..];
      match events[0]
      case Arrive(bytes) =>
        ArriveInv(w, bytes, arrived);
        ExecInv(w.(rx := w.rx + bytes), rest, arrived + bytes);
        Assoc(arrived, bytes, Arrived(rest));
      case Poll(now) =>
        PollInv(w, now, arrived);
        ExecInv(PollOnce(w, now).0, rest, arrived);
        assert [] + Arrived(rest) == Arrived(rest);
    }
  }

  /** Whatever the schedule, and with timeouts and overflows, the output is one
      fold over the bytes read so far with the timeouts in their places, and the
      buffer bound holds. */
  lemma OutputIsFold(events: seq<Event>)
    ensures var w := Exec(BOOT, events);
            && w.core == Fold(w.log)
            && BytesOf(w.log) + w.rx == Arrived(events)
            && |w.core.pending| <= PROTO_MAX_LINE - 1
  {
    assert BytesOf([]) + BOOT.rx == [];
    ExecInv(BOOT, events, []);
    assert [] + Arrived(events) == Arrived(events);
  }

  lemma {:induction false} NoQuiet(log: seq<Symbol>)
    requires Quiet !in log
    ensures |BytesOf(log)| == |log| && forall i :: 0 <= i < |log| ==> log[i] == Byte(BytesOf(log)[i])
  {
    if log != [] {
      var n := |log| - 1;
      var before := log[..n];
      NoQuiet(before);
      assert log[n] in log;
      assert BytesOf(log) == BytesOf(before) + [log[n].b];
      forall i | 0 <= i < n ensures log[i] == Byte(BytesOf(log)[i]) {
        assert before[i] == Byte(BytesOf(before)[i]);
      }
    }
  }

  lemma SameBytesSameLog(log: seq<Symbol>, other: seq<Symbol>)
    requires Quiet !in log && Quiet !in other && BytesOf(log) == BytesOf(other)
    ensures log == other
  {
    NoQuiet(log);
    NoQuiet(other);
    forall i | 0 <= i < |log| ensures log[i] == other[i] {
      assert log[i] == Byte(BytesOf(log)[i]) && other[i] == Byte(BytesOf(other)[i]);
    }
  }

  /** Poll-schedule independence: two schedules that deliver the same bytes, read
      them all and see no timeout produce the same output, line count and partial
      line, however the bytes are split across polls. */
  lemma ScheduleIndependence(first: seq<Event>, second: seq<Event>)
    requires Arrived(first) == Arrived(second)
    requires Exec(BOOT, first).rx == [] == Exec(BOOT, second).rx
    requires Quiet !in Exec(BOOT, first).log && Quiet !in Exec(BOOT, second).log
    ensures Exec(BOOT, first).core == Exec(BOOT, second).core
  {
    var v, w := Exec(BOOT, first), Exec(BOOT, second);
    OutputIsFold(first);
    OutputIsFold(second);
    assert BytesOf(v.log) + v.rx == BytesOf(v.log) && BytesOf(w.log) + w.rx == BytesOf(w.log);
    SameBytesSameLog(v.log, w.log);
  }

  // ---------- what was sent before ----------

  lemma ReactAfter(sent: seq<byte>, c: Core, symbol: Symbol)
    ensures React(c.(tx := sent + c.tx), symbol) == React(c, symbol).(tx := sent + React(c, symbol).tx)
  {
    var tx := React(c, symbol).tx;
    assert tx == c.tx + tx[|c.tx|..];
    assert sent + c.tx + tx[|c.tx|..] == sent + (c.tx + tx[|c.tx|..]);
  }

  lemma {:induction false} PollAfter(sent: seq<byte>, w: World, now: uint32)
    ensures PollOnce(After(sent, w), now) == (After(sent, PollOnce(w, now).0), PollOnce(w, now).1)
    decreases |w.rx|
  {
    if w.rx != [] {
      ReactAfter(sent, w.core, Byte(w.rx[0]));
      PollAfter(sent, See(w, Byte(w.rx[0])).(rx := w.rx[1..], lastTick := now), now);
    } else {
      ReactAfter(sent, w.core, Quiet);
    }
  }

  /** Hardware that has already sent something changes nothing of what follows it. */
  lemma {:induction false} ExecAfter(sent: seq<byte>, w: World, events: seq<Event>)
    ensures Exec(After(sent, w), events) == After(sent, Exec(w, events))
    decreases |events|
  {
    if events != [] {
      match events[0]
      case Arrive(bytes) => ExecAfter(sent, w.(rx := w.rx + bytes), events[1..]);
      case Poll(now) =>
        PollAfter(sent, w, now);
        ExecAfter(sent, PollOnce(w, now).0, events[1..]);
    }
  }

  // ---------- what a poll does to the text it finds ----------

  /** Ticks on the wrapping counter. */
  function Tick(last: uint32, n: nat): nat { (last as nat + n) % 0x1_0000_0000 }

  /** The number of ticks that takes the counter from one value to the other. */
  lemma ElapsedIs(now: uint32, last: uint32, n: nat)
    requires n < 0x1_0000_0000
    ensures Elapsed(now, last) < 0x1_0000_0000
    ensures Elapsed(now, last) == n <==> Tick(last, n) == now as nat
  {
  }

  /** A poll times out exactly when it finds no byte, a line has been started, and more
      than TIMEOUT_TICKS have taken the wrapping counter from the last byte to now. */
  lemma {:induction false} TimesOutIff(w: World, now: uint32)
    ensures PollOnce(w, now).1 == Timeout <==>
            w.rx == [] && w.core.pending != [] &&
            exists n: nat :: TIMEOUT_TICKS < n < 0x1_0000_0000 && Tick(w.lastTick, n) == now as nat
    ensures PollOnce(w, now).1 != Timeout && Quiet !in w.log ==> Quiet !in PollOnce(w, now).0.log
    decreases |w.rx|
  {
    if w.rx != [] {
      TimesOutIff(See(w, Byte(w.rx[0])).(rx := w.rx[1..], lastTick := now), now);
    } else {
      ElapsedIs(now, w.lastTick, Elapsed(now, w.lastTick));
      forall n: nat | n < 0x1_0000_0000 && Tick(w.lastTick, n) == now as nat ensures n == Elapsed(now, w.lastTick) {
        ElapsedIs(now, w.lastTick, n);
      }
    }
  }

  /** A text cut into lines, the first of which has number k + 1: the replies to the
      complete ones, what follows them, and, if a line has 64 bytes or more, a stop after
      the first 64 of it. */
  datatype Reading = Reading(sent: seq<byte>, rest: seq<byte>, unread: seq<byte>, lines: uint32, overflow: bool)

  function ReadLines(k: uint32, text: seq<byte>): Reading
    decreases |text|
  {
    var nl := FirstAt(text, NEWLINE);
    if nl >= 64 then Reading(Ascii("overflow\n"), [], text[64..], k, true)
    else if nl == |text| then Reading([], text, [], k, false)
    else
      var later := ReadLines(Bump(k), text[nl + 1..]);
      later.(sent := Echo(Bump(k), text[..nl]) + later.sent)
  }

  lemma LineEnds(k: uint32, pending: seq<byte>, rx: seq<byte>)
    requires NEWLINE !in pending && |pending| < 64 && rx != [] && rx[0] == NEWLINE
    ensures ReadLines(k, pending + rx) ==
            var later := ReadLines(Bump(k), rx[1..]); later.(sent := Echo(Bump(k), pending) + later.sent)
  {
    var text := pending + rx;
    assert text[..|pending|] == pending && text[|pending| + 1..] == rx[1..];
    FirstAtUnique(text, NEWLINE, |pending|);
  }

  lemma LineTooLong(k: uint32, pending: seq<byte>, rx: seq<byte>)
    requires NEWLINE !in pending && |pending| == 63 && rx != [] && rx[0] != NEWLINE
    ensures ReadLines(k, pending + rx) == Reading(Ascii("overflow\n"), [], rx[1..], k, true)
  {
    var text := pending + rx;
    assert forall i :: 0 <= i < 64 ==> text[i] != NEWLINE;
    FirstAtFound(text, NEWLINE);
    assert text[64..] == rx[1..];
  }

  /** The text of a world, partial line and unread bytes, is answered. */
  predicate Answers(w: World, now: uint32, after: World, status: Status) {
    var r := ReadLines(w.core.lines, w.core.pending + w.rx);
    && after.core == Core(r.rest, r.lines, w.core.tx + r.sent)
    && after.rx == r.unread && after.lastTick == now
    && status == (if r.overflow then Overflow else Ok)
    && after.lastStatus == (if r.overflow then Overflow else w.lastStatus)
  }

  /** A poll that finds bytes answers the complete lines of what it had and what it finds,
      in order, keeps the start of the next one, and stops early only for a line of 64
      bytes or more: the first 64 are dropped and what follows stays unread. */
  lemma {:induction false} PollReadsLines(w: World, now: uint32)
    requires NEWLINE !in w.core.pending && |w.core.pending| < 64 && w.rx != []
    ensures Answers(w, now, PollOnce(w, now).0, PollOnce(w, now).1)
    decreases |w.rx|, 0
  {
    var pending, b, rest := w.core.pending, w.rx[0], w.rx[1..];
    var next := See(w, Byte(b)).(rx := rest, lastTick := now);
    ElapsedIs(now, now, 0);
    if b == NEWLINE {
      LineEnds(w.core.lines, pending, w.rx);
      assert [] + rest == rest;
      ReadOn(next, now);
      Assoc(w.core.tx, Echo(Bump(w.core.lines), pending), ReadLines(Bump(w.core.lines), rest).sent);
    } else if |pending| == 63 {
      LineTooLong(w.core.lines, pending, w.rx);
    } else {
      assert pending + w.rx == pending + [b] + rest;
      ReadOn(next, now);
    }
  }

  /** The poll once a byte has been read in it. */
  lemma {:induction false} ReadOn(w: World, now: uint32)
    requires NEWLINE !in w.core.pending && |w.core.pending| < 64 && w.lastTick == now
    ensures Answers(w, now, PollOnce(w, now).0, PollOnce(w, now).1)
    decreases |w.rx|, 1
  {
    if w.rx == [] {
      ElapsedIs(now, now, 0);
      FirstAtUnique(w.core.pending, NEWLINE, |w.core.pending|);
      assert w.core.pending + w.rx == w.core.pending && w.core.pending[..|w.core.pending|] == w.core.pending;
      assert w.core.tx + [] == w.core.tx;
    } else {
      PollReadsLines(w, now);
    }
  }

  /** A poll that finds no byte reads none and answers none: it does nothing, or times
      out, which drops the line that was started. */
  lemma PollFindsNothing(w: World, now: uint32)
    requires w.rx == []
    ensures var (after, status) := PollOnce(w, now);
            && after.rx == [] && after.lastTick == w.lastTick
            && (status == Ok ==> after == w)
            && (status != Ok ==> status == Timeout == after.lastStatus &&
                                 after.core == Core([], w.core.lines, w.core.tx + Ascii("timeout\n")))
  {
  }

  lemma HiText()
    ensures Echo(1, Ascii("hi")) == Ascii("1:hi\n") && NEWLINE !in Ascii("hi")
  {
    var hi := Ascii("hi");
    assert hi[..2] == hi;
    UpToNulUnique(hi, 2);
    assert Decimal(1) + Ascii(":") + hi + [NEWLINE] == Ascii("1:hi\n");
  }

  lemma OneLineRead(k: uint32, line: seq<byte>)
    requires NEWLINE !in line && |line| < 64
    ensures ReadLines(k, line + [NEWLINE]) == Reading(Echo(Bump(k), line), [], [], Bump(k), false)
  {
    LineEnds(k, line, [NEWLINE]);
    assert [NEWLINE][1..] == [] && FirstAt([], NEWLINE) == 0;
    assert Echo(Bump(k), line) + [] == Echo(Bump(k), line);
  }

  /** What a terminal that says hi is sent. */
  lemma HiAnswered(now: uint32)
    ensures Exec(BOOT, [Arrive(Ascii("hi") + [NEWLINE]), Poll(now)]).core == Core([], 1, Ascii("1:hi\n"))
  {
    var events := [Arrive(Ascii("hi") + [NEWLINE]), Poll(now)];
    var text := Ascii("hi") + [NEWLINE];
    var w := BOOT.(rx := text);
    HiText();
    OneLineRead(0, Ascii("hi"));
    assert [] + text == text && [] + Ascii("1:hi\n") == Ascii("1:hi\n");
    PollReadsLines(w, now);
    assert events[1..] == [Poll(now)] && [Poll(now)][1..] == [];
    assert Exec(BOOT, events) == Exec(w, [Poll(now)]) == PollOnce(w, now).0;
  }

  // ---------- when the last byte was read ----------

  /** Event i of a schedule is a poll that finds bytes. */
  predicate ReadsAt(events: seq<Event>, i: nat)
    requires i < |events|
  {
    events[i].Poll? && Exec(BOOT, events[..i]).rx != []
  }

  lemma OnePollTick(w: World, e: Event)
    requires NEWLINE !in w.core.pending && |w.core.pending| < 64
    ensures ExecOne(w, e).lastTick == if e.Poll? && w.rx != [] then e.now else w.lastTick
  {
    if e.Poll? {
      if w.rx != [] { PollReadsLines(w, e.now); } else { PollFindsNothing(w, e.now); }
    }
  }

  /** Over every schedule the note of the last byte is the tick of the last poll that read
      one, and 0 before there was one. */
  lemma {:induction false} LastTickIs(events: seq<Event>, n: nat)
    requires n <= |events|
    ensures (forall i: nat :: i < n ==> !ReadsAt(events, i)) ==> Exec(BOOT, events[..n]).lastTick == 0
    ensures forall i: nat :: i < n && ReadsAt(events, i) && (forall j: nat :: i < j < n ==> !ReadsAt(events, j)) ==>
              Exec(BOOT, events[..n]).lastTick == events[i].now
    decreases n
  {
    if n > 0 {
      var before := Exec(BOOT, events[..n - 1]);
      LastTickIs(events, n - 1);
      ExecOneMore(BOOT, events, n - 1);
      assert BytesOf([]) + BOOT.rx == [];
      ExecInv(BOOT, events[..n - 1], []);
      OnePollTick(before, events[n - 1]);
      assert ReadsAt(events, n - 1) <==> events[n - 1].Poll? && before.rx != [];
    }
  }

  // ---------- when a poll leaves bytes behind ----------

  /** Only an overflow leaves bytes unread, and even then at least one was consumed,
      so polling |rx| times without new arrivals reads everything. */
  lemma {:induction false} PollDrains(w: World, now: uint32)
    ensures PollOnce(w, now).1 != Overflow ==> PollOnce(w, now).0.rx == []
    ensures w.rx != [] ==> |PollOnce(w, now).0.rx| < |w.rx|
    decreases |w.rx|
  {
    if w.rx != [] {
      PollDrains(See(w, Byte(w.rx[0])).(rx := w.rx[1..], lastTick := now), now);
    }
  }
}
