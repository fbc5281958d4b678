/** What a closing connection of evserver.c still does: a quit that waits in the input
    is read again, and a reply that fits follows one that did not; and what the first
    line of a client is answered. */
module ClosingSessions {
  import opened Bytes
  import opened ConnectionSpec

  // ---------- a quit that is read again ----------

  /** A quit has been answered, and is still at the front of `in`. */
  predicate QuitWaits(say: Words, c: Conn) {
    c.Valid() && c.closing && NewlineAt(c.inp) < |c.inp| && QuitNext(say, c)
  }

  lemma {:induction false} FrameStopsAtQuit(say: Words, k: nat, stream: seq<byte>)
    ensures var f := Frame(say, k, stream);
            !f.NoQuit() ==> NewlineAt(f.rest) < |f.rest| && f.rest[..NewlineAt(f.rest)] == say.quit
    decreases |stream|
  {
    var nl := NewlineAt(stream);
    if nl == |stream| || stream[..nl] == say.quit {
      FrameEnd(say, k, stream);
    } else {
      FrameStopsAtQuit(say, k + 1, stream[nl + 1..]);
    }
  }

  /** Wherever a quit ends the processing, it is left waiting. */
  lemma QuitLeft(say: Words, c: Conn)
    requires c.Valid() && !Frame(say, c.lines, c.inp).NoQuit()
    ensures QuitWaits(say, Process(say, c))
  {
    ProcessEchoes(say, c);
    FrameStopsAtQuit(say, c.lines, c.inp);
  }

  /** The socket hands over bytes, and there is room for some. */
  predicate BringsBytes(c: Conn, script: seq<RecvResult>) {
    |c.inp| < BUF_SIZE && script != []
    && (if script[0].Interrupted? then BringsBytes(c, script[1..]) else script[0].Bytes? && script[0].chunk != [])
  }

  /** The socket reports the peer's orderly close. */
  predicate EndOfStream(c: Conn, script: seq<RecvResult>) {
    |c.inp| < BUF_SIZE && script != []
    && (if script[0].Interrupted? then EndOfStream(c, script[1..]) else script[0] == RecvResult.Bytes([]))
  }

  /** More input is processed while a quit waits. */
  lemma QuitProcessed(say: Words, c: Conn, more: seq<byte>)
    requires QuitWaits(say, c) && |c.inp| + |more| <= BUF_SIZE
    ensures var d := Process(say, c.(inp := c.inp + more));
            && QuitWaits(say, d) && d.inp == c.inp + more && d.lines == c.lines + 1 && d.sent == c.sent
            && (c.out + say.bye <= d.out <==> |c.out| + |say.bye| <= BUF_SIZE)
            && (|d.inp| < BUF_SIZE ==> d.out == if |c.out| + |say.bye| <= BUF_SIZE then c.out + say.bye else c.out)
  {
    var b := c.(inp := c.inp + more);
    SameFirstLine(c.inp, more);
    assert QuitNext(say, b);
  }

  /** A read on a closing connection with a quit waiting, whatever the socket does: the
      quit is counted again, and its answer queued again if there is room, exactly when
      the read brings bytes; it is then still waiting. */
  lemma {:induction false} QuitReadAgain(say: Words, c: Conn, script: seq<RecvResult>)
    requires QuitWaits(say, c)
    ensures var r := Readable(say, c, script);
            && QuitWaits(say, r.conn) && r.conn.inp == c.inp + r.taken && r.conn.sent == c.sent
            && (r.taken != [] <==> BringsBytes(c, script))
            && r.conn.lines == c.lines + (if BringsBytes(c, script) then 1 else 0)
            && (BringsBytes(c, script) ==> (c.out + say.bye <= r.conn.out <==> |c.out| + |say.bye| <= BUF_SIZE))
    ensures var r := Readable(say, c, script);
            |r.conn.inp| < BUF_SIZE || !BringsBytes(c, script) ==>
              r.conn.out == if EndOfStream(c, script) then c.out[..c.sent]
                            else if BringsBytes(c, script) && |c.out| + |say.bye| <= BUF_SIZE then c.out + say.bye
                            else c.out
    decreases |script|
  {
    assert c.inp + [] == c.inp;
    if |c.inp| < BUF_SIZE && script != [] {
      if script[0].Interrupted? {
        QuitReadAgain(say, c, script[1..]);
      } else if script[0].Bytes? && script[0].chunk != [] {
        QuitProcessed(say, c, script[0].chunk[..Room(c, script[0].chunk)]);
      }
    }
  }

  // ---------- over the rest of a session ----------

  /** Everything delivered and pending. */
  function Stream(s: Session): seq<byte>
    requires s.conn.Valid()
  {
    s.delivered + s.conn.Pending()
  }

  function Continue(say: Words, s: Session, turns: seq<Turn>): (t: Session)
    requires s.conn.Valid()
    ensures t.conn.Valid()
    decreases |turns|
  {
    if turns == [] then s else Continue(say, Take(say, s, turns[0]), turns[1..])
  }

  lemma {:induction false} AfterThen(say: Words, turns: seq<Turn>, more: seq<Turn>)
    ensures After(say, turns + more) == Continue(say, After(say, turns), more)
    decreases |more|
  {
    if more == [] {
      assert turns + more == turns;
    } else {
      OneTurnMore(say, turns, more[0]);
      assert (turns + [more[0]]) + more[1..] == turns + more;
      AfterThen(say, turns + [more[0]], more[1..]);
    }
  }

  predicate Again(s: Session, turn: Turn) { turn.ReadTurn? && BringsBytes(s.conn, turn.recvs) }

  predicate Ends(s: Session, turn: Turn) { turn.ReadTurn? && EndOfStream(s.conn, turn.recvs) }

  /** What a turn adds to the stream of a connection with a quit waiting. */
  function Repeated(say: Words, s: Session, turn: Turn): seq<byte> {
    if Again(s, turn) && |s.conn.out| + |say.bye| <= BUF_SIZE then say.bye else []
  }

  lemma QuitTurn(say: Words, s: Session, turn: Turn)
    requires QuitWaits(say, s.conn)
    ensures var t := Take(say, s, turn);
            && QuitWaits(say, t.conn)
            && s.received <= t.received && t.conn.inp == s.conn.inp + t.received[|s.received|..]
            && t.conn.lines == s.conn.lines + (if Again(s, turn) then 1 else 0)
            && (!Ends(s, turn) && |t.conn.inp| < BUF_SIZE ==> Stream(t) == Stream(s) + Repeated(say, s, turn))
  {
    var t := Take(say, s, turn);
    match turn
    case ReadTurn(recvs) =>
      QuitReadAgain(say, s.conn, recvs);
      assert t.received[|s.received|..] == Readable(say, s.conn, recvs).taken;
      if !Ends(s, turn) && |t.conn.inp| < BUF_SIZE { SameStream(say, s, t, Repeated(say, s, turn)); }
    case WriteTurn(sends) =>
      WritableKeeps(s.conn, sends);
      Assoc(s.delivered, Writable(s.conn, sends).delivered, t.conn.Pending());
      assert Stream(s) + [] == Stream(s) && s.conn.inp + [] == s.conn.inp;
  }

  lemma SameStream(say: Words, s: Session, t: Session, words: seq<byte>)
    requires s.conn.Valid() && t.conn.Valid() && t.delivered == s.delivered
    requires t.conn.sent == s.conn.sent && t.conn.out == s.conn.out + words
    ensures Stream(t) == Stream(s) + words
  {
    assert t.conn.Pending() == s.conn.Pending() + words;
    Assoc(s.delivered, s.conn.Pending(), words);
  }

  /** How many of the turns bring bytes. */
  function Readings(say: Words, s: Session, turns: seq<Turn>): nat
    requires s.conn.Valid()
    decreases |turns|
  {
    if turns == [] then 0
    else (if Again(s, turns[0]) then 1 else 0) + Readings(say, Take(say, s, turns[0]), turns[1..])
  }

  function AllRepeated(say: Words, s: Session, turns: seq<Turn>): seq<byte>
    requires s.conn.Valid()
    decreases |turns|
  {
    if turns == [] then []
    else Repeated(say, s, turns[0]) + AllRepeated(say, Take(say, s, turns[0]), turns[1..])
  }

  predicate NeverEnds(say: Words, s: Session, turns: seq<Turn>)
    requires s.conn.Valid()
    decreases |turns|
  {
    turns == [] || (!Ends(s, turns[0]) && NeverEnds(say, Take(say, s, turns[0]), turns[1..]))
  }

  lemma {:induction false} QuitContinues(say: Words, s: Session, turns: seq<Turn>)
    requires QuitWaits(say, s.conn)
    ensures var t := Continue(say, s, turns);
            && QuitWaits(say, t.conn)
            && s.received <= t.received && t.conn.inp == s.conn.inp + t.received[|s.received|..]
            && t.conn.lines == s.conn.lines + Readings(say, s, turns)
            && (NeverEnds(say, s, turns) && |t.conn.inp| < BUF_SIZE ==>
                  Stream(t) == Stream(s) + AllRepeated(say, s, turns))
    decreases |turns|
  {
    if turns == [] {
      assert Stream(s) + [] == Stream(s) && s.conn.inp + [] == s.conn.inp;
    } else {
      var next, t := Take(say, s, turns[0]), Continue(say, s, turns);
      QuitTurn(say, s, turns[0]);
      QuitContinues(say, next, turns[1..]);
      assert t.received[|s.received|..] == next.received[|s.received|..] + t.received[|next.received|..];
      Assoc(s.conn.inp, next.received[|s.received|..], t.received[|next.received|..]);
      Assoc(Stream(s), Repeated(say, s, turns[0]), AllRepeated(say, next, turns[1..]));
    }
  }

  /** In every session, from the moment a quit waits: it goes on waiting, everything that
      arrives is kept behind it, it is counted once more for every turn that brings bytes
      and for no other, and, while the buffer does not fill and the peer does not end the
      stream, all that is said is its answer once more for each of them that has room. */
  lemma QuitReadOnAndOn(say: Words, turns: seq<Turn>, more: seq<Turn>)
    requires QuitWaits(say, After(say, turns).conn)
    ensures var s, t := After(say, turns), After(say, turns + more);
            && QuitWaits(say, t.conn)
            && s.received <= t.received && t.conn.inp == s.conn.inp + t.received[|s.received|..]
            && t.conn.lines == s.conn.lines + Readings(say, s, more)
            && (NeverEnds(say, s, more) && |t.conn.inp| < BUF_SIZE ==>
                  Stream(t) == Stream(s) + AllRepeated(say, s, more))
  {
    AfterThen(say, turns, more);
    QuitContinues(say, After(say, turns), more);
  }

  /** One recv that brings a quit and nothing else. */
  lemma QuitRead(say: Words, c: Conn)
    requires c.Valid() && !c.closing && c.inp == [] && |say.quit| + 1 < BUF_SIZE && NEWLINE !in say.quit
    requires |c.out| + |say.bye| <= BUF_SIZE
    ensures Readable(say, c, [RecvResult.Bytes(say.quit + [NEWLINE])])
         == Read(Conn(say.quit + [NEWLINE], c.out + say.bye, c.sent, c.lines + 1, true), say.quit + [NEWLINE])
  {
    var chunk := say.quit + [NEWLINE];
    ChunkRead(say, c, chunk);
    assert chunk[..|say.quit|] == say.quit;
    FirstAtUnique(chunk, NEWLINE, |say.quit|);
  }

  /** The words are short, and a quit is a line. */
  predicate Ordinary(say: Words) {
    && NEWLINE !in say.quit && |say.quit| + 2 < BUF_SIZE
    && 0 < |say.greeting| <= BUF_SIZE && 2 * |say.bye| <= BUF_SIZE
  }

  function QuitTurns(say: Words): seq<Turn> {
    [WriteTurn([Sent(|say.greeting|)]), ReadTurn([RecvResult.Bytes(say.quit + [NEWLINE])])]
  }

  lemma QuitOnce(say: Words)
    requires Ordinary(say)
    ensures After(say, QuitTurns(say))
         == Session(Conn(say.quit + [NEWLINE], say.bye, 0, 1, true), say.quit + [NEWLINE], say.greeting)
  {
    var first, second := WriteTurn([Sent(|say.greeting|)]), ReadTurn([RecvResult.Bytes(say.quit + [NEWLINE])]);
    GreetingTaken(say);
    QuitRead(say, Conn([], [], 0, 0, false));
    OneTurnMore(say, [first], second);
    assert [first] + [second] == QuitTurns(say);
    assert [] + say.bye == say.bye && [] + (say.quit + [NEWLINE]) == say.quit + [NEWLINE];
  }

  /** A client takes the greeting, sends a quit, and one more byte: the quit is counted
      and answered twice. */
  lemma QuitTwice(say: Words, b: byte)
    requires Ordinary(say)
    ensures var s := After(say, QuitTurns(say) + [ReadTurn([RecvResult.Bytes([b])])]);
            && s.conn.closing && s.conn.lines == 2
            && s.conn.Pending() == say.bye + say.bye
            && s.conn.inp == s.received == say.quit + [NEWLINE] + [b]
  {
    var third := ReadTurn([RecvResult.Bytes([b])]);
    var line := say.quit + [NEWLINE];
    QuitOnce(say);
    OneTurnMore(say, QuitTurns(say), third);
    assert line[..|say.quit|] == say.quit;
    FirstAtUnique(line, NEWLINE, |say.quit|);
    QuitReadAgain(say, After(say, QuitTurns(say)).conn, third.recvs);
    assert [b][..1] == [b];
  }

  /** It happens on the server. */
  lemma QuitAnsweredTwice()
    ensures var s := After(SERVER, [WriteTurn([Sent(6)]), ReadTurn([RecvResult.Bytes(Ascii("quit") + [NEWLINE])]),
                                    ReadTurn([RecvResult.Bytes([120])])]);
            s.conn.closing && s.conn.lines == 2 && s.conn.Pending() == Ascii("bye\n") + Ascii("bye\n")
  {
    QuitTwice(SERVER, 120);
    var third := ReadTurn([RecvResult.Bytes([120])]);
    assert QuitTurns(SERVER) + [third]
        == [WriteTurn([Sent(6)]), ReadTurn([RecvResult.Bytes(Ascii("quit") + [NEWLINE])]), third];
  }

  // ---------- a reply that is missing in the middle ----------

  predicate PlainLine(say: Words, line: seq<byte>) { NEWLINE !in line && line != say.quit }

  /** The connection once a line is counted, and answered if its reply fits. */
  function Answered(say: Words, c: Conn, line: seq<byte>): (d: Conn)
    requires c.Valid()
    ensures d.Valid() && d.inp == c.inp
  {
    Queue(c.(lines := c.lines + 1), say.echo(c.lines + 1, line))
  }

  /** Answering a line does not look at the input. */
  lemma AnsweredApart(say: Words, c: Conn, line: seq<byte>, inp: seq<byte>)
    requires c.Valid() && |inp| <= BUF_SIZE
    ensures Answered(say, c.(inp := inp), line) == Answered(say, c, line).(inp := inp)
  {
  }

  lemma LineProcessed(say: Words, c: Conn, line: seq<byte>, tail: seq<byte>, inp: seq<byte>)
    requires c.Valid() && |inp| <= BUF_SIZE && inp == line + [NEWLINE] + tail && PlainLine(say, line)
    ensures Process(say, c.(inp := inp)) == Process(say, Answered(say, c, line).(inp := tail))
  {
    FirstLine(say, c.(inp := inp), line, tail);
    AnsweredApart(say, c, line, inp);
  }

  lemma NothingToProcess(say: Words, c: Conn)
    requires c.Valid() && c.inp == []
    ensures Process(say, c) == c
  {
  }

  /** An empty input buffer gets two lines at once. */
  lemma TwoLinesProcessed(say: Words, c: Conn, a: seq<byte>, b: seq<byte>, chunk: seq<byte>)
    requires c.Valid() && c.inp == [] && |chunk| < BUF_SIZE && chunk == a + [NEWLINE] + (b + [NEWLINE])
    requires PlainLine(say, a) && PlainLine(say, b)
    ensures Process(say, c.(inp := chunk)) == Answered(say, Answered(say, c, a), b)
  {
    var tail := b + [NEWLINE];
    assert tail == b + [NEWLINE] + [];
    LineProcessed(say, c, a, tail, chunk);
    LineProcessed(say, Answered(say, c, a), b, [], tail);
    NothingToProcess(say, Answered(say, Answered(say, c, a), b));
  }

  /** One recv that brings two lines. */
  lemma TwoLinesRead(say: Words, c: Conn, a: seq<byte>, b: seq<byte>)
    requires c.Valid() && !c.closing && c.inp == [] && |a| + |b| + 2 < BUF_SIZE
    requires PlainLine(say, a) && PlainLine(say, b)
    ensures var chunk := a + [NEWLINE] + (b + [NEWLINE]);
            Readable(say, c, [RecvResult.Bytes(chunk)]) == Read(Answered(say, Answered(say, c, a), b), chunk)
  {
    var chunk := a + [NEWLINE] + (b + [NEWLINE]);
    TwoLinesProcessed(say, c, a, b, chunk);
    ChunkRead(say, c, chunk);
  }

  /** A reply that does not fit closes the session; one behind it that does is sent. */
  lemma LaterReplyKept(say: Words, c: Conn, a: seq<byte>, b: seq<byte>)
    requires c.Valid()
    requires |c.out| + |say.echo(c.lines + 1, a)| > BUF_SIZE && |c.out| + |say.echo(c.lines + 2, b)| <= BUF_SIZE
    ensures Answered(say, Answered(say, c, a), b)
         == c.(out := c.out + say.echo(c.lines + 2, b), lines := c.lines + 2, closing := true)
  {
  }

  /** A connection whose output is nearly full reads a long line and a short one. */
  lemma MiddleReplyMissing(say: Words, c: Conn, a: seq<byte>, b: seq<byte>)
    requires c.Valid() && !c.closing && c.inp == [] && |a| + |b| + 2 < BUF_SIZE
    requires PlainLine(say, a) && PlainLine(say, b)
    requires |c.out| + |say.echo(c.lines + 1, a)| > BUF_SIZE && |c.out| + |say.echo(c.lines + 2, b)| <= BUF_SIZE
    ensures Readable(say, c, [RecvResult.Bytes(a + [NEWLINE] + (b + [NEWLINE]))]).conn
         == c.(out := c.out + say.echo(c.lines + 2, b), lines := c.lines + 2, closing := true)
  {
    LaterReplyKept(say, c, a, b);
    TwoLinesRead(say, c, a, b);
  }

  /** A client that takes nothing sends three lines, the second and third together. */
  function ThreeLines(a: seq<byte>, b: seq<byte>, d: seq<byte>): seq<Turn> {
    [ReadTurn([RecvResult.Bytes(a + [NEWLINE])]), ReadTurn([RecvResult.Bytes(b + [NEWLINE] + (d + [NEWLINE]))])]
  }

  lemma MiddleMissing(say: Words, a: seq<byte>, b: seq<byte>, d: seq<byte>)
    requires PlainLine(say, a) && PlainLine(say, b) && PlainLine(say, d)
    requires |a| + 1 < BUF_SIZE && |b| + |d| + 2 < BUF_SIZE
    requires var out := say.greeting + say.echo(1, a);
             |out| <= BUF_SIZE < |out| + |say.echo(2, b)| && |out| + |say.echo(3, d)| <= BUF_SIZE
    ensures var s := After(say, ThreeLines(a, b, d));
            && s.conn == Conn([], say.greeting + say.echo(1, a) + say.echo(3, d), 0, 3, true)
            && s.delivered == []
  {
    var first, second := ThreeLines(a, b, d)[0], ThreeLines(a, b, d)[1];
    assert [] + [first] == [first] && [first] + [second] == ThreeLines(a, b, d);
    OneTurnMore(say, [], first);
    OneTurnMore(say, [first], second);
    assert [] + say.greeting == say.greeting;
    LineRead(say, Accepted(say), a);
    var c := After(say, [first]).conn;
    assert c == Conn([], say.greeting + say.echo(1, a), 0, 1, false);
    MiddleReplyMissing(say, c, b, d);
  }

  lemma LettersEcho(k: nat, n: nat)
    requires k < 10 && n + 4 < BUF_SIZE
    ensures SERVER.echo(k, Letters(n)) == ReplyText(k, Letters(n)) && |SERVER.echo(k, Letters(n))| == n + 4
    ensures PlainLine(SERVER, Letters(n))
  {
    if n == 4 { assert Letters(4)[0] != SERVER.quit[0]; }
  }

  /** It happens: of the replies to lines of 4000, 100 and 1 letters the client is going to
      be sent the first and the third. */
  lemma SecondReplyMissing()
    ensures var s := After(SERVER, ThreeLines(Letters(4000), Letters(100), Letters(1)));
            s.conn.Pending() == SERVER.greeting + ReplyText(1, Letters(4000)) + ReplyText(3, Letters(1))
  {
    LettersEcho(1, 4000);
    LettersEcho(2, 100);
    LettersEcho(3, 1);
    assert |SERVER.greeting| == 6;
    MiddleMissing(SERVER, Letters(4000), Letters(100), Letters(1));
  }

  // ---------- what a client sees ----------

  lemma HelloText()
    ensures SERVER.echo(1, Ascii("hi")) == Ascii("1: hi\n") && PlainLine(SERVER, Ascii("hi"))
  {
    var hi := Ascii("hi");
    assert hi[..2] == hi;
    UpToNulUnique(hi, 2);
    assert Decimal(1) == Ascii("1");
    assert Ascii("1") + Ascii(": ") + hi + [NEWLINE] == Ascii("1: hi\n");
  }

  /** A client that says hi is greeted and answered. */
  lemma HelloAnswered()
    ensures var s := After(SERVER, [ReadTurn([RecvResult.Bytes(Ascii("hi") + [NEWLINE])])]);
            s.conn.Pending() == Ascii("ready\n") + Ascii("1: hi\n") && !s.conn.closing
  {
    var turn := ReadTurn([RecvResult.Bytes(Ascii("hi") + [NEWLINE])]);
    HelloText();
    assert [] + SERVER.greeting == SERVER.greeting;
    LineRead(SERVER, Accepted(SERVER), Ascii("hi"));
    OneTurnMore(SERVER, [], turn);
    assert [] + [turn] == [turn];
  }

  /** A client that fills the buffer without ending its line is told so, and dropped. */
  lemma LongLineRefused()
    ensures var s := After(SERVER, [ReadTurn([RecvResult.Bytes(Letters(4096))])]);
            s.conn.Pending() == Ascii("ready\n") + Ascii("line too long\n") && s.conn.closing
  {
    var c, turn := Accepted(SERVER), ReadTurn([RecvResult.Bytes(Letters(4096))]);
    assert [] + SERVER.greeting == SERVER.greeting;
    LettersRead(c);
    OneTurnMore(SERVER, [], turn);
    assert [] + [turn] == [turn];
  }

  lemma LettersRead(c: Conn)
    requires c == Conn([], Ascii("ready\n"), 0, 0, false)
    ensures var r := Readable(SERVER, c, [RecvResult.Bytes(Letters(4096))]);
            r.conn.closing && r.conn.sent == 0 && r.conn.out == Ascii("ready\n") + Ascii("line too long\n")
  {
    var chunk := Letters(4096);
    var full := c.(inp := chunk);
    assert [] + chunk == chunk && chunk[..|chunk|] == chunk;
    FirstAtFound(chunk, NEWLINE);
    assert NewlineAt(chunk) == |chunk|;
    assert Process(SERVER, full) == AfterLines(SERVER, full);
  }
}
