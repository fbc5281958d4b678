/** What a connection of evserver.c does to its byte stream, on values: framing,
    replies, and the effect of every result recv and send can have. */
module ConnectionSpec {
  import opened Bytes

  const BUF_SIZE: nat := 4096

  /** The words of the protocol. Framing and buffering are the same for any words; the
      program's are SERVER. */
  datatype Words = Words(
    greeting: seq<byte>,
    quit: seq<byte>,
    bye: seq<byte>,
    tooLong: seq<byte>,
    echo: (nat, seq<byte>) -> seq<byte>)

  const SERVER: Words :=
    Words(Ascii("ready\n"), Ascii("quit"), Ascii("bye\n"), Ascii("line too long\n"), EchoLine)

  /** The bytes in `in`, those in `out` up to out_used, how many of them are sent. */
  datatype Conn = Conn(inp: seq<byte>, out: seq<byte>, sent: nat, lines: nat, closing: bool) {
    predicate Valid() { |inp| <= BUF_SIZE && sent <= |out| <= BUF_SIZE }

    function Pending(): seq<byte>
      requires Valid()
    {
      out[sent..]
    }
  }

  /** The place of the first newline, or the length if there is none. */
  function NewlineAt(s: seq<byte>): (n: nat)
    ensures n <= |s|
  {
    FirstAt(s, NEWLINE)
  }

  /** The reply to line number k, as formatted; `%.*s` stops at a NUL. */
  function ReplyText(k: nat, line: seq<byte>): seq<byte> {
    Decimal(k) + Ascii(": ") + UpToNul(line) + [NEWLINE]
  }

  /** The bytes conn_queue copies for a formatted text: they come from a buffer of
      BUF_SIZE bytes that snprintf has cut and terminated, but their number is that
      of the whole text. */
  function Wire(text: seq<byte>): (w: seq<byte>)
    ensures |w| == |text|
    ensures |text| != BUF_SIZE ==> w == text
  {
    if |text| == BUF_SIZE then text[..BUF_SIZE - 1] + [NUL] else text
  }

  /** The answer of the program to line number k. */
  function EchoLine(k: nat, line: seq<byte>): seq<byte> { Wire(ReplyText(k, line)) }

  /** conn_queue */
  function Queue(c: Conn, data: seq<byte>): (d: Conn)
    requires c.Valid()
    ensures d.Valid() && d.inp == c.inp && (c.closing ==> d.closing)
  {
    if |c.out| + |data| > BUF_SIZE then c.(closing := true) else c.(out := c.out + data)
  }

  /** The end of conn_process_input. */
  function AfterLines(say: Words, c: Conn): (d: Conn)
    requires c.Valid()
    ensures d.Valid() && (c.closing ==> d.closing)
  {
    if |c.inp| == BUF_SIZE then Queue(c, say.tooLong).(closing := true) else c
  }

  predicate QuitNext(say: Words, c: Conn) { c.inp[..NewlineAt(c.inp)] == say.quit }

  /** What the loop body of conn_process_input makes of a connection: a quit line stays
      in the input, another line is taken off. */
  function OneLine(say: Words, c: Conn): (d: Conn)
    requires c.Valid() && NewlineAt(c.inp) < |c.inp|
    ensures d.Valid() && d.sent == c.sent && (c.closing ==> d.closing)
    ensures !QuitNext(say, c) ==> |d.inp| < |c.inp|
  {
    var nl, counted := NewlineAt(c.inp), c.(lines := c.lines + 1);
    if QuitNext(say, c) then Queue(counted, say.bye).(closing := true)
    else Queue(counted, say.echo(c.lines + 1, c.inp[..nl])).(inp := c.inp[nl + 1..])
  }

  /** conn_process_input */
  function Process(say: Words, c: Conn): (d: Conn)
    requires c.Valid()
    ensures d.Valid() && (c.closing ==> d.closing)
    decreases |c.inp|
  {
    if NewlineAt(c.inp) == |c.inp| then AfterLines(say, c)
    else if QuitNext(say, c) then AfterLines(say, OneLine(say, c))
    else Process(say, OneLine(say, c))
  }

  // ---------- recv and send ----------

  /** What recv finds: bytes (none of them is the peer's orderly close), nothing yet,
      a signal, or an error. */
  datatype RecvResult = Bytes(chunk: seq<byte>) | NothingYet | Interrupted | Failed

  /** The result of a conn_readable: the connection, and the bytes it took in. */
  datatype Read = Read(conn: Conn, taken: seq<byte>)

  /** conn_readable, against what the socket will answer to successive calls of recv.
      A call takes at most the room there is, the rest of the chunk comes later. */
  function Readable(say: Words, c: Conn, script: seq<RecvResult>): (r: Read)
    requires c.Valid()
    ensures r.conn.Valid()
    decreases ScriptSize(script)
  {
    if |c.inp| == BUF_SIZE || script == [] then Read(c, [])
    else match script[0]
    case NothingYet => Read(c, [])
    case Interrupted => Readable(say, c, script[1..])
    case Failed => Read(c.(closing := true), [])
    case Bytes(chunk) =>
      if chunk == [] then Read(c.(closing := true, out := c.out[..c.sent]), [])
      else
        var n := Room(c, chunk);
        var next := Process(say, c.(inp := c.inp + chunk[..n]));
        if next.closing then Read(next, chunk[..n])
        else
          var later := Readable(say, next, Remaining(script, n));
          Read(later.conn, chunk[..n] + later.taken)
  }

  function Room(c: Conn, chunk: seq<byte>): (n: nat)
    requires c.Valid() && |c.inp| < BUF_SIZE && chunk != []
    ensures 0 < n <= |chunk| && |c.inp| + n <= BUF_SIZE
  {
    if |chunk| <= BUF_SIZE - |c.inp| then |chunk| else BUF_SIZE - |c.inp|
  }

  /** What is left of a script once n bytes of its first chunk are taken. */
  function Remaining(script: seq<RecvResult>, n: nat): (rest: seq<RecvResult>)
    requires script != [] && script[0].Bytes? && 0 < n <= |script[0].chunk|
    ensures ScriptSize(rest) < ScriptSize(script)
  {
    if n == |script[0].chunk| then script[1..]
    else
      var rest := [Bytes(script[0].chunk[n..])] + script[1..];
      assert rest[1..] == script[1..];
      rest
  }

  function ScriptSize(script: seq<RecvResult>): nat {
    if script == [] then 0
    else 1 + (if script[0].Bytes? then |script[0].chunk| else 0) + ScriptSize(script[1..])
  }

  /** What send does: some number of bytes, nothing yet, a signal, or an error. */
  datatype SendResult = Sent(n: nat) | SendBlocked | SendInterrupted | SendFailed

  datatype Write = Write(conn: Conn, delivered: seq<byte>)

  /** conn_writable */
  function Writable(c: Conn, script: seq<SendResult>): (w: Write)
    requires c.Valid()
    ensures w.conn.Valid()
    decreases |script|
  {
    if c.sent == |c.out| then Write(c.(out := [], sent := 0), [])
    else if script == [] then Write(c, [])
    else match script[0]
    case SendBlocked => Write(c, [])
    case SendInterrupted => Writable(c, script[1..])
    case SendFailed => Write(c.(closing := true), [])
    case Sent(n) =>
      if n == 0 then Write(c.(closing := true), [])
      else
        var k := if n < |c.out| - c.sent then n else |c.out| - c.sent;
        var later := Writable(c.(sent := c.sent + k), script[1..]);
        Write(later.conn, c.out[c.sent..c.sent + k] + later.delivered)
  }

  // ---------- what reaches the output buffer ----------

  /** `d` is `c` with `words` appended to the output exactly if they fit; the session is
      closing if it was, if it ends for another reason, and if they do not fit. */
  predicate Said(c: Conn, words: seq<byte>, ends: bool, d: Conn) {
    && d.sent == c.sent && |d.out| <= BUF_SIZE
    && (|c.out| + |words| <= BUF_SIZE <==> d.out == c.out + words)
    && (d.closing <==> c.closing || ends || |c.out| + |words| > BUF_SIZE)
  }

  lemma SaidThen(c: Conn, words: seq<byte>, ends: bool, next: Conn, more: seq<byte>, stops: bool, d: Conn)
    requires Said(c, words, ends, next) && Said(next, more, stops, d)
    ensures Said(c, words + more, ends || stops, d)
  {
    Assoc(c.out, words, more);
  }

  lemma SaidNothing(c: Conn, d: Conn, ends: bool)
    requires |c.out| <= BUF_SIZE && d.sent == c.sent && d.out == c.out && (d.closing <==> c.closing || ends)
    ensures Said(c, [], ends, d)
  {
    assert c.out + [] == c.out;
  }

  // ---------- the stream ----------

  /** A stream taken apart: the replies to its complete lines, up to a quit; what
      follows the last of them; and the number of the last line. */
  datatype Framed = Framed(echo: seq<byte>, rest: seq<byte>, lines: nat) {
    /** No complete line was a quit. */
    predicate NoQuit() { NEWLINE !in rest }

    predicate Full() { |rest| == BUF_SIZE }

    /** What ends the session after the replies: the answer to a quit, and to a line
        that fills the buffer. */
    function Farewell(say: Words): seq<byte> {
      (if NoQuit() then [] else say.bye) + (if Full() then say.tooLong else [])
    }
  }

  /** The replies are numbered from k + 1. */
  function Frame(say: Words, k: nat, stream: seq<byte>): Framed
    decreases |stream|
  {
    var nl := NewlineAt(stream);
    if nl == |stream| || stream[..nl] == say.quit then Framed([], stream, k)
    else
      var later := Frame(say, k + 1, stream[nl + 1..]);
      Framed(say.echo(k + 1, stream[..nl]) + later.echo, later.rest, later.lines)
  }

  /** The two ends of a stream: no complete line, or a quit. */
  lemma FrameEnd(say: Words, k: nat, stream: seq<byte>)
    requires NewlineAt(stream) == |stream| || stream[..NewlineAt(stream)] == say.quit
    ensures Frame(say, k, stream) == Framed([], stream, k)
    ensures Frame(say, k, stream).NoQuit() <==> NewlineAt(stream) == |stream|
  {
    FirstAtFound(stream, NEWLINE);
  }

  /** Input that comes later is echoed after what came before. */
  lemma {:induction false} FrameAppend(say: Words, k: nat, stream: seq<byte>, more: seq<byte>)
    requires Frame(say, k, stream).NoQuit()
    ensures Frame(say, k, stream + more) == Continued(say, Frame(say, k, stream), more)
    decreases |stream|
  {
    var nl := NewlineAt(stream);
    if nl == |stream| || stream[..nl] == say.quit {
      FrameEnd(say, k, stream);
      var all := Frame(say, k, stream + more);
      assert [] + all.echo == all.echo;
    } else {
      SameFirstLine(stream, more);
      FrameAppend(say, k + 1, stream[nl + 1..], more);
      OneMoreLine(say, say.echo(k + 1, stream[..nl]), Frame(say, k + 1, stream[nl + 1..]), more);
    }
  }

  /** A framing carried on over more input. */
  function Continued(say: Words, f: Framed, more: seq<byte>): Framed {
    var g := Frame(say, f.lines, f.rest + more);
    Framed(f.echo + g.echo, g.rest, g.lines)
  }

  lemma OneMoreLine(say: Words, words: seq<byte>, later: Framed, more: seq<byte>)
    ensures var g := Continued(say, later, more);
            Continued(say, later.(echo := words + later.echo), more) == Framed(words + g.echo, g.rest, g.lines)
  {
    Assoc(words, later.echo, Frame(say, later.lines, later.rest + more).echo);
  }

  lemma SameFirstLine(stream: seq<byte>, more: seq<byte>)
    requires NewlineAt(stream) < |stream|
    ensures var nl := NewlineAt(stream);
            && NewlineAt(stream + more) == nl
            && (stream + more)[..nl] == stream[..nl]
            && (stream + more)[nl + 1..] == stream[nl + 1..] + more
  {
    FirstAtFound(stream, NEWLINE);
    assert (stream + more)[..NewlineAt(stream)] == stream[..NewlineAt(stream)];
    FirstAtUnique(stream + more, NEWLINE, NewlineAt(stream));
  }

  // ---------- what conn_process_input does ----------

  /** The replies to the complete lines are appended whole and in order, and `in` keeps
      what follows them: the newline-free remainder, or the quit line and all after it.
      The session ends on a quit, on a line that fills the buffer, and on replies that
      do not fit, and only then; the framing does not depend on the output. */
  predicate Echoes(say: Words, c: Conn, d: Conn) {
    var f := Frame(say, c.lines, c.inp);
    && d.inp == f.rest
    && d.lines == f.lines + (if f.NoQuit() then 0 else 1)
    && Said(c, f.echo + f.Farewell(say), !f.NoQuit() || f.Full(), d)
  }

  /** The tail of conn_process_input. */
  lemma TailSaid(say: Words, c: Conn)
    requires c.Valid()
    ensures Said(c, if |c.inp| == BUF_SIZE then say.tooLong else [], |c.inp| == BUF_SIZE, AfterLines(say, c))
  {
    if |c.inp| != BUF_SIZE { SaidNothing(c, c, false); }
  }

  /** No complete line, or no more of them. */
  lemma NoLine(say: Words, c: Conn)
    requires c.Valid() && NewlineAt(c.inp) == |c.inp|
    ensures Echoes(say, c, Process(say, c))
  {
    FrameEnd(say, c.lines, c.inp);
    TailSaid(say, c);
    var full := if |c.inp| == BUF_SIZE then say.tooLong else [];
    assert [] + full == full;
  }

  lemma QuitLine(say: Words, c: Conn)
    requires c.Valid() && NewlineAt(c.inp) < |c.inp| && c.inp[..NewlineAt(c.inp)] == say.quit
    ensures Echoes(say, c, Process(say, c))
  {
    FrameEnd(say, c.lines, c.inp);
    var next := Queue(c.(lines := c.lines + 1), say.bye).(closing := true);
    var full := if |c.inp| == BUF_SIZE then say.tooLong else [];
    TailSaid(say, next);
    SaidThen(c, say.bye, true, next, full, |c.inp| == BUF_SIZE, Process(say, c));
    assert [] + (say.bye + full) == say.bye + full;
  }

  lemma OneReply(say: Words, c: Conn, next: Conn, d: Conn)
    requires c.Valid() && NewlineAt(c.inp) < |c.inp| && !QuitNext(say, c) && next == OneLine(say, c)
    requires Echoes(say, next, d)
    ensures Echoes(say, c, d)
  {
    var words := say.echo(c.lines + 1, c.inp[..NewlineAt(c.inp)]);
    var g := Frame(say, next.lines, next.inp);
    SaidThen(c, words, false, next, g.echo + g.Farewell(say), !g.NoQuit() || g.Full(), d);
    Assoc(words, g.echo, g.Farewell(say));
  }

  lemma {:induction false} ProcessEchoes(say: Words, c: Conn)
    requires c.Valid()
    ensures Echoes(say, c, Process(say, c))
    decreases |c.inp|
  {
    if NewlineAt(c.inp) == |c.inp| {
      NoLine(say, c);
    } else if QuitNext(say, c) {
      QuitLine(say, c);
    } else {
      ProcessEchoes(say, OneLine(say, c));
      OneReply(say, c, OneLine(say, c), Process(say, c));
    }
  }

  // ---------- however the stream arrives ----------

  /** The connection is where the whole stream so far puts it: everything delivered
      and pending is the greeting and the echo of every complete line received, and
      `in` holds the rest. */
  predicate InStep(say: Words, c: Conn, received: seq<byte>, delivered: seq<byte>)
    requires c.Valid()
  {
    var f := Frame(say, 0, received);
    && f.NoQuit()
    && c.inp == f.rest && |c.inp| < BUF_SIZE
    && c.lines == f.lines
    && delivered + c.Pending() == say.greeting + f.echo
  }

  /** Until the session is closing. */
  predicate Faithful(say: Words, c: Conn, received: seq<byte>, delivered: seq<byte>)
    requires c.Valid()
  {
    c.closing || InStep(say, c, received, delivered)
  }

  lemma SaidPending(c: Conn, words: seq<byte>, ends: bool, d: Conn, delivered: seq<byte>)
    requires c.Valid() && d.Valid() && Said(c, words, ends, d) && |c.out| + |words| <= BUF_SIZE
    ensures delivered + d.Pending() == delivered + c.Pending() + words
  {
    assert (c.out + words)[c.sent..] == c.out[c.sent..] + words;
    Assoc(delivered, c.Pending(), words);
  }

  /** One processed chunk. The connection closes exactly on a quit, on a line that fills
      the buffer, and on replies that do not fit; exactly if they fit, everything said is
      the greeting, the echoes and the farewell. */
  lemma ProcessInStep(say: Words, c: Conn, received: seq<byte>, delivered: seq<byte>, more: seq<byte>)
    requires c.Valid() && !c.closing && InStep(say, c, received, delivered) && |c.inp| + |more| <= BUF_SIZE
    ensures var d, f := Process(say, c.(inp := c.inp + more)), Frame(say, 0, received + more);
            var fits := |c.out| + |Frame(say, c.lines, c.inp + more).echo + f.Farewell(say)| <= BUF_SIZE;
            && d.inp == f.rest
            && (d.closing <==> !f.NoQuit() || f.Full() || !fits)
            && (f.NoQuit() ==> d.lines == f.lines)
            && (fits <==> delivered + d.Pending() == say.greeting + f.echo + f.Farewell(say))
  {
    var b := c.(inp := c.inp + more);
    var before, g := Frame(say, 0, received), Frame(say, c.lines, c.inp + more);
    var words := g.echo + g.Farewell(say);
    FrameAppend(say, 0, received, more);
    ProcessEchoes(say, b);
    Assoc(say.greeting + before.echo, g.echo, g.Farewell(say));
    Assoc(say.greeting, before.echo, g.echo);
    if |c.out| + |words| <= BUF_SIZE {
      SaidPending(b, words, !g.NoQuit() || g.Full(), Process(say, b), delivered);
    } else {
      assert |delivered + Process(say, b).Pending()| < |delivered + c.Pending()| + |words|;
    }
  }

  lemma ProcessFaithful(say: Words, c: Conn, received: seq<byte>, delivered: seq<byte>, more: seq<byte>)
    requires c.Valid() && !c.closing && InStep(say, c, received, delivered) && |c.inp| + |more| <= BUF_SIZE
    ensures Faithful(say, Process(say, c.(inp := c.inp + more)), received + more, delivered)
  {
    ProcessInStep(say, c, received, delivered, more);
    var f := Frame(say, 0, received + more);
    if f.NoQuit() && !f.Full() {
      assert f.Farewell(say) == [];
      assert say.greeting + f.echo + [] == say.greeting + f.echo;
    }
  }

  lemma {:induction false} ReadableStaysClosing(say: Words, c: Conn, script: seq<RecvResult>)
    requires c.Valid() && c.closing
    ensures Readable(say, c, script).conn.closing
    decreases ScriptSize(script)
  {
    if |c.inp| < BUF_SIZE && script != [] && script[0].Interrupted? {
      ReadableStaysClosing(say, c, script[1..]);
    }
  }

  lemma {:induction false} ReadableFaithful(say: Words, c: Conn, received: seq<byte>, delivered: seq<byte>,
                                            script: seq<RecvResult>)
    requires c.Valid() && !c.closing && InStep(say, c, received, delivered)
    ensures var r := Readable(say, c, script); Faithful(say, r.conn, received + r.taken, delivered)
    decreases ScriptSize(script)
  {
    assert received + [] == received;
    if script != [] {
      match script[0]
      case NothingYet =>
      case Failed =>
      case Interrupted => ReadableFaithful(say, c, received, delivered, script[1..]);
      case Bytes(chunk) =>
        if chunk != [] { ReadFaithful(say, c, received, delivered, script); }
    }
  }

  lemma {:induction false} ReadFaithful(say: Words, c: Conn, received: seq<byte>, delivered: seq<byte>,
                                        script: seq<RecvResult>)
    requires c.Valid() && !c.closing && InStep(say, c, received, delivered)
    requires script != [] && script[0].Bytes? && script[0].chunk != []
    ensures var r := Readable(say, c, script); Faithful(say, r.conn, received + r.taken, delivered)
    decreases ScriptSize(script), 0
  {
    var chunk := script[0].chunk;
    var n := Room(c, chunk);
    var next, rest := Process(say, c.(inp := c.inp + chunk[..n])), Remaining(script, n);
    ProcessFaithful(say, c, received, delivered, chunk[..n]);
    if !next.closing {
      ReadableFaithful(say, next, received + chunk[..n], delivered, rest);
      Assoc(received, chunk[..n], Readable(say, next, rest).taken);
    }
  }

  /** Sending moves bytes from the pending ones to the delivered ones, and changes nothing
      else but that it may close. */
  lemma {:induction false} WritableKeeps(c: Conn, script: seq<SendResult>)
    requires c.Valid()
    ensures var w := Writable(c, script);
            && w.delivered + w.conn.Pending() == c.Pending()
            && w.conn.inp == c.inp && w.conn.lines == c.lines && (c.closing ==> w.conn.closing)
    decreases |script|
  {
    assert [] + c.Pending() == c.Pending();
    if c.sent < |c.out| && script != [] {
      if script[0].SendInterrupted? {
        WritableKeeps(c, script[1..]);
      } else if script[0].Sent? && script[0].n > 0 {
        var k := if script[0].n < |c.out| - c.sent then script[0].n else |c.out| - c.sent;
        var sent, next := c.out[c.sent..c.sent + k], c.(sent := c.sent + k);
        assert c.Pending() == sent + next.Pending();
        WritableKeeps(next, script[1..]);
        Assoc(sent, Writable(next, script[1..]).delivered, Writable(next, script[1..]).conn.Pending());
      }
    }
  }

  lemma WritableFaithful(say: Words, c: Conn, received: seq<byte>, delivered: seq<byte>, script: seq<SendResult>)
    requires c.Valid() && Faithful(say, c, received, delivered)
    ensures var w := Writable(c, script); Faithful(say, w.conn, received, delivered + w.delivered)
  {
    var w := Writable(c, script);
    WritableKeeps(c, script);
    Assoc(delivered, w.delivered, w.conn.Pending());
  }

  // ---------- whole sessions ----------

  /** What the event loop asks of a connection, with what the socket answers. */
  datatype Turn = ReadTurn(recvs: seq<RecvResult>) | WriteTurn(sends: seq<SendResult>)

  datatype Session = Session(conn: Conn, received: seq<byte>, delivered: seq<byte>)

  /** A connection just accepted: calloc, then the greeting. */
  function Accepted(say: Words): (c: Conn)
    ensures c.Valid()
  {
    Queue(Conn([], [], 0, 0, false), say.greeting)
  }

  function Take(say: Words, s: Session, turn: Turn): (t: Session)
    requires s.conn.Valid()
    ensures t.conn.Valid()
  {
    match turn
    case ReadTurn(recvs) =>
      var r := Readable(say, s.conn, recvs);
      Session(r.conn, s.received + r.taken, s.delivered)
    case WriteTurn(sends) =>
      var w := Writable(s.conn, sends);
      Session(w.conn, s.received, s.delivered + w.delivered)
  }

  function After(say: Words, turns: seq<Turn>): (s: Session)
    ensures s.conn.Valid()
  {
    if turns == [] then Session(Accepted(say), [], [])
    else Take(say, After(say, turns[..|turns| - 1]), turns[|turns| - 1])
  }

  /** Every session, however recv splits the input, however little send takes, and with
      whatever interruptions: until it is closing, the bytes delivered and pending are
      the greeting and the echo of every complete line received, and `in` holds the
      unfinished line, shorter than the buffer. */
  lemma {:induction false} SessionFaithful(say: Words, turns: seq<Turn>)
    requires |say.greeting| <= BUF_SIZE
    ensures var s := After(say, turns); Faithful(say, s.conn, s.received, s.delivered)
  {
    if turns == [] {
      assert [] + Accepted(say).Pending() == say.greeting + [];
    } else {
      var s, turn := After(say, turns[..|turns| - 1]), turns[|turns| - 1];
      SessionFaithful(say, turns[..|turns| - 1]);
      match turn
      case WriteTurn(sends) => WritableFaithful(say, s.conn, s.received, s.delivered, sends);
      case ReadTurn(recvs) =>
        if s.conn.closing {
          ReadableStaysClosing(say, s.conn, recvs);
        } else {
          ReadableFaithful(say, s.conn, s.received, s.delivered, recvs);
        }
    }
  }

  /** Two clients that sent the same bytes have been told the same, and will be. */
  lemma ChunkingDoesNotMatter(say: Words, turns: seq<Turn>, others: seq<Turn>)
    requires |say.greeting| <= BUF_SIZE
    requires var s, t := After(say, turns), After(say, others);
             s.received == t.received && !s.conn.closing && !t.conn.closing
    ensures var s, t := After(say, turns), After(say, others);
            && s.delivered + s.conn.Pending() == t.delivered + t.conn.Pending()
            && s.conn.inp == t.conn.inp && s.conn.lines == t.conn.lines
  {
    SessionFaithful(say, turns);
    SessionFaithful(say, others);
  }

  // ---------- the reply of exactly BUF_SIZE bytes ----------

  /** The echo of a line is its text except when the text has BUF_SIZE bytes: snprintf
      then cuts its last byte, and conn_queue sends the terminator in its place. */
  lemma CutExactlyAtBufSize(k: nat, line: seq<byte>)
    ensures EchoLine(k, line) == ReplyText(k, line)
       <==> |Decimal(k)| + |UpToNul(line)| + 3 != BUF_SIZE
  {
    var text := ReplyText(k, line);
    assert text[|text| - 1] == NEWLINE;
    if |text| == BUF_SIZE {
      assert Wire(text)[BUF_SIZE - 1] == NUL;
    }
  }

  /** Such a reply goes out only if the output buffer is empty; else the session closes. */
  lemma CutReplyNeedsRoom(c: Conn, k: nat, line: seq<byte>)
    requires c.Valid() && EchoLine(k, line) != ReplyText(k, line)
    ensures Queue(c, EchoLine(k, line)).closing <==> c.closing || c.out != []
  {
    CutExactlyAtBufSize(k, line);
  }

  /** One send that takes all there is. */
  lemma Drained(c: Conn, n: nat)
    requires c.Valid() && c.sent < |c.out| && n == |c.out| - c.sent
    ensures Writable(c, [Sent(n)]) == Write(c.(out := [], sent := 0), c.Pending())
  {
    assert c.out[c.sent..c.sent + n] + [] == c.Pending();
  }

  lemma OneTurnMore(say: Words, turns: seq<Turn>, turn: Turn)
    ensures After(say, turns + [turn]) == Take(say, After(say, turns), turn)
  {
    assert (turns + [turn])[..|turns|] == turns;
  }

  lemma GreetingTaken(say: Words)
    requires 0 < |say.greeting| <= BUF_SIZE
    ensures After(say, [WriteTurn([Sent(|say.greeting|)])]) == Session(Conn([], [], 0, 0, false), [], say.greeting)
  {
    var turn := WriteTurn([Sent(|say.greeting|)]);
    assert [] + say.greeting == say.greeting;
    assert Accepted(say) == Conn([], say.greeting, 0, 0, false);
    OneTurnMore(say, [], turn);
    assert [] + [turn] == [turn];
    Drained(Accepted(say), |say.greeting|);
    assert Accepted(say).Pending() == say.greeting;
  }

  /** The first line of the input is answered and taken off. */
  lemma FirstLine(say: Words, c: Conn, line: seq<byte>, tail: seq<byte>)
    requires c.Valid() && c.inp == line + [NEWLINE] + tail && NEWLINE !in line && line != say.quit
    ensures NewlineAt(c.inp) < |c.inp| && !QuitNext(say, c)
    ensures OneLine(say, c) == Queue(c.(lines := c.lines + 1), say.echo(c.lines + 1, line)).(inp := tail)
  {
    assert c.inp[..|line|] == line && c.inp[|line| + 1..] == tail;
    FirstAtUnique(c.inp, NEWLINE, |line|);
  }

  /** One recv that brings a chunk, on an empty input buffer. */
  lemma ChunkRead(say: Words, c: Conn, chunk: seq<byte>)
    requires c.Valid() && c.inp == [] && 0 < |chunk| < BUF_SIZE
    ensures Readable(say, c, [Bytes(chunk)]) == Read(Process(say, c.(inp := chunk)), chunk)
  {
    assert [] + chunk == chunk && chunk[..|chunk|] == chunk && chunk + [] == chunk;
  }

  /** One recv that brings one line. */
  lemma LineRead(say: Words, c: Conn, line: seq<byte>)
    requires c.Valid() && !c.closing && c.inp == [] && |line| + 1 < BUF_SIZE && NEWLINE !in line && line != say.quit
    ensures Readable(say, c, [Bytes(line + [NEWLINE])])
         == Read(Queue(c.(lines := c.lines + 1), say.echo(c.lines + 1, line)), line + [NEWLINE])
  {
    var full := c.(inp := line + [NEWLINE]);
    assert full.inp + [] == full.inp;
    FirstLine(say, full, line, []);
    ChunkRead(say, c, full.inp);
    assert Process(say, full) == OneLine(say, full);
  }

  function Letters(n: nat): (s: seq<byte>)
    ensures |s| == n && NEWLINE !in s && UpToNul(s) == s
  {
    var s: seq<byte> := seq(n, _ => 65);
    assert s[..n] == s;
    UpToNulUnique(s, n);
    s
  }

  const LONG_LINE: seq<byte> := Letters(4092)

  lemma LongReply()
    ensures UpToNul(LONG_LINE) == LONG_LINE && |ReplyText(1, LONG_LINE)| == BUF_SIZE
    ensures EchoLine(1, LONG_LINE) == ReplyText(1, LONG_LINE)[..BUF_SIZE - 1] + [NUL]
  {
  }

  /** It happens: a client takes the greeting and sends a line of 4092 bytes. The server
      goes on, and what it will send has a NUL for its newline. */
  lemma CutReplySent()
    ensures var s := After(SERVER, [WriteTurn([Sent(6)]), ReadTurn([Bytes(LONG_LINE + [NEWLINE])])]);
            && !s.conn.closing && s.received == LONG_LINE + [NEWLINE] && s.delivered == SERVER.greeting
            && s.conn.Pending() == ReplyText(1, LONG_LINE)[..BUF_SIZE - 1] + [NUL]
            && ReplyText(1, LONG_LINE)[BUF_SIZE - 1] == NEWLINE
  {
    var first, second := WriteTurn([Sent(6)]), ReadTurn([Bytes(LONG_LINE + [NEWLINE])]);
    GreetingTaken(SERVER);
    OneTurnMore(SERVER, [first], second);
    assert [first] + [second] == [first, second];
    LongReply();
    LineRead(SERVER, Conn([], [], 0, 0, false), LONG_LINE);
  }
}
