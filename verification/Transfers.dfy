/** What recv and send can do to a connection of evserver.c, whatever they answer and in
    whatever pieces: exactly which bytes go in and out, and when the connection closes. */
module Transfers {
  import opened Bytes
  import opened ConnectionSpec

  // ---------- reading ----------

  /** How a sequence of recv results stops delivering bytes: for now, by the peer's
      orderly close, or by an error. */
  datatype Ending = Dry | PeerClosed | Broken

  function EndOf(script: seq<RecvResult>): Ending {
    if script == [] then Dry
    else match script[0]
    case NothingYet => Dry
    case Failed => Broken
    case Interrupted => EndOf(script[1..])
    case Bytes(chunk) => if chunk == [] then PeerClosed else EndOf(script[1..])
  }

  /** The bytes it delivers before. */
  function Incoming(script: seq<RecvResult>): seq<byte> {
    if script == [] then []
    else match script[0]
    case NothingYet => []
    case Failed => []
    case Interrupted => Incoming(script[1..])
    case Bytes(chunk) => if chunk == [] then [] else chunk + Incoming(script[1..])
  }

  lemma RemainingIncoming(script: seq<RecvResult>, n: nat)
    requires script != [] && script[0].Bytes? && 0 < n <= |script[0].chunk|
    ensures Incoming(script) == script[0].chunk[..n] + Incoming(Remaining(script, n))
    ensures EndOf(Remaining(script, n)) == EndOf(script)
  {
    var chunk := script[0].chunk;
    if n < |chunk| {
      var rest := Remaining(script, n);
      assert rest[1..] == script[1..] && rest[0] == RecvResult.Bytes(chunk[n..]);
      assert chunk == chunk[..n] + chunk[n..];
      Assoc(chunk[..n], chunk[n..], Incoming(script[1..]));
    } else {
      assert chunk[..n] == chunk;
    }
  }

  /** What the input taken in makes the connection say fits its output buffer. */
  predicate Fits(say: Words, c: Conn, f: Framed) { |c.out| + |f.echo + f.Farewell(say)| <= BUF_SIZE }

  /** The input itself ends the session: a quit, a line that fills the buffer, or replies
      that do not fit. */
  predicate Stops(say: Words, c: Conn, f: Framed) { !f.NoQuit() || f.Full() || !Fits(say, c, f) }

  /** The result of reading from an open connection, by its framing f of what it had and
      has taken in. */
  predicate ReadOutcome(say: Words, c: Conn, script: seq<RecvResult>, r: Read, f: Framed) {
    && r.taken <= Incoming(script)
    && r.conn.inp == f.rest && r.conn.sent == c.sent <= |c.out|
    && if Stops(say, c, f) then
         r.conn.closing && (Fits(say, c, f) ==> r.conn.out == c.out + (f.echo + f.Farewell(say)))
       else
         && r.taken == Incoming(script) && r.conn.lines == f.lines
         && (r.conn.closing <==> EndOf(script) != Dry)
         && r.conn.out == if EndOf(script) == PeerClosed then c.out[..c.sent] else c.out + f.echo
  }

  /** No recv delivers a byte. */
  lemma NothingRead(say: Words, c: Conn, script: seq<RecvResult>, r: Read)
    requires c.Valid() && !c.closing && NEWLINE !in c.inp && |c.inp| < BUF_SIZE
    requires Incoming(script) == [] == r.taken && r.conn.inp == c.inp && r.conn.sent == c.sent
    requires r.conn.lines == c.lines && (r.conn.closing <==> EndOf(script) != Dry)
    requires r.conn.out == if EndOf(script) == PeerClosed then c.out[..c.sent] else c.out
    ensures ReadOutcome(say, c, script, r, Frame(say, c.lines, c.inp + r.taken))
  {
    assert c.inp + [] == c.inp && c.out + [] == c.out;
    FirstAtFound(c.inp, NEWLINE);
    FrameEnd(say, c.lines, c.inp);
  }

  /** The framing carried on, and what it says after what has been said. */
  lemma ReadFurther(say: Words, c: Conn, f: Framed, next: Conn, g: Framed)
    requires c.Valid() && next.Valid() && f.NoQuit() && !f.Full() && next.out == c.out + f.echo
    ensures var all := Framed(f.echo + g.echo, g.rest, g.lines);
            && (Stops(say, c, all) <==> Stops(say, next, g)) && (Fits(say, c, all) <==> Fits(say, next, g))
            && next.out + (g.echo + g.Farewell(say)) == c.out + (all.echo + all.Farewell(say))
            && next.out + g.echo == c.out + all.echo
  {
    var all := Framed(f.echo + g.echo, g.rest, g.lines);
    assert all.Farewell(say) == g.Farewell(say);
    assert next.out + (g.echo + g.Farewell(say)) == c.out + (all.echo + all.Farewell(say));
  }

  lemma OutcomeFurther(say: Words, c: Conn, script: seq<RecvResult>, chunk: seq<byte>, next: Conn,
                       rest: seq<RecvResult>, later: Read)
    requires c.Valid() && next.Valid() && NEWLINE !in c.inp && next.sent == c.sent
    requires Incoming(script) == chunk + Incoming(rest) && EndOf(script) == EndOf(rest)
    requires var f := Frame(say, c.lines, c.inp + chunk);
             f.NoQuit() && !f.Full() && next.inp == f.rest && next.lines == f.lines && next.out == c.out + f.echo
    requires ReadOutcome(say, next, rest, later, Frame(say, next.lines, next.inp + later.taken))
    ensures ReadOutcome(say, c, script, Read(later.conn, chunk + later.taken),
                        Frame(say, c.lines, c.inp + (chunk + later.taken)))
  {
    var f, g := Frame(say, c.lines, c.inp + chunk), Frame(say, next.lines, next.inp + later.taken);
    Assoc(c.inp, chunk, later.taken);
    FrameAppend(say, c.lines, c.inp + chunk, later.taken);
    ReadFurther(say, c, f, next, g);
    assert next.out[..c.sent] == c.out[..c.sent];
    PrefixAfter(chunk, later.taken, Incoming(rest));
  }

  lemma PrefixAfter(a: seq<byte>, b: seq<byte>, c: seq<byte>)
    requires b <= c
    ensures a + b <= a + c
  {
  }

  /** For every sequence of recv results: the bytes an open connection takes in are those
      delivered, in order. Unless the input itself ends the session it takes in all of
      them, answers every complete line, and is closing exactly if the peer has closed or
      the socket has failed; the peer's close discards what was not yet sent. */
  lemma {:induction false} ReadableExact(say: Words, c: Conn, script: seq<RecvResult>)
    requires c.Valid() && !c.closing && NEWLINE !in c.inp && |c.inp| < BUF_SIZE
    ensures var r := Readable(say, c, script);
            ReadOutcome(say, c, script, r, Frame(say, c.lines, c.inp + r.taken))
    decreases ScriptSize(script)
  {
    var r := Readable(say, c, script);
    if script != [] && script[0].Interrupted? {
      ReadableExact(say, c, script[1..]);
    } else if script != [] && script[0].Bytes? && script[0].chunk != [] {
      ChunkThenRest(say, c, script);
    } else {
      NothingRead(say, c, script, r);
    }
  }

  lemma {:induction false} ChunkThenRest(say: Words, c: Conn, script: seq<RecvResult>)
    requires c.Valid() && !c.closing && NEWLINE !in c.inp && |c.inp| < BUF_SIZE
    requires script != [] && script[0].Bytes? && script[0].chunk != []
    ensures var r := Readable(say, c, script);
            ReadOutcome(say, c, script, r, Frame(say, c.lines, c.inp + r.taken))
    decreases ScriptSize(script), 0
  {
    var n := Room(c, script[0].chunk);
    var chunk, rest := script[0].chunk[..n], Remaining(script, n);
    var full := c.(inp := c.inp + chunk);
    var next, f := Process(say, full), Frame(say, c.lines, c.inp + chunk);
    RemainingIncoming(script, n);
    ProcessEchoes(say, full);
    if next.closing {
      assert Stops(say, c, f);
    } else {
      ReadableExact(say, next, rest);
      OutcomeFurther(say, c, script, chunk, next, rest, Readable(say, next, rest));
    }
  }

  // ---------- writing ----------

  /** How many bytes a sequence of send results takes before it stops. */
  function Accepts(script: seq<SendResult>): nat {
    if script == [] then 0
    else match script[0]
    case SendInterrupted => Accepts(script[1..])
    case Sent(n) => if n == 0 then 0 else n + Accepts(script[1..])
    case _ => 0
  }

  /** It stops for good. */
  predicate BreaksOff(script: seq<SendResult>) {
    script != [] && match script[0]
    case SendInterrupted => BreaksOff(script[1..])
    case Sent(n) => n == 0 || BreaksOff(script[1..])
    case SendFailed => true
    case SendBlocked => false
  }

  function Least(m: nat, n: nat): nat { if m < n then m else n }

  /** The result of a write that takes n of the bytes from place `sent` on. */
  predicate WriteOutcome(c: Conn, n: nat, breaks: bool, w: Write)
    requires c.Valid() && c.sent + n <= |c.out|
  {
    var all := c.sent + n == |c.out|;
    && w.delivered == c.out[c.sent..c.sent + n]
    && w.conn == Conn(c.inp, if all then [] else c.out, if all then 0 else c.sent + n, c.lines,
                      c.closing || (!all && breaks))
  }

  lemma {:induction false} WriteSteps(c: Conn, script: seq<SendResult>)
    requires c.Valid()
    ensures WriteOutcome(c, Least(Accepts(script), |c.out| - c.sent), BreaksOff(script), Writable(c, script))
    decreases |script|
  {
    if c.sent < |c.out| && script != [] {
      match script[0]
      case SendInterrupted => WriteSteps(c, script[1..]);
      case Sent(n) => if n > 0 { SentThenRest(c, script, n); }
      case _ =>
    }
  }

  lemma {:induction false} SentThenRest(c: Conn, script: seq<SendResult>, n: nat)
    requires c.Valid() && c.sent < |c.out| && script != [] && script[0] == Sent(n) && n > 0
    ensures WriteOutcome(c, Least(Accepts(script), |c.out| - c.sent), BreaksOff(script), Writable(c, script))
    decreases |script|, 0
  {
    var k := Least(n, |c.out| - c.sent);
    var next := c.(sent := c.sent + k);
    WriteSteps(next, script[1..]);
    var later := Writable(next, script[1..]);
    TakenInTwo(n, Accepts(script[1..]), |c.out| - c.sent);
    OutcomeOfTwo(c, k, Least(Accepts(script[1..]), |c.out| - next.sent), BreaksOff(script[1..]), later);
    assert Writable(c, script) == Write(later.conn, c.out[c.sent..c.sent + k] + later.delivered);
  }

  lemma TakenInTwo(n: nat, more: nat, left: nat)
    ensures Least(n + more, left) == Least(n, left) + Least(more, left - Least(n, left))
  {
  }

  /** k bytes, and then m more. */
  lemma OutcomeOfTwo(c: Conn, k: nat, m: nat, breaks: bool, later: Write)
    requires c.Valid() && c.sent + k + m <= |c.out| && WriteOutcome(c.(sent := c.sent + k), m, breaks, later)
    ensures WriteOutcome(c, k + m, breaks, Write(later.conn, c.out[c.sent..c.sent + k] + later.delivered))
  {
    assert c.out[c.sent..c.sent + k] + c.out[c.sent + k..c.sent + k + m] == c.out[c.sent..c.sent + (k + m)];
  }

  /** For every sequence of send results: as many of the pending bytes as it takes are
      delivered, from the front; the rest stays pending, and the connection is closing if
      it was or if the socket gave up before the end. A drained buffer starts afresh. */
  lemma WritableExact(c: Conn, script: seq<SendResult>)
    requires c.Valid()
    ensures var w, n := Writable(c, script), Least(Accepts(script), |c.Pending()|);
            && w.delivered == c.Pending()[..n] && w.conn.Pending() == c.Pending()[n..]
            && w.conn.inp == c.inp && w.conn.lines == c.lines
            && (w.conn.closing <==> c.closing || (n < |c.Pending()| && BreaksOff(script)))
            && w.conn.out == if n < |c.Pending()| then c.out else []
  {
    WriteSteps(c, script);
  }
}
