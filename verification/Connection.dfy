/** The Connection struct of evserver.c and the functions that change it. Each method
    is the function of the same part of ConnectionSpec, in place. */
module Connection {
  import opened Bytes
  import opened ConnectionSpec

  class Connection {
    const fd: nat
    /** The words of the protocol: SERVER. */
    const say: Words
    const input: array<byte>
    var inUsed: nat
    const output: array<byte>
    var outUsed: nat
    var outSent: nat
    var lines: nat
    var lastActive: int
    var closing: bool

    /** Every byte recv has handed over, and every byte send has accepted. */
    ghost var received: seq<byte>
    ghost var delivered: seq<byte>

    ghost predicate Valid()
      reads this
    {
      && input != output
      && input.Length == BUF_SIZE && inUsed <= BUF_SIZE
      && output.Length == BUF_SIZE && outSent <= outUsed <= BUF_SIZE
    }

    ghost function View(): (c: Conn)
      requires Valid()
      reads this, input, output
      ensures c.Valid()
    {
      Conn(input[..inUsed], output[..outUsed], outSent, lines, closing)
    }

    /** The connection with its input taken from `start` on. */
    ghost function From(start: nat): (c: Conn)
      requires Valid() && start <= inUsed
      reads this, input, output
      ensures c.Valid()
    {
      View().(inp := input[start..inUsed])
    }

    /** calloc and accept_new up to the registration. */
    constructor (fd: nat, now: int)
      ensures Valid() && fresh(input) && fresh(output)
      ensures this.fd == fd && say == SERVER && lastActive == now
      ensures View() == Conn([], [], 0, 0, false) && received == [] && delivered == []
    {
      this.fd, say := fd, SERVER;
      input, output := new byte[BUF_SIZE](_ => 0), new byte[BUF_SIZE](_ => 0);
      inUsed, outUsed, outSent, lines, closing, lastActive := 0, 0, 0, 0, false, now;
      received, delivered := [], [];
      new;
    }

    /** conn_queue */
    method QueueData(data: seq<byte>)
      requires Valid()
      modifies this`outUsed, this`closing, output
      ensures Valid() && View() == Queue(old(View()), data)
    {
      if outUsed + |data| > BUF_SIZE {
        closing := true;
        return;
      }
      for i := 0 to |data|
        invariant Valid() && outUsed == old(outUsed) && closing == old(closing)
        invariant output[..outUsed + i] == old(output[..outUsed]) + data[..i]
      {
        output[outUsed + i] := data[i];
        assert output[..outUsed + i + 1] == output[..outUsed + i] + [data[i]];
        Assoc(old(output[..outUsed]), data[..i], [data[i]]);
        assert data[..i] + [data[i]] == data[..i + 1];
      }
      assert data[..|data|] == data;
      outUsed := outUsed + |data|;
    }

    /** memchr for a newline in the unprocessed input. */
    method FindNewline(start: nat) returns (nl: nat)
      requires Valid() && start <= inUsed
      ensures nl == start + NewlineAt(From(start).inp) && From(start) == old(From(start))
    {
      nl := start;
      while nl < inUsed && input[nl] != NEWLINE
        invariant start <= nl <= inUsed && NEWLINE !in input[start..nl]
      {
        assert input[start..nl + 1] == input[start..nl] + [input[nl]];
        nl := nl + 1;
      }
      assert input[start..inUsed][..nl - start] == input[start..nl];
      FirstAtUnique(input[start..inUsed], NEWLINE, nl - start);
    }

    /** memmove of the unprocessed input to the front. */
    method KeepFrom(start: nat)
      requires Valid() && start <= inUsed
      modifies this`inUsed, input
      ensures Valid() && View() == old(From(start))
    {
      var leftover: nat := inUsed - start;
      for i := 0 to leftover
        invariant Valid() && inUsed == old(inUsed)
        invariant input[..i] == old(input[start..start + i])
        invariant input[i..] == old(input[i..])
      {
        assert input[start + i] == input[i..][start];
        input[i] := input[start + i];
        assert input[i + 1..] == old(input[i..])[1..];
      }
      inUsed := leftover;
    }

    /** The quit branch of conn_process_input. */
    method AnswerQuit()
      requires Valid()
      modifies this`outUsed, this`lines, this`closing, output
      ensures Valid() && View() == Queue(Counted(old(View())), say.bye).(closing := true)
    {
      lines := lines + 1;
      QueueData(say.bye);
      closing := true;
    }

    /** The other branch. */
    method AnswerEcho(start: nat, nl: nat)
      requires Valid() && start <= nl <= inUsed
      modifies this`outUsed, this`lines, this`closing, output
      ensures Valid()
      ensures View() == Queue(Counted(old(View())), say.echo(old(lines) + 1, input[start..nl]))
    {
      lines := lines + 1;
      QueueData(say.echo(lines, input[start..nl]));
    }

    /** The body of conn_process_input's loop, for the line that ends at nl. */
    method AnswerLine(start: nat, nl: nat) returns (quit: bool)
      requires Valid() && start <= nl < inUsed && nl == start + NewlineAt(From(start).inp)
      modifies this`outUsed, this`lines, this`closing, output
      ensures Valid() && quit == QuitNext(say, old(From(start)))
      ensures quit ==> From(start) == OneLine(say, old(From(start)))
      ensures !quit ==> From(nl + 1) == OneLine(say, old(From(start)))
    {
      ghost var c, v := From(start), View();
      assert c.inp[..nl - start] == input[start..nl] && c.inp[nl - start + 1..] == input[nl + 1..inUsed];
      quit := input[start..nl] == say.quit;
      if quit {
        AnswerQuit();
        assert From(start) == View().(inp := c.inp);
        LineAnswered(say, c, Counted(v), say.bye);
      } else {
        AnswerEcho(start, nl);
        assert From(nl + 1) == View().(inp := c.inp[nl - start + 1..]);
        LineAnswered(say, c, Counted(v), say.echo(c.lines + 1, c.inp[..nl - start]));
      }
    }

    /** The tail of conn_process_input. */
    method EndOfLines(start: nat)
      requires Valid() && start <= inUsed
      modifies this`inUsed, this`outUsed, this`closing, input, output
      ensures Valid() && View() == AfterLines(say, old(From(start)))
    {
      ghost var c := From(start);
      KeepFrom(start);
      assert View() == c && inUsed == |c.inp|;
      if inUsed == BUF_SIZE {
        QueueData(say.tooLong);
        closing := true;
      }
    }

    /** One turn of conn_process_input's loop: `goal` is what the rest has to come to. */
    method OneTurn(start: nat, nl: nat, ghost goal: Conn) returns (quit: bool, start': nat, nl': nat)
      requires Valid() && start <= nl < inUsed && nl == start + NewlineAt(From(start).inp)
      requires goal == Process(say, From(start))
      modifies this`outUsed, this`lines, this`closing, output
      ensures Valid() && start <= start' <= nl' <= inUsed
      ensures quit ==> goal == AfterLines(say, From(start'))
      ensures !quit ==> start < start' && nl' == start' + NewlineAt(From(start').inp)
      ensures !quit ==> goal == Process(say, From(start'))
    {
      ghost var c := From(start);
      TurnTowards(say, c, goal);
      quit := AnswerLine(start, nl);
      if quit { return true, start, nl; }
      start' := nl + 1;
      nl' := FindNewline(start');
      assert From(start') == OneLine(say, c);
    }

    /** conn_process_input */
    method ProcessInput()
      requires Valid()
      modifies this`inUsed, this`outUsed, this`lines, this`closing, input, output
      ensures Valid() && View() == Process(say, old(View()))
    {
      ghost var goal := Process(say, View());
      var start: nat, quit := 0, false;
      assert From(0) == View();
      var nl := FindNewline(start);
      while nl < inUsed && !quit
        invariant Valid() && start <= nl <= inUsed
        invariant !quit ==> nl == start + NewlineAt(From(start).inp) && goal == Process(say, From(start))
        invariant quit ==> goal == AfterLines(say, From(start))
        decreases inUsed - start, !quit
      {
        quit, start, nl := OneTurn(start, nl, goal);
      }
      EndOfLines(start);
    }

    /** What recv puts after the input already there. */
    method TakeIn(chunk: seq<byte>)
      requires Valid() && inUsed + |chunk| <= BUF_SIZE
      modifies this`inUsed, this`received, input
      ensures Valid() && received == old(received) + chunk
      ensures View() == old(View()).(inp := old(View()).inp + chunk)
    {
      for i := 0 to |chunk|
        invariant Valid() && inUsed == old(inUsed) && received == old(received)
        invariant input[..inUsed + i] == old(input[..inUsed]) + chunk[..i]
      {
        input[inUsed + i] := chunk[i];
        assert input[..inUsed + i + 1] == input[..inUsed + i] + [chunk[i]];
        Assoc(old(input[..inUsed]), chunk[..i], [chunk[i]]);
        assert chunk[..i] + [chunk[i]] == chunk[..i + 1];
      }
      assert chunk[..|chunk|] == chunk;
      inUsed, received := inUsed + |chunk|, received + chunk;
    }

    /** The body of conn_readable's loop for a recv that brings bytes. */
    method SomeBytes(chunk: seq<byte>, now: int)
      requires Valid() && inUsed + |chunk| <= BUF_SIZE
      modifies this`inUsed, this`outUsed, this`lines, this`lastActive, this`closing, this`received, input, output
      ensures Valid() && received == old(received) + chunk && lastActive == now
      ensures View() == Process(say, old(View()).(inp := old(View()).inp + chunk))
    {
      TakeIn(chunk);
      lastActive := now;
      ProcessInput();
    }

    /** The body of conn_readable's loop for recv results that bring no bytes. */
    method NoBytes(result: RecvResult) returns (done: bool)
      requires Valid() && (result.Bytes? ==> result.chunk == [])
      modifies this`outUsed, this`closing
      ensures Valid() && done == !result.Interrupted?
      ensures result.NothingYet? || result.Interrupted? ==> View() == old(View())
      ensures result.Failed? ==> View() == old(View()).(closing := true)
      ensures result.Bytes? ==> View() == old(View()).(closing := true, out := old(View()).out[..outSent])
    {
      match result
      case NothingYet => done := true;
      case Interrupted => done := false;
      case Failed => closing, done := true, true;
      case Bytes(_) =>
        assert output[..outUsed][..outSent] == output[..outSent];
        closing, outUsed, done := true, outSent, true;
    }

    /** One turn of conn_readable's loop: `taken` is what the loop has read so far, and
        `goal` what the whole of it has to come to. */
    method ReadTurn(rest: seq<RecvResult>, now: int, ghost taken: seq<byte>, ghost goal: Read)
      returns (done: bool, rest': seq<RecvResult>, ghost taken': seq<byte>)
      requires Valid() && inUsed < BUF_SIZE && rest != [] && Carries(goal, taken, Readable(say, View(), rest))
      modifies this`inUsed, this`outUsed, this`lines, this`lastActive, this`closing, this`received, input, output
      ensures Valid() && ScriptSize(rest') < ScriptSize(rest)
      ensures taken <= taken' && received == old(received) + taken'[|taken|..]
      ensures lastActive == if taken' == taken then old(lastActive) else now
      ensures if done then goal == Read(View(), taken') else Carries(goal, taken', Readable(say, View(), rest'))
    {
      taken', rest' := taken, rest[1..];
      assert taken + [] == taken;
      if rest[0].Bytes? && rest[0].chunk != [] {
        var chunk := rest[0].chunk;
        var n := if |chunk| <= BUF_SIZE - inUsed then |chunk| else BUF_SIZE - inUsed;
        ReadableBytes(say, View(), rest, taken, goal);
        SomeBytes(chunk[..n], now);
        taken', rest' := taken + chunk[..n], Remaining(rest, n);
        done := closing;
      } else {
        done := NoBytes(rest[0]);
      }
    }

    /** conn_readable. `now` is the time at the last recv that brings bytes; a script that
        runs out is a socket with nothing more to read. */
    method OnReadable(script: seq<RecvResult>, now: int)
      requires Valid()
      modifies this`inUsed, this`outUsed, this`lines, this`lastActive, this`closing, this`received, input, output
      ensures Valid()
      ensures var r := Readable(say, old(View()), script);
              View() == r.conn && received == old(received) + r.taken
      ensures lastActive == if received == old(received) then old(lastActive) else now
    {
      var rest, done := script, false;
      ghost var goal, taken := Readable(say, View(), script), [];
      while inUsed < BUF_SIZE && rest != [] && !done
        invariant Valid() && received == old(received) + taken
        invariant lastActive == if taken == [] then old(lastActive) else now
        invariant if done then goal == Read(View(), taken) else Carries(goal, taken, Readable(say, View(), rest))
        decreases ScriptSize(rest)
      {
        ghost var before := taken;
        done, rest, taken := ReadTurn(rest, now, taken, goal);
        Assoc(old(received), before, taken[|before|..]);
        assert before + taken[|before|..] == taken;
      }
    }

    /** One send that accepts k bytes. */
    method SendSome(k: nat, now: int)
      requires Valid() && outSent + k <= outUsed
      modifies this`outSent, this`lastActive, this`delivered
      ensures Valid() && lastActive == now
      ensures var c := old(View());
              && View() == c.(sent := c.sent + k)
              && delivered == old(delivered) + c.out[c.sent..c.sent + k]
    {
      delivered := delivered + output[..outUsed][outSent..outSent + k];
      outSent, lastActive := outSent + k, now;
    }

    /** What one result of send does. */
    method SendOnce(result: SendResult, now: int) returns (done: bool)
      requires Valid() && outSent < outUsed
      modifies this`outSent, this`lastActive, this`closing, this`delivered
      ensures Valid() && done == !(result.SendInterrupted? || Takes(result))
      ensures var c := old(View());
              && View() == (if Takes(result) then c.(sent := c.sent + Taken(c, result))
                            else if result.SendFailed? || result.Sent? then c.(closing := true) else c)
              && delivered == old(delivered) + c.out[c.sent..c.sent + Taken(c, result)]
      ensures lastActive == if Takes(result) then now else old(lastActive)
    {
      match result
      case SendBlocked => done := true;
      case SendInterrupted => done := false;
      case SendFailed => closing, done := true, true;
      case Sent(n) =>
        if n == 0 {
          closing, done := true, true;
        } else {
          SendSome(if n < outUsed - outSent then n else outUsed - outSent, now);
          done := false;
        }
    }

    /** One turn of conn_writable's loop. */
    method WriteTurn(rest: seq<SendResult>, now: int, ghost sent: seq<byte>, ghost goal: Write)
      returns (done: bool, ghost sent': seq<byte>)
      requires Valid() && outSent < outUsed && rest != [] && Sends(goal, sent, Writable(View(), rest))
      modifies this`outSent, this`lastActive, this`closing, this`delivered
      ensures Valid() && sent <= sent' && delivered == old(delivered) + sent'[|sent|..]
      ensures lastActive == if sent' == sent then old(lastActive) else now
      ensures if done then goal == Write(View(), sent') else Sends(goal, sent', Writable(View(), rest[1..]))
    {
      ghost var c := View();
      WritableOnce(c, rest, sent, goal);
      done := SendOnce(rest[0], now);
      sent' := sent + c.out[c.sent..c.sent + Taken(c, rest[0])];
    }

    /** conn_writable. `now` is the time at the last send that takes bytes; a script that
        runs out is a socket that takes no more. */
    method OnWritable(script: seq<SendResult>, now: int)
      requires Valid()
      modifies this`outUsed, this`outSent, this`lastActive, this`closing, this`delivered
      ensures Valid()
      ensures var w := Writable(old(View()), script);
              View() == w.conn && delivered == old(delivered) + w.delivered
      ensures lastActive == if delivered == old(delivered) then old(lastActive) else now
    {
      var rest, done := script, false;
      ghost var goal, sent := Writable(View(), script), [];
      while outSent < outUsed && rest != [] && !done
        invariant Valid() && delivered == old(delivered) + sent
        invariant lastActive == if sent == [] then old(lastActive) else now
        invariant if done then goal == Write(View(), sent) else Sends(goal, sent, Writable(View(), rest))
        decreases |rest|
      {
        ghost var before := sent;
        done, sent := WriteTurn(rest, now, sent, goal);
        Assoc(old(delivered), before, sent[|before|..]);
        assert before + sent[|before|..] == sent;
        rest := rest[1..];
      }
      if outSent == outUsed && !done {
        outUsed, outSent := 0, 0;
      }
    }
  }

  predicate Sends(goal: Write, sent: seq<byte>, later: Write) {
    goal == Write(later.conn, sent + later.delivered)
  }

  /** A send that takes bytes, and how many. */
  predicate Takes(result: SendResult) { result.Sent? && result.n > 0 }

  function Taken(c: Conn, result: SendResult): (k: nat)
    requires c.Valid()
    ensures c.sent + k <= |c.out|
  {
    if !Takes(result) then 0 else if result.n < |c.out| - c.sent then result.n else |c.out| - c.sent
  }

  /** One send, whatever it does. */
  lemma WritableOnce(c: Conn, script: seq<SendResult>, sent: seq<byte>, goal: Write)
    requires c.Valid() && c.sent < |c.out| && script != [] && Sends(goal, sent, Writable(c, script))
    ensures var result, k := script[0], Taken(c, script[0]);
            if Takes(result) then
              Sends(goal, sent + c.out[c.sent..c.sent + k], Writable(c.(sent := c.sent + k), script[1..]))
            else if result.SendInterrupted? then Sends(goal, sent, Writable(c, script[1..]))
            else goal == Write(if result.SendBlocked? then c else c.(closing := true), sent)
  {
    if Takes(script[0]) {
      var k := Taken(c, script[0]);
      Assoc(sent, c.out[c.sent..c.sent + k], Writable(c.(sent := c.sent + k), script[1..]).delivered);
    }
    assert sent + [] == sent;
  }

  /** A read that has taken some bytes and goes on as `later`. */
  predicate Carries(goal: Read, taken: seq<byte>, later: Read) {
    goal == Read(later.conn, taken + later.taken)
  }

  function Counted(c: Conn): Conn { c.(lines := c.lines + 1) }

  lemma TurnTowards(say: Words, c: Conn, goal: Conn)
    requires c.Valid() && NewlineAt(c.inp) < |c.inp| && goal == Process(say, c)
    ensures goal == if QuitNext(say, c) then AfterLines(say, OneLine(say, c)) else Process(say, OneLine(say, c))
  {
  }

  /** Queueing does not look at the input. */
  lemma LineAnswered(say: Words, c: Conn, counted: Conn, words: seq<byte>)
    requires c.Valid() && counted.Valid() && counted == c.(lines := c.lines + 1, inp := counted.inp)
    requires NewlineAt(c.inp) < |c.inp|
    requires words == if QuitNext(say, c) then say.bye else say.echo(c.lines + 1, c.inp[..NewlineAt(c.inp)])
    ensures var next := Queue(counted, words);
            OneLine(say, c) == if QuitNext(say, c) then next.(inp := c.inp, closing := true)
                          else next.(inp := c.inp[NewlineAt(c.inp) + 1..])
  {
  }

  /** One chunk taken in and processed. */
  lemma ReadableBytes(say: Words, c: Conn, script: seq<RecvResult>, taken: seq<byte>, goal: Read)
    requires c.Valid() && |c.inp| < BUF_SIZE && script != [] && script[0].Bytes? && script[0].chunk != []
    requires Carries(goal, taken, Readable(say, c, script))
    ensures var n := Room(c, script[0].chunk);
            var b := script[0].chunk[..n];
            var next := Process(say, c.(inp := c.inp + b));
            && (next.closing ==> goal == Read(next, taken + b))
            && (!next.closing ==> Carries(goal, taken + b, Readable(say, next, Remaining(script, n))))
  {
    var n := Room(c, script[0].chunk);
    var b := script[0].chunk[..n];
    var next := Process(say, c.(inp := c.inp + b));
    if !next.closing {
      Assoc(taken, b, Readable(say, next, Remaining(script, n)).taken);
    }
  }
}
