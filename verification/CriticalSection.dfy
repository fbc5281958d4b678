/** Reading the 64-bit `micros` of interrupts.c on a 32-bit core: two loads, in the order
    the compiler chooses, between which systick_handler may run, with and without the
    critical section. */
module CriticalSection {

  const WORD: nat := 0x1_0000_0000
  const LIMIT: nat := 0x1_0000_0000_0000_0000
  const TICK: nat := 1000

  type uint64 = x: nat | x < LIMIT

  type History = h: seq<uint64> | |h| > 0 witness [0]

  /** systick_handler's update. */
  function Ticked(micros: uint64): uint64 { (micros + TICK) % LIMIT }

  /** The high word of one reading with the low word of another. */
  function Joined(high: uint64, low: uint64): uint64 { high / WORD * WORD + low % WORD }

  /** What two loads give, the first of them of the high word or of the low one. */
  function Reading(highFirst: bool, first: uint64, second: uint64): uint64 {
    if highFirst then Joined(first, second) else Joined(second, first)
  }

  /** Where the reading program is. */
  datatype Reader =
    | Start
    | Mask                                 // primask is read, cpsid comes next
    | LoadFirst
    | LoadSecond(word: nat)                // the word that is already loaded
    | Unmask(value: nat)                   // exit_critical comes next
    | Done(value: nat)

  /** `saved` is what enter_critical returned, `before` the mask at the start. `values`
      are those micros has had since the loads began, the last one the present one;
      `firstAt` and `secondAt` say which of them each load has seen. */
  datatype State = State(guarded: bool, highFirst: bool, before: bool, masked: bool, saved: bool, micros: uint64,
                         pc: Reader, values: History, firstAt: nat, secondAt: nat)

  datatype Step = Tick | ReaderStep

  predicate Init(s: State) { s.pc == Start && s.masked == s.before && s.values == [s.micros] }

  /** The tick comes at any time it is not masked. */
  predicate Enabled(s: State, step: Step) {
    if step.Tick? then !s.masked else !s.pc.Done?
  }

  function Next(s: State, step: Step): State
    requires Enabled(s, step)
  {
    if step.Tick? then s.(micros := Ticked(s.micros), values := s.values + [Ticked(s.micros)])
    else
      match s.pc
      case Start =>
        if s.guarded then s.(pc := Mask, saved := s.masked) else s.(pc := LoadFirst, values := [s.micros])
      case Mask => s.(pc := LoadFirst, masked := true, values := [s.micros])
      case LoadFirst =>
        s.(pc := LoadSecond(if s.highFirst then s.micros / WORD else s.micros % WORD), firstAt := |s.values| - 1)
      case LoadSecond(word) =>
        var value := if s.highFirst then word * WORD + s.micros % WORD else s.micros / WORD * WORD + word;
        s.(pc := if s.guarded then Unmask(value) else Done(value), secondAt := |s.values| - 1)
      case Unmask(value) => s.(pc := Done(value), masked := s.saved)
  }

  predicate Ticking(values: History) {
    forall i :: 0 < i < |values| ==> values[i] == Ticked(values[i - 1])
  }

  predicate HasRead(s: State, value: nat) {
    && s.firstAt <= s.secondAt < |s.values|
    && value == Reading(s.highFirst, s.values[s.firstAt], s.values[s.secondAt])
  }

  predicate LoadsInv(s: State) {
    match s.pc
    case LoadSecond(word) =>
      && s.firstAt < |s.values|
      && word == if s.highFirst then s.values[s.firstAt] / WORD else s.values[s.firstAt] % WORD
    case Unmask(value) => HasRead(s, value)
    case Done(value) => HasRead(s, value)
    case _ => true
  }

  predicate MaskInv(s: State) {
    if s.guarded then
      && (s.pc.Start? || s.pc.Mask? || s.pc.Done? ==> s.masked == s.before)
      && (!s.pc.Start? ==> s.saved == s.before)
      && (s.pc.LoadFirst? || s.pc.LoadSecond? || s.pc.Unmask? ==> s.masked && |s.values| == 1)
      && (s.pc.Done? ==> s.firstAt == s.secondAt == 0)
    else s.masked == s.before && !s.pc.Mask? && !s.pc.Unmask?
  }

  predicate Inv(s: State) {
    s.values[|s.values| - 1] == s.micros && Ticking(s.values) && LoadsInv(s) && MaskInv(s)
  }

  predicate IsRun(s: State, steps: seq<Step>, last: State)
    decreases |steps|
  {
    if steps == [] then s == last else Enabled(s, steps[0]) && IsRun(Next(s, steps[0]), steps[1..], last)
  }

  lemma TickInv(s: State)
    requires Inv(s) && !s.masked
    ensures Inv(Next(s, Tick))
  {
    var t := Next(s, Tick);
    assert t.values[..|s.values|] == s.values;
    forall i | 0 < i < |t.values| ensures t.values[i] == Ticked(t.values[i - 1]) {}
  }

  lemma LoadInv(s: State)
    requires Inv(s) && (s.pc.LoadFirst? || s.pc.LoadSecond?)
    ensures Inv(Next(s, ReaderStep))
  {
  }

  lemma NextInv(s: State, step: Step)
    requires Inv(s) && Enabled(s, step)
    ensures Inv(Next(s, step))
  {
    if step.Tick? {
      TickInv(s);
    } else if s.pc.LoadFirst? || s.pc.LoadSecond? {
      LoadInv(s);
    }
  }

  lemma {:induction false} RunInv(s: State, steps: seq<Step>, last: State)
    requires Inv(s) && IsRun(s, steps, last)
    ensures Inv(last)
    decreases |steps|
  {
    if steps != [] {
      NextInv(s, steps[0]);
      RunInv(Next(s, steps[0]), steps[1..], last);
    }
  }

  /** With the critical section the reading is the value micros has from the first load
      to the end of the section, and the mask is left as it was found. */
  lemma GuardedReadIsExact(s: State, steps: seq<Step>, last: State)
    requires Init(s) && IsRun(s, steps, last) && last.guarded
    ensures last.pc.Unmask? ==> last.pc.value == last.micros
    ensures last.pc.Done? ==> last.pc.value == last.values[0] && last.masked == s.before
  {
    RunInv(s, steps, last);
    RunKeeps(s, steps, last);
  }

  lemma {:induction false} RunKeeps(s: State, steps: seq<Step>, last: State)
    requires IsRun(s, steps, last)
    ensures last.guarded == s.guarded && last.before == s.before
    decreases |steps|
  {
    if steps != [] { RunKeeps(Next(s, steps[0]), steps[1..], last); }
  }

  lemma {:induction false} TicksAdd(values: History, i: nat, j: nat)
    requires Ticking(values) && i <= j < |values|
    ensures values[j] == (values[i] + TICK * (j - i)) % LIMIT
    decreases j
  {
    if i < j {
      TicksAdd(values, i, j - 1);
      WrapLater(values[i] + TICK * (j - 1 - i), TICK);
    }
  }

  lemma WrapLater(x: nat, y: nat)
    ensures (x % LIMIT + y) % LIMIT == (x + y) % LIMIT
  {
    WholeWraps(x % LIMIT + y, x / LIMIT);
  }

  lemma WholeWraps(x: int, n: int)
    ensures (x + LIMIT * n) % LIMIT == x % LIMIT
  {
    assert x == LIMIT * (x / LIMIT) + x % LIMIT;
    assert x + LIMIT * n == LIMIT * (x / LIMIT + n) + x % LIMIT;
  }

  /** The inverse of 125 modulo the word. */
  const INVERSE: nat := 652835029

  /** How many ticks it takes micros to move on by this many words and nothing more:
      1000 ticks' worth is 8 * 125, so it takes a multiple of 2^29 ticks. */
  function TicksToWords(words: int): nat { words * INVERSE % WORD * 0x2000_0000 }

  lemma WordsReached(a: uint64, words: int)
    requires 0 <= a + words * WORD < LIMIT
    ensures (a + TICK * TicksToWords(words)) % LIMIT == a + words * WORD
  {
    var e, c := words * INVERSE % WORD, words * INVERSE / WORD;
    assert words * INVERSE == WORD * c + e;
    assert TICK * TicksToWords(words) == 125 * WORD * e;
    assert 125 * e == words + WORD * (19 * words - 125 * c);
    WholeWraps(a + words * WORD, 19 * words - 125 * c);
  }

  lemma NotBefore(a: uint64, words: int, ticks: nat)
    requires (a + TICK * ticks) % LIMIT == a + words * WORD
    ensures TicksToWords(words) <= ticks
  {
    var n := (a + TICK * ticks) / LIMIT;
    assert TICK * ticks == words * WORD + LIMIT * n;
    var j := 115964117 * (words + WORD * n) - 27 * ticks;
    assert 125 * ticks == 0x2000_0000 * (words + WORD * n);
    assert ticks == 0x2000_0000 * j;
    assert 125 * j == words + WORD * n;
    assert words * INVERSE == WORD * (19 * j - n * INVERSE) + j;
    SameRemainder(j, 19 * j - n * INVERSE);
  }

  lemma SameRemainder(j: nat, c: int)
    ensures (WORD * c + j) % WORD <= j
  {
    assert WORD * c + j == WORD * (c + j / WORD) + j % WORD;
  }

  /** Without the critical section the reading joins the high word of one value to the
      low word of another. Whichever word is loaded first, it is a value micros had
      between the loads exactly when enough ticks came between for micros to have moved by
      as many whole words as lie between the two. */
  lemma UnguardedReadIsTorn(s: State, steps: seq<Step>, last: State)
    requires Init(s) && IsRun(s, steps, last) && last.pc.Done?
    ensures HasRead(last, last.pc.value)
    ensures var a, b := last.values[last.firstAt], last.values[last.secondAt];
            (exists i :: last.firstAt <= i <= last.secondAt && last.values[i] == last.pc.value) <==>
            TicksToWords(b / WORD - a / WORD) <= last.secondAt - last.firstAt
  {
    RunInv(s, steps, last);
    if last.highFirst {
      TornHighFirst(last.values, last.firstAt, last.secondAt, last.pc.value);
    } else {
      TornLowFirst(last.values, last.firstAt, last.secondAt, last.pc.value);
    }
  }

  lemma TornLowFirst(values: History, firstAt: nat, secondAt: nat, value: nat)
    requires Ticking(values) && firstAt <= secondAt < |values| && value == Joined(values[secondAt], values[firstAt])
    ensures (exists i :: firstAt <= i <= secondAt && values[i] == value) <==>
            TicksToWords(values[secondAt] / WORD - values[firstAt] / WORD) <= secondAt - firstAt
  {
    var a, b := values[firstAt], values[secondAt];
    var words := b / WORD - a / WORD;
    assert value == a + words * WORD;
    if i :| firstAt <= i <= secondAt && values[i] == value {
      TicksAdd(values, firstAt, i);
      NotBefore(a, words, i - firstAt);
    }
    if TicksToWords(words) <= secondAt - firstAt {
      WordsReached(a, words);
      TicksAdd(values, firstAt, firstAt + TicksToWords(words));
    }
  }

  /** Here the ticks are counted back from the second load. */
  lemma TornHighFirst(values: History, firstAt: nat, secondAt: nat, value: nat)
    requires Ticking(values) && firstAt <= secondAt < |values| && value == Joined(values[firstAt], values[secondAt])
    ensures (exists i :: firstAt <= i <= secondAt && values[i] == value) <==>
            TicksToWords(values[secondAt] / WORD - values[firstAt] / WORD) <= secondAt - firstAt
  {
    var a, b := values[firstAt], values[secondAt];
    var words := b / WORD - a / WORD;
    assert b == value + words * WORD;
    if i :| firstAt <= i <= secondAt && values[i] == value {
      TicksAdd(values, i, secondAt);
      NotBefore(value, words, secondAt - i);
    }
    if TicksToWords(words) <= secondAt - firstAt {
      var i := secondAt - TicksToWords(words);
      WordsReached(value, words);
      TicksAdd(values, i, secondAt);
      SameBefore(value, values[i], TICK * TicksToWords(words));
    }
  }

  /** Adding ticks loses nothing. */
  lemma SameBefore(x: uint64, y: uint64, ticks: nat)
    requires (x + ticks) % LIMIT == (y + ticks) % LIMIT
    ensures x == y
  {
    assert x - y == LIMIT * ((x + ticks) / LIMIT - (y + ticks) / LIMIT);
  }

  /** With fewer than 2^29 ticks between the loads, six days of them, that means: exactly
      when no carry into the high word came between. */
  lemma TornByCarry(s: State, steps: seq<Step>, last: State)
    requires Init(s) && IsRun(s, steps, last) && last.pc.Done?
    ensures last.firstAt <= last.secondAt < |last.values|
    ensures last.secondAt - last.firstAt < 0x2000_0000 ==>
            ((exists i :: last.firstAt <= i <= last.secondAt && last.values[i] == last.pc.value) <==>
             last.values[last.firstAt] / WORD == last.values[last.secondAt] / WORD)
  {
    UnguardedReadIsTorn(s, steps, last);
    NoTicksNoWords(last.values[last.secondAt] / WORD - last.values[last.firstAt] / WORD);
  }

  lemma NoTicksNoWords(words: int)
    requires 0 < words + WORD < 2 * WORD
    ensures TicksToWords(words) < 0x2000_0000 <==> words == 0
  {
    if words * INVERSE % WORD == 0 {
      var c := words * INVERSE / WORD;
      assert words == WORD * (125 * c - 19 * words);
    }
  }

  /** It happens, in either order: a tick between the loads carries, and the value read
      never was. */
  lemma TornReadExists(highFirst: bool)
    ensures exists s: State, steps: seq<Step>, last: State ::
              && Init(s) && s.highFirst == highFirst && IsRun(s, steps, last)
              && last.pc == Done(if highFirst then 704 else 8589934296)
              && last.values == [4294967000, 4294968000] && last.pc.value !in last.values
  {
    var s0 := State(false, highFirst, false, false, false, 4294967000, Start, [4294967000], 0, 0);
    var s1 := Next(s0, ReaderStep);
    var s2 := Next(s1, ReaderStep);
    var s3 := Next(s2, Tick);
    var s4 := Next(s3, ReaderStep);
    assert IsRun(s4, [], s4);
    assert IsRun(s3, [ReaderStep], s4);
    assert IsRun(s2, [Tick, ReaderStep], s4) by { assert [Tick, ReaderStep][1..] == [ReaderStep]; }
    assert IsRun(s1, [ReaderStep, Tick, ReaderStep], s4) by {
      assert [ReaderStep, Tick, ReaderStep][1..] == [Tick, ReaderStep];
    }
    assert IsRun(s0, [ReaderStep, ReaderStep, Tick, ReaderStep], s4) by {
      assert [ReaderStep, ReaderStep, Tick, ReaderStep][1..] == [ReaderStep, Tick, ReaderStep];
    }
  }
}
