/** What a `name = value` line means, and that the refactored parser of parser.c means
    the same as the one of legacy.c. */
module RecordParser {
  import opened Bytes
  import opened Wrappers

  const LINE_MAX_LEN: nat := 256
  const SPACE: byte := 32
  const TAB: byte := 9
  const EQUALS: byte := 61

  predicate IsBlank(b: byte) { b == SPACE || b == TAB }

  function SkipBlanks(s: seq<byte>): (t: seq<byte>)
    ensures |t| <= |s|
  {
    if s != [] && IsBlank(s[0]) then SkipBlanks(s[1..]) else s
  }

  function TrimBlanks(s: seq<byte>): (t: seq<byte>)
    ensures t <= s
  {
    if s != [] && IsBlank(s[|s| - 1]) then TrimBlanks(s[..|s| - 1]) else s
  }

  /** The place of the first '=', or the length if there is none. */
  function FirstEquals(s: seq<byte>): (n: nat)
    ensures n <= |s|
  {
    FirstAt(s, EQUALS)
  }

  // ---------- numbers, as strtol in base 10 reads them ----------

  predicate IsWhite(b: byte) { b == SPACE || 9 <= b <= 13 }

  predicate IsDigit(b: byte) { 48 <= b <= 57 }

  function SkipWhite(s: seq<byte>): seq<byte> {
    if s != [] && IsWhite(s[0]) then SkipWhite(s[1..]) else s
  }

  function LeadingDigits(s: seq<byte>): seq<byte> {
    if s != [] && IsDigit(s[0]) then [s[0]] + LeadingDigits(s[1..]) else []
  }

  function DigitsValue(d: seq<byte>): int {
    if d == [] then 0 else DigitsValue(d[..|d| - 1]) * 10 + (d[|d| - 1] as int - 48)
  }

  /** The number at the start of a text, of any size; None when there is none. */
  function NumberAt(text: seq<byte>): Option<int> {
    var t := SkipWhite(text);
    var signed := t != [] && (t[0] == 43 || t[0] == 45);
    var digits := LeadingDigits(if signed then t[1..] else t);
    if digits == [] then None
    else Some(if signed && t[0] == 45 then -DigitsValue(digits) else DigitsValue(digits))
  }

  predicate FitsInt(v: int) { -0x8000_0000 <= v < 0x8000_0000 }
  predicate FitsLong(v: int) { -0x8000_0000_0000_0000 <= v < 0x8000_0000_0000_0000 }

  // ---------- the two parsers on values ----------

  datatype Outcome =
    | Refused                                       // nothing is written
    | NameCut(name: seq<byte>)                      // refused, but a cut name is written
    | Accepted(name: seq<byte>, value: int)

  /** The caller's two output objects. */
  datatype Outputs = Outputs(name: seq<byte>, value: int)

  /** The outputs after a call, in full: the bytes behind the name stay. */
  function Leave(o: Outcome, before: Outputs): (after: Outputs)
    requires o.Refused? || |o.name| < |before.name|
  {
    match o
    case Refused => before
    case NameCut(name) => before.(name := Stored(before.name, name))
    case Accepted(name, value) => Outputs(Stored(before.name, name), value)
  }

  /** parse_long: fails on no digits and on what does not fit a long. */
  function ParseLong(text: seq<byte>): Option<int> {
    match NumberAt(text)
    case Some(v) => if FitsLong(v) then Some(v) else None
    case None => None
  }

  function ModernValue(text: seq<byte>): int {
    match ParseLong(text)
    case Some(v) => if FitsInt(v) then v else 0
    case None => 0
  }

  /** parse_record of parser.c on a C string. */
  function Modern(line: seq<byte>, nameSize: nat): (o: Outcome)
    ensures !o.Refused? ==> |o.name| < nameSize
  {
    var eq := FirstEquals(line);
    if |line| >= LINE_MAX_LEN || eq == |line| then Refused else
    var name := TrimBlanks(SkipBlanks(line[..eq]));
    if |name| < nameSize then Accepted(name, ModernValue(SkipBlanks(line[eq + 1..])))
    else if nameSize == 0 then Refused                 // snprintf of size 0 writes nothing
    else NameCut(name[..nameSize - 1])
  }

  /** atoi: what it returns when the number does not fit an int is not defined, so it
      is a parameter here. */
  function LegacyValue(text: seq<byte>, unspecified: int): int {
    match NumberAt(text)
    case Some(v) => if FitsInt(v) then v else unspecified
    case None => 0
  }

  /** parse_record of legacy.c on a C string; Refused is a return of 0. */
  function Legacy(line: seq<byte>, unspecified: int): Outcome {
    var p := SkipBlanks(line);
    var q := FirstEquals(p);
    if q == |p| then Refused
    else Accepted(TrimBlanks(p[..q]), LegacyValue(SkipBlanks(p[q + 1..]), unspecified))
  }

  // ---------- what is written is what is read ----------

  /** Spaces and tabs. */
  predicate Padding(s: seq<byte>) { forall i :: 0 <= i < |s| ==> s[i] == 32 || s[i] == 9 }

  /** What strtol skips: those and the other white space of the C locale. */
  predicate White(s: seq<byte>) { forall i :: 0 <= i < |s| ==> s[i] == 32 || 9 <= s[i] <= 13 }

  /** No space or tab at either end. */
  predicate Bare(s: seq<byte>) {
    s != [] ==> s[0] != 32 && s[0] != 9 && s[|s| - 1] != 32 && s[|s| - 1] != 9
  }

  lemma {:induction false} SkipPadding(pad: seq<byte>, rest: seq<byte>)
    requires Padding(pad) && (rest != [] ==> rest[0] != 32 && rest[0] != 9)
    ensures SkipBlanks(pad + rest) == rest
    decreases |pad|
  {
    if pad == [] {
      assert pad + rest == rest;
    } else {
      assert (pad + rest)[1..] == pad[1..] + rest;
      SkipPadding(pad[1..], rest);
    }
  }

  lemma {:induction false} TrimPadding(s: seq<byte>, pad: seq<byte>)
    requires Padding(pad) && (s != [] ==> s[|s| - 1] != 32 && s[|s| - 1] != 9)
    ensures TrimBlanks(s + pad) == s
    decreases |pad|
  {
    if pad == [] {
      assert s + pad == s;
    } else {
      assert (s + pad)[..|s + pad| - 1] == s + pad[..|pad| - 1];
      TrimPadding(s, pad[..|pad| - 1]);
    }
  }

  lemma {:induction false} SkipWhites(pad: seq<byte>, rest: seq<byte>)
    requires White(pad) && rest != [] && rest[0] > 32
    ensures SkipWhite(pad + rest) == rest
    decreases |pad|
  {
    if pad == [] {
      assert pad + rest == rest;
    } else {
      assert (pad + rest)[1..] == pad[1..] + rest;
      SkipWhites(pad[1..], rest);
    }
  }

  /** Skipping blanks leaves some of the white space. */
  lemma {:induction false} SkipSome(pad: seq<byte>, rest: seq<byte>)
    requires White(pad) && rest != [] && rest[0] > 32
    ensures SkipWhite(SkipBlanks(pad + rest)) == rest
    decreases |pad|
  {
    if pad != [] && IsBlank(pad[0]) {
      assert (pad + rest)[1..] == pad[1..] + rest;
      SkipSome(pad[1..], rest);
    } else {
      if pad != [] { assert (pad + rest)[0] == pad[0]; } else { assert pad + rest == rest; }
      SkipWhites(pad, rest);
    }
  }

  /** The digits of a number, up to what follows them. */
  lemma {:induction false} DigitsThen(digits: seq<byte>, rest: seq<byte>)
    requires forall i :: 0 <= i < |digits| ==> 48 <= digits[i] <= 57
    requires rest != [] ==> !(48 <= rest[0] <= 57)
    ensures LeadingDigits(digits + rest) == digits
    decreases |digits|
  {
    if digits == [] {
      assert digits + rest == rest;
    } else {
      assert (digits + rest)[1..] == digits[1..] + rest;
      DigitsThen(digits[1..], rest);
    }
  }

  lemma {:induction false} DigitsValueOf(n: nat)
    ensures DigitsValue(Decimal(n)) == n
  {
    var d := Decimal(n);
    if n >= 10 {
      DigitsValueOf(n / 10);
      assert d[..|d| - 1] == Decimal(n / 10);
    } else {
      assert d[..0] == [];
    }
  }

  /** A number written out, with a minus sign, a plus sign or none. */
  function Written(v: int, plus: bool): (s: seq<byte>)
    ensures s != []
  {
    if v < 0 then [45] + Decimal(-v) else if plus then [43] + Decimal(v) else Decimal(v)    // '-' and '+'
  }

  lemma SignThen(sign: byte, digits: seq<byte>, rest: seq<byte>)
    requires digits != [] && (sign == 43 || sign == 45) && LeadingDigits(digits + rest) == digits
    ensures var text := [sign] + digits + rest;
            SkipWhite(text) == text &&
            NumberAt(text) == Some(if sign == 45 then -DigitsValue(digits) else DigitsValue(digits))
  {
    assert ([sign] + digits + rest)[1..] == digits + rest;
  }

  lemma NoSign(digits: seq<byte>, rest: seq<byte>)
    requires digits != [] && 48 <= digits[0] <= 57 && LeadingDigits(digits + rest) == digits
    ensures SkipWhite(digits + rest) == digits + rest && NumberAt(digits + rest) == Some(DigitsValue(digits))
  {
  }

  lemma NumberWritten(v: int, plus: bool, rest: seq<byte>)
    requires rest != [] ==> !(48 <= rest[0] <= 57)
    ensures Written(v, plus)[0] > 32
    ensures NumberAt(Written(v, plus) + rest) == Some(v)
  {
    DigitsWritten(if v < 0 then -v else v, rest);
    if v < 0 {
      SignThen(45, Decimal(-v), rest);
    } else if plus {
      SignThen(43, Decimal(v), rest);
    } else {
      NoSign(Decimal(v), rest);
    }
  }

  lemma DigitsWritten(n: nat, rest: seq<byte>)
    requires rest != [] ==> !(48 <= rest[0] <= 57)
    ensures 48 <= Decimal(n)[0] <= 57
    ensures LeadingDigits(Decimal(n) + rest) == Decimal(n) && DigitsValue(Decimal(n)) == n
  {
    DecimalDigits(n);
    DigitsThen(Decimal(n), rest);
    DigitsValueOf(n);
  }

  lemma NumberBehind(gap: seq<byte>, v: int, plus: bool, rest: seq<byte>)
    requires White(gap) && (rest != [] ==> !(48 <= rest[0] <= 57))
    ensures NumberAt(SkipBlanks(gap + (Written(v, plus) + rest))) == Some(v)
  {
    NumberWritten(v, plus, rest);
    SkipSome(gap, Written(v, plus) + rest);
  }

  /** A line with a name and a number, padded in any way. */
  function Line(before: seq<byte>, name: seq<byte>, after: seq<byte>, value: seq<byte>): seq<byte> {
    before + name + after + [EQUALS] + value
  }

  lemma LineCut(before: seq<byte>, name: seq<byte>, after: seq<byte>, value: seq<byte>)
    requires Padding(before) && Padding(after) && Bare(name) && EQUALS !in name
    ensures var line, eq := Line(before, name, after, value), |before + name + after|;
            FirstEquals(line) == eq < |line| && line[eq + 1..] == value &&
            TrimBlanks(SkipBlanks(line[..eq])) == name
  {
    var line, front := Line(before, name, after, value), before + name + after;
    assert line[..|front|] == front && EQUALS !in front;
    FirstAtUnique(line, EQUALS, |front|);
    assert front == before + (name + after);
    if name == [] {
      assert before + (name + after) == (before + after) + [];
      SkipPadding(before + after, []);
    } else {
      SkipPadding(before, name + after);
      TrimPadding(name, after);
    }
  }

  /** What is written is what is read: for every name, every int and any padding both
      parsers give the name and the number back. */
  lemma LineIsRead(before: seq<byte>, name: seq<byte>, after: seq<byte>, gap: seq<byte>, v: int, plus: bool,
                   rest: seq<byte>, nameSize: nat, unspecified: int)
    requires Padding(before) && Padding(after) && White(gap) && Bare(name) && EQUALS !in name && FitsInt(v)
    requires rest != [] ==> !(48 <= rest[0] <= 57)
    requires |Line(before, name, after, gap + (Written(v, plus) + rest))| < 256 && |name| < nameSize
    ensures var line := Line(before, name, after, gap + (Written(v, plus) + rest));
            Modern(line, nameSize) == Accepted(name, v) == Legacy(line, unspecified)
  {
    var line := Line(before, name, after, gap + (Written(v, plus) + rest));
    LineCut(before, name, after, gap + (Written(v, plus) + rest));
    NumberBehind(gap, v, plus, rest);
    LegacyParts(line, unspecified);
  }

  /** A value with no digits is 0: nothing, or something else where the digits should be,
      behind white space and perhaps a sign. */
  lemma MalformedIsZero(gap: seq<byte>, sign: seq<byte>, rest: seq<byte>, unspecified: int)
    requires White(gap) && (sign == [] || sign == [43] || sign == [45])
    requires rest != [] ==> !(48 <= rest[0] <= 57)
    requires sign == [] && rest != [] ==> rest[0] > 32 && rest[0] != 43 && rest[0] != 45
    ensures var text := SkipBlanks(gap + (sign + rest)); ModernValue(text) == 0 == LegacyValue(text, unspecified)
  {
    var text := sign + rest;
    if text == [] {
      OnlyWhite(gap);
      assert gap + text == gap;
    } else {
      SkipSome(gap, text);
      if sign != [] { assert text[0] == sign[0] && text[1..] == rest; } else { assert text == rest; }
      NoDigits(SkipBlanks(gap + text), text, rest);
    }
  }

  lemma NoDigits(text: seq<byte>, t: seq<byte>, rest: seq<byte>)
    requires SkipWhite(text) == t != [] && (rest != [] ==> !(48 <= rest[0] <= 57))
    requires if t[0] == 43 || t[0] == 45 then t[1..] == rest else t == rest
    ensures NumberAt(text) == None
  {
  }

  lemma {:induction false} OnlyWhite(gap: seq<byte>)
    requires White(gap)
    ensures NumberAt(SkipBlanks(gap)) == None
    decreases |gap|
  {
    if gap != [] && IsBlank(gap[0]) {
      OnlyWhite(gap[1..]);
    } else {
      AllSkipped(gap);
    }
  }

  lemma {:induction false} AllSkipped(gap: seq<byte>)
    requires White(gap)
    ensures SkipWhite(gap) == []
    decreases |gap|
  {
    if gap != [] { AllSkipped(gap[1..]); }
  }

  /** A line is accepted exactly if it is short enough, has an '=', and its name, without
      the padding, fits. */
  lemma AcceptedIff(before: seq<byte>, name: seq<byte>, after: seq<byte>, value: seq<byte>, nameSize: nat)
    requires Padding(before) && Padding(after) && Bare(name) && EQUALS !in name
    ensures var line := Line(before, name, after, value);
            Modern(line, nameSize).Accepted? <==> |line| < 256 && |name| < nameSize
    ensures forall text: seq<byte> :: 61 !in text ==> Modern(text, nameSize).Refused?
  {
    LineCut(before, name, after, value);
    forall text: seq<byte> | 61 !in text ensures Modern(text, nameSize).Refused? { FirstAtFound(text, EQUALS); }
  }

  // ---------- the refactoring preserves the behaviour ----------

  /** Skipping blanks first and looking for '=' after it finds the same '=' and leaves
      the same name and the same rest. */
  lemma {:induction false} SkipThenSplit(line: seq<byte>)
    ensures var p, eq := SkipBlanks(line), FirstEquals(line);
            var q := FirstEquals(p);
            && (q == |p| <==> eq == |line|)
            && (eq < |line| ==> SkipBlanks(line[..eq]) == p[..q] && p[q + 1..] == line[eq + 1..])
    decreases |line|
  {
    var eq := FirstEquals(line);
    if line != [] && IsBlank(line[0]) {
      SkipThenSplit(line[1..]);
      assert line[..eq][1..] == line[1..][..eq - 1];
      if eq < |line| { assert line[eq + 1..] == line[1..][eq..]; }
    } else if eq > 0 {
      assert line[..eq][0] == line[0];
    }
  }

  /** The number a line carries, if any. */
  function NumberOf(line: seq<byte>): Option<int> {
    var eq := FirstEquals(line);
    if eq == |line| then None else NumberAt(SkipBlanks(line[eq + 1..]))
  }

  predicate IntOverflow(line: seq<byte>) { NumberOf(line).Some? && !FitsInt(NumberOf(line).value) }

  /** Both conversions agree exactly when the number fits an int, or the legacy one
      happens to yield 0 for it. */
  lemma ValuesAgree(text: seq<byte>, unspecified: int)
    ensures ModernValue(text) == LegacyValue(text, unspecified) <==>
            (NumberAt(text).None? || FitsInt(NumberAt(text).value) || unspecified == 0)
  {
  }

  /** Both parsers cut a line into the same name and the same text of the value. */
  lemma LegacyParts(line: seq<byte>, unspecified: int)
    ensures var eq := FirstEquals(line);
            Legacy(line, unspecified) ==
            if eq == |line| then Refused
            else Accepted(TrimBlanks(SkipBlanks(line[..eq])), LegacyValue(SkipBlanks(line[eq + 1..]), unspecified))
  {
    SkipThenSplit(line);
  }

  /** For every line short enough for the legacy buffer whose name fits, both parsers
      return the same status, name and value, exactly when the number fits an int or
      the legacy conversion happens to yield 0. */
  lemma RefactoringPreserves(line: seq<byte>, nameSize: nat, unspecified: int)
    requires |line| < LINE_MAX_LEN
    requires Legacy(line, unspecified).Accepted? ==> |Legacy(line, unspecified).name| < nameSize
    ensures Modern(line, nameSize).Refused? <==> Legacy(line, unspecified).Refused?
    ensures Legacy(line, unspecified).Accepted? ==>
              Modern(line, nameSize).Accepted? && Modern(line, nameSize).name == Legacy(line, unspecified).name
    ensures Modern(line, nameSize) == Legacy(line, unspecified) <==> (!IntOverflow(line) || unspecified == 0)
  {
    LegacyParts(line, unspecified);
    var eq := FirstEquals(line);
    if eq < |line| {
      ValuesAgree(SkipBlanks(line[eq + 1..]), unspecified);
    }
  }

  /** The lines whose refusal is not harmless: short enough, with an '=', and with a
      name too long for an output buffer that has room for something. */
  predicate NameTooLong(line: seq<byte>, nameSize: nat) {
    && 0 < nameSize && |line| < LINE_MAX_LEN && EQUALS in line
    && |TrimBlanks(SkipBlanks(line[..FirstEquals(line)]))| >= nameSize
  }

  lemma WhichRefusal(line: seq<byte>, nameSize: nat)
    ensures Modern(line, nameSize).NameCut? <==> NameTooLong(line, nameSize)
  {
    FirstAtFound(line, EQUALS);
  }

  predicate Fits(before: Outputs, nameSize: nat) { nameSize <= |before.name| }

  /** The header promises that a line that does not parse leaves the outputs untouched,
      whatever they hold. That is so exactly when the refusal is not for a name that is
      too long; the value is never touched. */
  lemma OutputsUntouched(line: seq<byte>, nameSize: nat)
    requires !Modern(line, nameSize).Accepted?
    ensures forall before: Outputs :: Fits(before, nameSize) ==>
              Leave(Modern(line, nameSize), before).value == before.value
    ensures (forall before: Outputs :: Fits(before, nameSize) ==> Leave(Modern(line, nameSize), before) == before)
       <==> !NameTooLong(line, nameSize)
  {
    WhichRefusal(line, nameSize);
    if NameTooLong(line, nameSize) {
      var before := Outputs(seq(nameSize, _ => 1), 0);
      assert Fits(before, nameSize);
      assert Leave(Modern(line, nameSize), before).name[nameSize - 1] == NUL;
    }
  }

  /** "ab=1" with room for one letter: refused, and "x" has become "a". */
  lemma OutputsTouched()
    ensures Modern([97, 98, EQUALS, 49], 2) == NameCut([97])
    ensures Leave(NameCut([97]), Outputs([120, NUL], 7)) == Outputs([97, NUL], 7)
  {
    var line: seq<byte> := [97, 98, EQUALS, 49];
    FirstAtUnique(line, EQUALS, 2);
    assert line[..2] == [97, 98] && [97 as byte, 98][..1] == [97];
  }

  function Nines(n: nat): (s: seq<byte>)
    ensures |s| == n
  {
    seq(n, _ => 57)
  }

  lemma {:induction false} NinesRead(n: nat)
    ensures LeadingDigits(Nines(n)) == Nines(n) && DigitsValue(Nines(n)) == Pow10(n) - 1
  {
    if n > 0 {
      NinesRead(n - 1);
      assert Nines(n)[1..] == Nines(n - 1) == Nines(n)[..n - 1];
    }
  }

  /** "a=9999999999": the parsers differ, whatever atoi gives but 0. */
  lemma ParsersDiffer(nameSize: nat, unspecified: int)
    requires nameSize > 1 && unspecified != 0
    ensures Modern([97, EQUALS] + Nines(10), nameSize) != Legacy([97, EQUALS] + Nines(10), unspecified)
  {
    var line := [97, EQUALS] + Nines(10);
    FirstAtUnique(line, EQUALS, 1);
    assert line[2..] == Nines(10) && line[..1] == [97];
    NinesRead(10);
    assert Pow10(10) == 10 * (10 * (10 * (10 * (10 * Pow10(5)))));
    assert Pow10(5) == 100000;
    assert IntOverflow(line);
    LegacyParts(line, unspecified);
    RefactoringPreserves(line, nameSize, unspecified);
  }
}
