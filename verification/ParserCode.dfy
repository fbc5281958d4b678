/** The two parsers as the programs run them: scanning and overwriting buffers in
    place, with output parameters. */
module ParserCode {
  import opened Bytes
  import opened RecordParser

  class IntCell {
    var v: int
    constructor (v: int) { this.v := v; }
  }

  // ---------- C strings inside a buffer ----------

  /** The C string that starts at a place of a buffer is t. */
  predicate TextAt(buf: seq<byte>, at: nat, t: seq<byte>) {
    && at + |t| < |buf|
    && (forall i :: 0 <= i < |t| ==> t[i] != NUL && buf[at + i] == t[i])
    && buf[at + |t|] == NUL
  }

  lemma TextIs(buf: seq<byte>, at: nat, t: seq<byte>)
    requires TextAt(buf, at, t)
    ensures UpToNul(buf[at..]) == t
  {
    assert buf[at..][..|t|] == t;
    UpToNulUnique(buf[at..], |t|);
  }

  /** What comes before a string does not matter to it. */
  lemma TextKept(before: seq<byte>, after: seq<byte>, at: nat, t: seq<byte>)
    requires TextAt(before, at, t) && |after| == |before|
    requires forall k :: at <= k < |before| ==> after[k] == before[k]
    ensures TextAt(after, at, t)
  {
  }

  /** The C string at a place of a buffer. */
  method StringAt(buf: array<byte>, at: nat, ghost t: seq<byte>) returns (s: seq<byte>)
    requires TextAt(buf[..], at, t)
    ensures s == t && NUL !in s
  {
    TextIs(buf[..], at, t);
    assert buf[..][at..] == buf[at..];
    s := UpToNul(buf[at..]);
  }

  lemma TextTail(buf: seq<byte>, at: nat, t: seq<byte>)
    requires TextAt(buf, at, t) && t != []
    ensures TextAt(buf, at + 1, t[1..])
  {
    forall i | 0 <= i < |t| - 1 ensures t[1..][i] == buf[at + 1 + i] != NUL {
      assert t[1..][i] == t[i + 1];
    }
  }

  /** strcpy and `snprintf(dst, size, "%s", src)`: the string, cut to what fits. */
  method CopyString(dst: array<byte>, size: nat, src: seq<byte>)
    requires size <= dst.Length && NUL !in src
    modifies dst
    ensures size > 0 ==> TextAt(dst[..], 0, Truncated(src, size))
    ensures dst[..] == if size == 0 then old(dst[..]) else Stored(old(dst[..]), Truncated(src, size))
  {
    if size == 0 { return; }
    var t := Truncated(src, size);
    for i := 0 to |t|
      invariant forall k :: 0 <= k < i ==> dst[k] == t[k]
      invariant forall k :: i <= k < dst.Length ==> dst[k] == old(dst[k])
    {
      dst[i] := t[i];
    }
    dst[|t|] := NUL;
    assert forall i :: 0 <= i < |t| ==> t[i] == src[i];
  }

  // ---------- the pieces of parser.c ----------

  /** skip_space: the pointer moves past blanks; t is the string it starts on. */
  method SkipSpace(buf: array<byte>, at: nat, ghost t: seq<byte>) returns (p: nat)
    requires TextAt(buf[..], at, t)
    ensures at <= p <= at + |t| && TextAt(buf[..], p, SkipBlanks(t))
    ensures p + |SkipBlanks(t)| == at + |t|
  {
    p := at;
    ghost var u := t;
    while IsBlank(buf[p])
      invariant at <= p && TextAt(buf[..], p, u) && p + |u| == at + |t|
      invariant SkipBlanks(u) == SkipBlanks(t)
      decreases |u|
    {
      TextTail(buf[..], p, u);
      p, u := p + 1, u[1..];
    }
  }

  /** trim_trailing: NULs overwrite the blanks at the end. */
  method TrimTrailing(buf: array<byte>, at: nat, ghost t: seq<byte>)
    requires TextAt(buf[..], at, t)
    modifies buf
    ensures TextAt(buf[..], at, TrimBlanks(t))
    ensures forall k :: 0 <= k < buf.Length && !(at <= k < at + |t|) ==> buf[k] == old(buf[k])
  {
    var s := StringAt(buf, at, t);
    var n: nat := |s|;                              // strlen
    assert t[..n] == t;
    while n > 0 && IsBlank(buf[at + n - 1])
      invariant n <= |t| && TextAt(buf[..], at, t[..n])
      invariant TrimBlanks(t[..n]) == TrimBlanks(t)
      invariant forall k :: 0 <= k < buf.Length && !(at <= k < at + |t|) ==> buf[k] == old(buf[k])
    {
      assert t[..n][n - 1] == buf[at + n - 1];
      assert t[..n][..n - 1] == t[..n - 1];
      n := n - 1;
      buf[at + n] := NUL;
      assert forall i :: 0 <= i < n ==> t[..n][i] == t[..n + 1][i];
    }
    assert n > 0 ==> t[..n][n - 1] == buf[at + n - 1];
  }

  // ---------- parse_record of parser.c ----------

  /** A string with one of its bytes overwritten: two strings in one buffer. */
  lemma SplitAt(before: seq<byte>, at: nat, s: seq<byte>, n: nat)
    requires TextAt(before, at, s) && n < |s|
    ensures var after := before[at + n := NUL];
            TextAt(after, at, s[..n]) && TextAt(after, at + n + 1, s[n + 1..])
  {
    var after := before[at + n := NUL];
    var rest := s[n + 1..];
    forall i | 0 <= i < |rest| ensures rest[i] == after[at + n + 1 + i] != NUL {
      assert rest[i] == s[n + 1 + i];
    }
  }

  /** The name of the record, trimmed in the work buffer; the value's text stays. */
  method NameOf(work: array<byte>, eq: nat, ghost s: seq<byte>) returns (name: seq<byte>)
    requires TextAt(work[..], 0, s) && eq == FirstEquals(s) < |s|
    modifies work
    ensures name == TrimBlanks(SkipBlanks(s[..eq])) && NUL !in name
    ensures TextAt(work[..], eq + 1, s[eq + 1..])
  {
    SplitAt(work[..], 0, s, eq);
    ghost var cut := work[..][eq := NUL];
    work[eq] := NUL;
    assert work[..] == cut;
    var at := SkipSpace(work, 0, s[..eq]);
    TrimTrailing(work, at, SkipBlanks(s[..eq]));
    TextKept(cut, work[..], eq + 1, s[eq + 1..]);
    name := StringAt(work, at, TrimBlanks(SkipBlanks(s[..eq])));
  }

  method ParseRecord(line: array?<byte>, outName: array?<byte>, nameSize: nat, outValue: IntCell?)
    returns (ok: bool)
    requires line != null ==> NUL in line[..]
    requires outName != null ==> nameSize <= outName.Length
    modifies if outName != null then {outName} else {}, if outValue != null then {outValue} else {}
    ensures line == null || outName == null || outValue == null ==> !ok
    ensures outValue != null && !ok ==> outValue.v == old(outValue.v)
    ensures outName != null && (line == null || outValue == null) ==> outName[..] == old(outName[..])
    ensures line != null && outName != null && outValue != null ==>
              var o := Modern(UpToNul(old(line[..])), nameSize);
              && ok == o.Accepted?
              && (!o.Refused? ==> TextAt(outName[..], 0, o.name))
              && Outputs(outName[..], outValue.v) == Leave(o, Outputs(old(outName[..]), old(outValue.v)))
    ensures line != null && outName != null && outValue != null ==>
              if NameTooLong(UpToNul(old(line[..])), nameSize) then !ok && |UpToNul(outName[..])| == nameSize - 1
              else ok || outName[..] == old(outName[..])
  {
    if line == null || outName == null || outValue == null { return false; }
    var s := UpToNul(line[..]);
    ok := ParseText(s, outName, nameSize, outValue);
    if !ok { WhichRefusal(s, nameSize); }
    if NameTooLong(s, nameSize) { TextIs(outName[..], 0, Modern(s, nameSize).name); }
    assert outName[..][0..] == outName[..];
  }

  /** The value behind the '=': 0 for what is no number or does not fit. */
  method ValueFrom(work: array<byte>, from: nat, ghost u: seq<byte>) returns (value: int)
    requires TextAt(work[..], from, u)
    ensures value == ModernValue(SkipBlanks(u))
  {
    var at := SkipSpace(work, from, u);
    var text := StringAt(work, at, SkipBlanks(u));
    var number := ParseLong(text);
    value := if number.Some? && FitsInt(number.value) then number.value else 0;
  }

  /** parse_record on a line that is there. */
  method ParseText(s: seq<byte>, outName: array<byte>, nameSize: nat, outValue: IntCell) returns (ok: bool)
    requires NUL !in s && nameSize <= outName.Length
    modifies outName, outValue
    ensures var o := Modern(s, nameSize);
            && ok == o.Accepted?
            && (!o.Refused? ==> TextAt(outName[..], 0, o.name))
            && Outputs(outName[..], outValue.v) == Leave(o, Outputs(old(outName[..]), old(outValue.v)))
  {
    ghost var before := outName[..];
    var work := new byte[LINE_MAX_LEN];
    CopyString(work, LINE_MAX_LEN, s);
    assert outName[..] == before;
    if |s| >= LINE_MAX_LEN { return false; }
    var eq := FirstEquals(s);                       // strchr
    if eq == |s| { return false; }
    var name := NameOf(work, eq, s);
    assert outName[..] == before;
    CopyString(outName, nameSize, name);
    if |name| >= nameSize { return false; }
    outValue.v := ValueFrom(work, eq + 1, s[eq + 1..]);
    return true;
  }

  // ---------- parse_record of legacy.c ----------

  class LegacyParser {
    const buf: array<byte>                          // the global buf[256]
    var count: int                                  // the global count

    constructor ()
      ensures buf.Length == LINE_MAX_LEN && count == 0 && fresh(buf)
    {
      buf := new byte[LINE_MAX_LEN];
      count := 0;
    }

    /** The legacy parser, for lines and names that fit their buffers: it checks
        neither. `unspecified` is what atoi returns on overflow. */
    method ParseRecord(line: array<byte>, outName: array<byte>, outValue: IntCell, unspecified: int)
      returns (rc: int)
      requires buf.Length == LINE_MAX_LEN && outName != buf
      requires NUL in line[..] && |UpToNul(line[..])| < LINE_MAX_LEN
      requires var o := Legacy(UpToNul(line[..]), unspecified); o.Accepted? ==> |o.name| < outName.Length
      modifies this, buf, outName, outValue
      ensures var o := Legacy(old(UpToNul(line[..])), unspecified);
              && rc == (if o.Accepted? then 1 else 0)
              && count == old(count) + rc
              && Outputs(outName[..], outValue.v) == Leave(o, Outputs(old(outName[..]), old(outValue.v)))
    {
      rc := ParseText(UpToNul(line[..]), outName, outValue, unspecified);
    }

    /** The parser on the string at `line`. */
    method ParseText(s: seq<byte>, outName: array<byte>, outValue: IntCell, unspecified: int) returns (rc: int)
      requires buf.Length == LINE_MAX_LEN && outName != buf
      requires NUL !in s && |s| < LINE_MAX_LEN
      requires var o := Legacy(s, unspecified); o.Accepted? ==> |o.name| < outName.Length
      modifies this, buf, outName, outValue
      ensures var o := Legacy(s, unspecified);
              && rc == (if o.Accepted? then 1 else 0)
              && count == old(count) + rc
              && Outputs(outName[..], outValue.v) == Leave(o, Outputs(old(outName[..]), old(outValue.v)))
    {
      ghost var name := outName[..];
      CopyString(buf, LINE_MAX_LEN, s);
      assert outName[..] == name;
      var p := SkipSpace(buf, 0, s);
      rc := ParseFrom(p, SkipBlanks(s), outName, outValue, unspecified);
    }

    /** The rest of the parser, from the first byte of the name. */
    method ParseFrom(p: nat, ghost t: seq<byte>, outName: array<byte>, outValue: IntCell, unspecified: int)
      returns (rc: int)
      requires outName != buf && TextAt(buf[..], p, t)
      requires FirstEquals(t) < |t| ==> |TrimBlanks(t[..FirstEquals(t)])| < outName.Length
      modifies this, buf, outName, outValue
      ensures rc == (if FirstEquals(t) < |t| then 1 else 0) && count == old(count) + rc
      ensures rc == 0 ==> outName[..] == old(outName[..]) && outValue.v == old(outValue.v)
      ensures rc == 1 ==> outName[..] == Stored(old(outName[..]), TrimBlanks(t[..FirstEquals(t)]))
      ensures rc == 1 ==> outValue.v == LegacyValue(SkipBlanks(t[FirstEquals(t) + 1..]), unspecified)
    {
      var q := ScanToEquals(p, t);
      if buf[q] == NUL { return 0; }
      WriteRecord(p, q, t, outName, outValue, unspecified);
      count := count + 1;
      return 1;
    }

    /** The outputs, once the '=' is found. */
    method WriteRecord(p: nat, q: nat, ghost t: seq<byte>, outName: array<byte>, outValue: IntCell, unspecified: int)
      requires outName != buf && TextAt(buf[..], p, t) && p <= q < p + |t| && q - p == FirstEquals(t)
      requires |TrimBlanks(t[..q - p])| < outName.Length
      modifies buf, outName, outValue
      ensures outName[..] == Stored(old(outName[..]), TrimBlanks(t[..q - p]))
      ensures outValue.v == LegacyValue(SkipBlanks(t[q - p + 1..]), unspecified)
    {
      WriteName(p, q, t, outName);
      ghost var written := outName[..];
      outValue.v := ValueAfter(q + 1, t[q - p + 1..], unspecified);
      assert outName[..] == written;
    }

    method WriteName(p: nat, q: nat, ghost t: seq<byte>, outName: array<byte>)
      requires outName != buf && TextAt(buf[..], p, t) && p <= q < p + |t| && q - p == FirstEquals(t)
      requires |TrimBlanks(t[..q - p])| < outName.Length
      modifies buf, outName
      ensures outName[..] == Stored(old(outName[..]), TrimBlanks(t[..q - p]))
      ensures TextAt(buf[..], q + 1, t[q - p + 1..])
    {
      var name := TrimmedName(p, q, t);
      ghost var text := buf[..];
      CopyString(outName, outName.Length, name);
      assert buf[..] == text;
    }

    /** Blanks are skipped and atoi reads the number. */
    method ValueAfter(q: nat, ghost u: seq<byte>, unspecified: int) returns (value: int)
      requires TextAt(buf[..], q, u)
      ensures value == LegacyValue(SkipBlanks(u), unspecified)
    {
      var at := SkipSpace(buf, q, u);
      var text := StringAt(buf, at, SkipBlanks(u));
      value := LegacyValue(text, unspecified);
    }

    /** The loop that looks for '='. */
    method ScanToEquals(p: nat, ghost t: seq<byte>) returns (q: nat)
      requires TextAt(buf[..], p, t)
      ensures p <= q <= p + |t| && q - p == FirstEquals(t) && (buf[q] == NUL <==> q == p + |t|)
    {
      q := p;
      while buf[q] != EQUALS && buf[q] != NUL
        invariant p <= q <= p + |t| && EQUALS !in t[..q - p]
        decreases p + |t| - q
      {
        assert t[q - p] == buf[q];
        assert t[..q + 1 - p] == t[..q - p] + [t[q - p]];
        q := q + 1;
      }
      assert q < p + |t| ==> t[q - p] == buf[q];
      FirstAtUnique(t, EQUALS, q - p);
    }

    /** `*q = 0` and the trimming loop after it. */
    method TrimmedName(p: nat, q: nat, ghost t: seq<byte>) returns (name: seq<byte>)
      requires TextAt(buf[..], p, t) && p <= q < p + |t| && q - p == FirstEquals(t)
      modifies buf
      ensures name == TrimBlanks(t[..q - p]) && NUL !in name
      ensures TextAt(buf[..], q + 1, t[q - p + 1..])
    {
      SplitAt(buf[..], p, t, q - p);
      ghost var cut := buf[..][q := NUL];
      buf[q] := NUL;
      assert buf[..] == cut;
      TrimIndexed(p, q - p, t[..q - p]);
      TextKept(cut, buf[..], q + 1, t[q - p + 1..]);
      name := StringAt(buf, p, TrimBlanks(t[..q - p]));
    }

    /** The trimming loop, from i = strlen(p). */
    method TrimIndexed(p: nat, length: nat, ghost s: seq<byte>)
      requires TextAt(buf[..], p, s) && length == |s|
      modifies buf
      ensures TextAt(buf[..], p, TrimBlanks(s))
      ensures forall k :: p + length <= k < buf.Length ==> buf[k] == old(buf[k])
    {
      var i := length;
      assert s[..i] == s;
      while i > 0 && IsBlank(buf[p + i - 1])
        invariant i <= length && TextAt(buf[..], p, s[..i])
        invariant TrimBlanks(s[..i]) == TrimBlanks(s)
        invariant forall k :: p + length <= k < buf.Length ==> buf[k] == old(buf[k])
      {
        assert s[..i][i - 1] == buf[p + i - 1] && s[..i][..i - 1] == s[..i - 1];
        i := i - 1;
        buf[p + i] := NUL;
        assert forall j :: 0 <= j < i ==> s[..i][j] == s[..i + 1][j];
      }
      assert i > 0 ==> s[..i][i - 1] == buf[p + i - 1];
    }
  }
}
