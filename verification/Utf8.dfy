/** The UTF-8 routines of portable.c: counting characters and truncating without
    splitting one. Valid strings are those of section 4 of RFC 3629. */
module Utf8 {
  import opened Bytes

  /** `(b & 0xC0) == 0x80`: the two top bits are 10. */
  predicate IsTail(b: byte) { b / 0x40 == 2 }

  predicate Tails(s: seq<byte>, from: nat, to: nat) {
    to <= |s| && forall i :: from <= i < to ==> IsTail(s[i])
  }

  /** The length of the well-formed character a string starts with, 0 if there is none. */
  function CharLength(s: seq<byte>): (n: nat)
    ensures n <= |s| && n <= 4
    ensures n > 0 ==> !IsTail(s[0]) && Tails(s, 1, n)
  {
    if s == [] then 0
    else if s[0] <= 0x7F then 1
    else if |s| < 2 then 0
    else if 0xC2 <= s[0] <= 0xDF then (if Tails(s, 1, 2) then 2 else 0)
    else if |s| < 3 || !SecondFits(s[0], s[1]) then 0
    else if 0xE0 <= s[0] <= 0xEF then (if Tails(s, 1, 3) then 3 else 0)
    else if 0xF0 <= s[0] <= 0xF4 then (if Tails(s, 1, 4) then 4 else 0)
    else 0
  }

  /** The leads whose second byte is restricted: no overlong forms, no surrogates,
      nothing above U+10FFFF. */
  predicate SecondFits(lead: byte, second: byte) {
    if lead == 0xE0 then 0xA0 <= second <= 0xBF
    else if lead == 0xED then 0x80 <= second <= 0x9F
    else if lead == 0xF0 then 0x90 <= second <= 0xBF
    else if lead == 0xF4 then 0x80 <= second <= 0x8F
    else true
  }

  predicate Valid(s: seq<byte>) {
    s == [] || (CharLength(s) > 0 && Valid(s[CharLength(s)..]))
  }

  /** The number of characters of a valid string. */
  function Characters(s: seq<byte>): nat
    requires Valid(s)
  {
    if s == [] then 0 else 1 + Characters(s[CharLength(s)..])
  }

  /** What utf8_length counts: the bytes that are not tails. */
  function Leads(s: seq<byte>): nat {
    if s == [] then 0 else Leads(s[..|s| - 1]) + if IsTail(s[|s| - 1]) then 0 else 1
  }

  // ---------- the routines ----------

  /** strlen: what a C string is, in a buffer that holds its NUL. */
  method StrLen(s: array<byte>) returns (n: nat)
    requires NUL in s[..]
    ensures n == |UpToNul(s[..])|
  {
    n := 0;
    while s[n] != NUL
      invariant n < s.Length && NUL !in s[..n] && NUL in s[n..]
      decreases s.Length - n
    {
      assert s[n..] == [s[n]] + s[n + 1..];
      n := n + 1;
    }
    UpToNulUnique(s[..], n);
  }

  method Utf8Length(s: array<byte>) returns (chars: nat)
    requires NUL in s[..]
    ensures chars == Leads(UpToNul(s[..]))
  {
    chars := 0;
    var i := 0;
    while s[i] != NUL
      invariant i < s.Length && NUL !in s[..i] && NUL in s[i..]
      invariant chars == Leads(s[..i])
      decreases s.Length - i
    {
      assert s[i..] == [s[i]] + s[i + 1..];
      assert s[..i + 1][..i] == s[..i];
      if !IsTail(s[i]) { chars := chars + 1; }
      i := i + 1;
    }
    UpToNulUnique(s[..], i);
  }

  /** What the truncation is by its code: the last place at or before the limit that
      is not a tail, or 0. */
  ghost predicate IsCut(t: seq<byte>, limit: nat, cut: nat) {
    if |t| <= limit then cut == |t|
    else cut <= limit && Tails(t, cut + 1, limit + 1) && (cut == 0 || !IsTail(t[cut]))
  }

  method SafeTruncate(s: array<byte>, limit: nat) returns (cut: nat)
    requires NUL in s[..]
    ensures IsCut(UpToNul(s[..]), limit, cut)
  {
    var length := StrLen(s);
    if length <= limit { return length; }
    cut := limit;
    while cut > 0 && IsTail(s[cut])
      invariant cut <= limit && Tails(s[..], cut + 1, limit + 1)
    {
      cut := cut - 1;
    }
    ghost var t := UpToNul(s[..]);
    assert forall i :: 0 <= i < |t| ==> t[i] == s[i];
  }

  // ---------- what they mean on valid strings ----------

  /** A character is not shortened by what follows it or by cutting after it. */
  lemma CharStable(s: seq<byte>, k: nat)
    requires CharLength(s) > 0 && k <= |s|
    ensures k >= CharLength(s) ==> CharLength(s[..k]) == CharLength(s)
    ensures 0 < k < CharLength(s) ==> CharLength(s[..k]) == 0
  {
  }

  /** The boundaries of a valid string are its places that do not hold a tail: there
      and nowhere else it splits into two valid strings. */
  lemma {:induction false} Boundary(t: seq<byte>, k: nat)
    requires Valid(t) && k <= |t|
    ensures Valid(t[..k]) <==> k == |t| || !IsTail(t[k])
    ensures Valid(t[..k]) ==> Valid(t[k..])
    decreases |t|
  {
    if t == [] || k == 0 {
      assert t[..k] == [] && t[k..] == t;
    } else {
      var n := CharLength(t);
      CharStable(t, k);
      if k >= n {
        assert t[..k][n..] == t[n..][..k - n];
        assert t[k..] == t[n..][k - n..];
        Boundary(t[n..], k - n);
      }
    }
  }

  /** utf8_safe_truncate on a valid string: the cut is within the limit, splits the
      string into two valid ones, and no longer valid prefix fits. */
  lemma TruncateIsLongest(t: seq<byte>, limit: nat, cut: nat)
    requires Valid(t) && IsCut(t, limit, cut)
    ensures cut <= limit && cut <= |t|
    ensures Valid(t[..cut]) && Valid(t[cut..])
    ensures forall k :: cut < k <= limit && k <= |t| ==> !Valid(t[..k])
  {
    Boundary(t, cut);
    forall k | cut < k <= limit && k <= |t| ensures !Valid(t[..k]) {
      Boundary(t, k);
    }
  }

  lemma {:induction false} LeadsConcat(a: seq<byte>, b: seq<byte>)
    ensures Leads(a + b) == Leads(a) + Leads(b)
    decreases |b|
  {
    if b == [] {
      assert a + b == a;
    } else {
      assert (a + b)[..|a + b| - 1] == a + b[..|b| - 1];
      LeadsConcat(a, b[..|b| - 1]);
    }
  }

  lemma {:induction false} TailsHaveNoLeads(s: seq<byte>)
    requires Tails(s, 0, |s|)
    ensures Leads(s) == 0
  {
    if s != [] { TailsHaveNoLeads(s[..|s| - 1]); }
  }

  /** utf8_length counts the characters of a valid string. */
  lemma {:induction false} LengthCountsCharacters(t: seq<byte>)
    requires Valid(t)
    ensures Leads(t) == Characters(t)
    decreases |t|
  {
    if t != [] {
      var n := CharLength(t);
      LengthCountsCharacters(t[n..]);
      TailsHaveNoLeads(t[1..n]);
      assert t == [t[0]] + t[1..n] + t[n..];
      LeadsConcat([t[0]] + t[1..n], t[n..]);
      LeadsConcat([t[0]], t[1..n]);
      assert Leads([t[0]]) == 1 by { assert [t[0]][..0] == []; }
    }
  }

  // ---------- strings as code points ----------

  /** The code points UTF-8 encodes: up to U+10FFFF, without the surrogates. */
  predicate IsScalar(c: nat) { c < 0x110000 && !(0xD800 <= c < 0xE000) }

  predicate Scalars(cs: seq<nat>) { forall i :: 0 <= i < |cs| ==> IsScalar(cs[i]) }

  /** A tail carries the six low bits. */
  function TailOf(c: nat): (b: byte)
    ensures 0x80 <= b <= 0xBF && b as nat == 0x80 + c % 0x40
  {
    (0x80 + c % 0x40) as byte
  }

  /** The table of section 3 of RFC 3629. */
  function EncodeOne(c: nat): (s: seq<byte>)
    requires IsScalar(c)
    ensures 1 <= |s| <= 4
  {
    var high := c / 0x40;
    var higher := high / 0x40;
    if c < 0x80 then [c as byte]
    else if c < 0x800 then [(0xC0 + high) as byte, TailOf(c)]
    else if c < 0x10000 then [(0xE0 + higher) as byte, TailOf(high), TailOf(c)]
    else [(0xF0 + higher / 0x40) as byte, TailOf(higher), TailOf(high), TailOf(c)]
  }

  function Encoded(cs: seq<nat>): seq<byte>
    requires Scalars(cs)
  {
    if cs == [] then [] else EncodeOne(cs[0]) + Encoded(cs[1..])
  }

  /** The second byte of a longer character is in the range its lead allows. */
  lemma SecondInRange(c: nat)
    requires IsScalar(c) && c >= 0x800
    ensures c < 0x10000 ==> SecondFits((0xE0 + c / 0x40 / 0x40) as byte, TailOf(c / 0x40))
    ensures c >= 0x10000 ==> SecondFits((0xF0 + c / 0x40 / 0x40 / 0x40) as byte, TailOf(c / 0x40 / 0x40))
  {
  }

  lemma OneCharacter(c: nat, rest: seq<byte>)
    requires IsScalar(c)
    ensures CharLength(EncodeOne(c) + rest) == |EncodeOne(c)|
  {
    var s := EncodeOne(c) + rest;
    assert forall i :: 0 <= i < |EncodeOne(c)| ==> s[i] == EncodeOne(c)[i];
    if c >= 0x800 { SecondInRange(c); }
    assert c >= 0x80 ==> Tails(s, 1, |EncodeOne(c)|);
  }

  /** The encoding of any code points is a valid string of as many characters. */
  lemma {:induction false} EncodedIsValid(cs: seq<nat>)
    requires Scalars(cs)
    ensures Valid(Encoded(cs)) && Characters(Encoded(cs)) == |cs|
    decreases |cs|
  {
    if cs != [] {
      OneCharacter(cs[0], Encoded(cs[1..]));
      EncodedIsValid(cs[1..]);
      assert Encoded(cs)[|EncodeOne(cs[0])|..] == Encoded(cs[1..]);
    }
  }

  /** A number with one more tail. */
  function Extend(high: nat, tail: byte): (c: nat)
    requires 0x80 <= tail <= 0xBF
    ensures c / 0x40 == high && TailOf(c) == tail
  {
    high * 0x40 + (tail as nat - 0x80)
  }

  /** The code point of the character a string starts with. */
  function DecodeOne(s: seq<byte>): (c: nat)
    requires CharLength(s) > 0
  {
    var n := CharLength(s);
    assert Tails(s, 1, n);
    if n == 1 then s[0] as nat
    else if n == 2 then Extend(s[0] as nat - 0xC0, s[1])
    else if n == 3 then Extend(Extend(s[0] as nat - 0xE0, s[1]), s[2])
    else Extend(Extend(Extend(s[0] as nat - 0xF0, s[1]), s[2]), s[3])
  }

  lemma DecodedTwo(lead: byte, a: byte)
    requires 0xC2 <= lead <= 0xDF && 0x80 <= a <= 0xBF
    ensures var c := Extend(lead as nat - 0xC0, a); IsScalar(c) && EncodeOne(c) == [lead, a]
  {
  }

  lemma DecodedThree(lead: byte, a: byte, b: byte)
    requires 0xE0 <= lead <= 0xEF && SecondFits(lead, a) && 0x80 <= a <= 0xBF && 0x80 <= b <= 0xBF
    ensures var c := Extend(Extend(lead as nat - 0xE0, a), b); IsScalar(c) && EncodeOne(c) == [lead, a, b]
  {
  }

  lemma DecodedFour(lead: byte, a: byte, b: byte, d: byte)
    requires 0xF0 <= lead <= 0xF4 && SecondFits(lead, a)
    requires 0x80 <= a <= 0xBF && 0x80 <= b <= 0xBF && 0x80 <= d <= 0xBF
    ensures var c := Extend(Extend(Extend(lead as nat - 0xF0, a), b), d);
            IsScalar(c) && EncodeOne(c) == [lead, a, b, d]
  {
  }

  lemma DecodedOne(s: seq<byte>)
    requires CharLength(s) > 0
    ensures IsScalar(DecodeOne(s)) && EncodeOne(DecodeOne(s)) == s[..CharLength(s)]
  {
    var n := CharLength(s);
    assert Tails(s, 1, n);
    if n == 2 {
      DecodedTwo(s[0], s[1]);
    } else if n == 3 {
      DecodedThree(s[0], s[1], s[2]);
    } else if n == 4 {
      DecodedFour(s[0], s[1], s[2], s[3]);
    }
  }

  /** Every valid string is the encoding of some code points. */
  lemma {:induction false} ValidIsEncoded(t: seq<byte>) returns (cs: seq<nat>)
    requires Valid(t)
    ensures Scalars(cs) && t == Encoded(cs)
    decreases |t|
  {
    if t == [] {
      cs := [];
    } else {
      var n := CharLength(t);
      DecodedOne(t);
      var rest := ValidIsEncoded(t[n..]);
      cs := [DecodeOne(t)] + rest;
      EncodedFirst(DecodeOne(t), rest);
      assert t == t[..n] + t[n..];
    }
  }

  lemma EncodedFirst(c: nat, rest: seq<nat>)
    requires IsScalar(c) && Scalars(rest)
    ensures Scalars([c] + rest) && Encoded([c] + rest) == EncodeOne(c) + Encoded(rest)
  {
    assert ([c] + rest)[1..] == rest;
  }

  /** A valid prefix of an encoding is the encoding of a prefix. */
  lemma {:induction false} PrefixEncoded(cs: seq<nat>, n: nat) returns (k: nat)
    requires Scalars(cs) && n <= |Encoded(cs)| && Valid(Encoded(cs)[..n])
    ensures k <= |cs| && Encoded(cs[..k]) == Encoded(cs)[..n]
    decreases |cs|
  {
    if n == 0 {
      k := 0;
    } else {
      var one, rest := EncodeOne(cs[0]), Encoded(cs[1..]);
      OneCharacter(cs[0], rest);
      CharStable(Encoded(cs), n);
      assert Encoded(cs)[..n][|one|..] == rest[..n - |one|];
      var m := PrefixEncoded(cs[1..], n - |one|);
      k := m + 1;
      assert cs[..k][1..] == cs[1..][..m];
    }
  }

  /** On code points: utf8_length gives their number, and utf8_safe_truncate keeps as many
      of the first ones as fit. */
  lemma TruncateCodePoints(cs: seq<nat>, limit: nat, cut: nat) returns (k: nat)
    requires Scalars(cs) && IsCut(Encoded(cs), limit, cut)
    ensures Leads(Encoded(cs)) == |cs|
    ensures k <= |cs| && cut <= |Encoded(cs)| && Encoded(cs)[..cut] == Encoded(cs[..k]) && |Encoded(cs[..k])| <= limit
    ensures forall m :: k < m <= |cs| ==> |Encoded(cs[..m])| > limit
  {
    EncodedIsValid(cs);
    LengthCountsCharacters(Encoded(cs));
    TruncateIsLongest(Encoded(cs), limit, cut);
    k := PrefixEncoded(cs, cut);
    forall m | k < m <= |cs| ensures |Encoded(cs[..m])| > limit { NoMoreFits(cs, limit, cut, k, m); }
  }

  lemma NoMoreFits(cs: seq<nat>, limit: nat, cut: nat, k: nat, m: nat)
    requires Scalars(cs) && k < m <= |cs| && |Encoded(cs[..k])| == cut
    requires forall n :: cut < n <= limit && n <= |Encoded(cs)| ==> !Valid(Encoded(cs)[..n])
    ensures |Encoded(cs[..m])| > limit
  {
    var n := |Encoded(cs[..m])|;
    EncodedPrefix(cs, m);
    EncodedGrows(cs[..m], k);
    assert cs[..m][..k] == cs[..k];
    EncodedIsValid(cs[..m]);
    assert Encoded(cs)[..n] == Encoded(cs[..m]);
  }

  lemma {:induction false} EncodedPrefix(cs: seq<nat>, m: nat)
    requires Scalars(cs) && m <= |cs|
    ensures Encoded(cs[..m]) <= Encoded(cs)
    decreases |cs|
  {
    if m > 0 {
      assert cs[..m][1..] == cs[1..][..m - 1];
      EncodedPrefix(cs[1..], m - 1);
    }
  }

  lemma {:induction false} EncodedGrows(cs: seq<nat>, k: nat)
    requires Scalars(cs) && k < |cs|
    ensures |Encoded(cs[..k])| < |Encoded(cs)|
    decreases |cs|
  {
    if k > 0 {
      assert cs[..k][1..] == cs[1..][..k - 1];
      EncodedGrows(cs[1..], k - 1);
    }
  }

  lemma LeadsSplit(t: seq<byte>, k: nat)
    requires k <= |t|
    ensures Leads(t[..k]) + Leads(t[k..]) == Leads(t)
  {
    assert t == t[..k] + t[k..];
    LeadsConcat(t[..k], t[k..]);
  }

  /** No character is lost or split: prefix and rest have the characters of the whole. */
  lemma TruncateKeepsCharacters(t: seq<byte>, limit: nat, cut: nat)
    requires Valid(t) && IsCut(t, limit, cut)
    ensures cut <= |t| && Valid(t[..cut]) && Valid(t[cut..])
    ensures Leads(t[..cut]) + Leads(t[cut..]) == Leads(t)
    ensures Characters(t[..cut]) + Characters(t[cut..]) == Characters(t)
  {
    TruncateIsLongest(t, limit, cut);
    LeadsSplit(t, cut);
    LengthCountsCharacters(t);
    LengthCountsCharacters(t[..cut]);
    LengthCountsCharacters(t[cut..]);
  }
}
