/** The wire codec of portable.c: records as 52 bytes, big-endian, on every machine. */
module WireCodec {
  import opened Bytes
  import opened Wrappers

  const NAME_BYTES: nat := 32
  const WIRE_SIZE: nat := 52
  const WIRE_VERSION: nat := 1

  type Name = s: seq<byte> | |s| == NAME_BYTES witness seq(NAME_BYTES, _ => 0)

  datatype Record = Record(id: nat, score: nat, timestamp: nat, name: Name) {
    /** The fields fit their C types. */
    predicate Valid() { id < Pow256(4) && score < Pow256(2) && timestamp < Pow256(8) }
  }

  function Pow256(n: nat): (p: nat)
    ensures p > 0
  {
    if n == 0 then 1 else 0x100 * Pow256(n - 1)
  }

  // ---------- big-endian numbers ----------

  /** The n low bytes of v, most significant first. */
  function BigEndian(v: nat, n: nat): (s: seq<byte>)
    ensures |s| == n
  {
    if n == 0 then [] else BigEndian(v / 0x100, n - 1) + [(v % 0x100) as byte]
  }

  function Number(s: seq<byte>): nat {
    if s == [] then 0 else Number(s[..|s| - 1]) * 0x100 + s[|s| - 1] as nat
  }

  /** `v >> 8 * bytes` */
  function ShiftRight(v: nat, bytes: nat): nat {
    if bytes == 0 then v else ShiftRight(v / 0x100, bytes - 1)
  }

  /** Each byte is the shifted number cut to 8 bits, as the store functions compute it. */
  lemma {:induction false} BigEndianByte(v: nat, n: nat, i: nat)
    requires i < n
    ensures BigEndian(v, n)[i] as nat == ShiftRight(v, n - 1 - i) % 0x100
    decreases n
  {
    if i < n - 1 { BigEndianByte(v / 0x100, n - 1, i); }
  }

  /** Loading a number that was stored gives the same number. */
  lemma {:induction false} LoadStored(v: nat, n: nat)
    requires v < Pow256(n)
    ensures Number(BigEndian(v, n)) == v
    decreases n
  {
    if n > 0 {
      LoadStored(v / 0x100, n - 1);
      assert BigEndian(v, n)[..n - 1] == BigEndian(v / 0x100, n - 1);
    }
  }

  /** Most significant first: byte i is the digit of weight 256^(n - 1 - i). */
  lemma {:induction false} BigEndianPlace(v: nat, n: nat, i: nat)
    requires i < n
    ensures BigEndian(v, n)[i] as nat == v / Pow256(n - 1 - i) % 0x100
    decreases n
  {
    if i < n - 1 {
      BigEndianPlace(v / 0x100, n - 1, i);
      DivDiv(v, Pow256(n - 2 - i));
    }
  }

  lemma DivDiv(v: nat, p: nat)
    requires p > 0
    ensures v / 0x100 / p == v / (0x100 * p)
  {
    var q := v / 0x100 / p;
    var r := v / 0x100 % p * 0x100 + v % 0x100;
    assert v == 0x100 * (p * q + v / 0x100 % p) + v % 0x100;
    assert v == 0x100 * p * q + r;
    assert r <= (p - 1) * 0x100 + 0xFF;
    QuotientIs(v, 0x100 * p, q, r);
  }

  lemma QuotientIs(v: nat, d: nat, q: nat, r: nat)
    requires d > 0 && v == d * q + r && r < d
    ensures v / d == q
  {
    assert d * (v / d - q) == r - v % d;
    AtLeastOnce(d, v / d - q);
  }

  lemma AtLeastOnce(d: int, k: int)
    requires d > 0
    ensures k >= 1 ==> d * k >= d
    ensures k <= -1 ==> d * k <= -d
  {
  }

  /** Storing a number that was loaded gives the same bytes. */
  lemma {:induction false} StoreLoaded(s: seq<byte>)
    ensures Number(s) < Pow256(|s|)
    ensures BigEndian(Number(s), |s|) == s
  {
    if s != [] { StoreLoaded(s[..|s| - 1]); }
  }

  lemma NumberStep(s: seq<byte>, n: nat)
    requires n < |s|
    ensures Number(s[..n + 1]) == Number(s[..n]) * 0x100 + s[n] as nat
    ensures n + 1 == |s| ==> s[..n + 1] == s
  {
    assert s[..n + 1][..n] == s[..n];
  }

  // ---------- the accessors on buffers ----------

  method StoreBe16(out: array<byte>, at: nat, v: nat)
    requires at + 2 <= out.Length
    modifies out
    ensures out[..] == old(out[..at]) + BigEndian(v, 2) + old(out[at + 2..])
  {
    forall i | 0 <= i < 2 ensures BigEndian(v, 2)[i] as nat == ShiftRight(v, 1 - i) % 0x100 { BigEndianByte(v, 2, i); }
    out[at] := (ShiftRight(v, 1) % 0x100) as byte;
    out[at + 1] := (v % 0x100) as byte;
  }

  method StoreBe32(out: array<byte>, at: nat, v: nat)
    requires at + 4 <= out.Length
    modifies out
    ensures out[..] == old(out[..at]) + BigEndian(v, 4) + old(out[at + 4..])
  {
    forall i | 0 <= i < 4 ensures BigEndian(v, 4)[i] as nat == ShiftRight(v, 3 - i) % 0x100 { BigEndianByte(v, 4, i); }
    out[at] := (ShiftRight(v, 3) % 0x100) as byte;
    out[at + 1] := (ShiftRight(v, 2) % 0x100) as byte;
    out[at + 2] := (ShiftRight(v, 1) % 0x100) as byte;
    out[at + 3] := (v % 0x100) as byte;
  }

  method StoreBe64(out: array<byte>, at: nat, v: nat)
    requires at + 8 <= out.Length
    modifies out
    ensures out[..] == old(out[..at]) + BigEndian(v, 8) + old(out[at + 8..])
  {
    for i := 0 to 8
      invariant forall k :: 0 <= k < i ==> out[at + k] == BigEndian(v, 8)[k]
      invariant forall k :: 0 <= k < out.Length && !(at <= k < at + i) ==> out[k] == old(out[k])
    {
      BigEndianByte(v, 8, i);
      out[at + i] := (ShiftRight(v, 7 - i) % 0x100) as byte;
    }
    assert out[at..at + 8] == BigEndian(v, 8);
  }

  function LoadBe16(bytes: seq<byte>): (v: nat)
    requires |bytes| == 2
    ensures v == Number(bytes)
  {
    NumberStep(bytes, 0); NumberStep(bytes, 1);
    bytes[0] as nat * 0x100 + bytes[1] as nat
  }

  function LoadBe32(bytes: seq<byte>): (v: nat)
    requires |bytes| == 4
    ensures v == Number(bytes)
  {
    NumberStep(bytes, 0); NumberStep(bytes, 1); NumberStep(bytes, 2); NumberStep(bytes, 3);
    bytes[0] as nat * 0x100_0000 + bytes[1] as nat * 0x1_0000 + bytes[2] as nat * 0x100 + bytes[3] as nat
  }

  method LoadBe64(bytes: array<byte>, at: nat) returns (v: nat)
    requires at + 8 <= bytes.Length
    ensures v == Number(bytes[at..at + 8])
  {
    v := 0;
    for i := 0 to 8
      invariant v == Number(bytes[at..at + i])
    {
      assert bytes[at..at + i + 1][..i] == bytes[at..at + i];
      v := v * 0x100 + bytes[at + i] as nat;
    }
  }

  // ---------- the codec ----------

  const MAGIC: seq<byte> := Ascii("CREC")

  function Zeros(n: nat): (z: seq<byte>) { seq(n, _ => NUL) }

  /** The name as sent: its C string, padded with NULs. */
  function Padded(name: Name): Name {
    UpToNul(name) + Zeros(NAME_BYTES - |UpToNul(name)|)
  }

  function Encode(r: Record): (wire: seq<byte>)
    ensures |wire| == WIRE_SIZE
  {
    MAGIC + BigEndian(WIRE_VERSION, 2) + BigEndian(r.id, 4) + BigEndian(r.score, 2)
    + BigEndian(r.timestamp, 8) + Padded(r.name)
  }

  function Decode(wire: seq<byte>): (r: Option<Record>)
    requires |wire| == WIRE_SIZE
  {
    if wire[..4] != MAGIC || Number(wire[4..6]) != WIRE_VERSION then None
    else Some(Record(Number(wire[6..10]), Number(wire[10..12]), Number(wire[12..20]),
                     wire[20..51] + [NUL]))
  }

  /** record_encode, into a caller's buffer. */
  method RecordEncode(r: Record, out: array<byte>)
    requires r.Valid() && out.Length == WIRE_SIZE
    modifies out
    ensures out[..] == Encode(r)
  {
    for i := 0 to 4
      invariant forall k :: 0 <= k < i ==> out[k] == MAGIC[k]
    {
      out[i] := MAGIC[i];
    }
    assert out[..4] == MAGIC;
    StoreBe16(out, 4, WIRE_VERSION);
    assert out[..6] == MAGIC + BigEndian(WIRE_VERSION, 2);
    StoreBe32(out, 6, r.id);
    assert out[..10] == MAGIC + BigEndian(WIRE_VERSION, 2) + BigEndian(r.id, 4);
    StoreBe16(out, 10, r.score);
    assert out[..12] == MAGIC + BigEndian(WIRE_VERSION, 2) + BigEndian(r.id, 4) + BigEndian(r.score, 2);
    StoreBe64(out, 12, r.timestamp);
    ghost var front := out[..20];
    assert front == MAGIC + BigEndian(WIRE_VERSION, 2) + BigEndian(r.id, 4) + BigEndian(r.score, 2)
                    + BigEndian(r.timestamp, 8);
    CopyName(r.name, out);
    assert out[..] == out[..20] + out[20..];
  }

  /** The memset and memcpy of the name field. */
  method CopyName(name: Name, out: array<byte>)
    requires out.Length == WIRE_SIZE
    modifies out
    ensures out[..20] == old(out[..20]) && out[20..] == Padded(name)
  {
    for i := 20 to WIRE_SIZE
      invariant forall k :: 0 <= k < 20 ==> out[k] == old(out[k])
      invariant forall k :: 20 <= k < i ==> out[k] == NUL
    {
      out[i] := NUL;
    }
    var s := UpToNul(name);
    for i := 0 to |s|
      invariant forall k :: 0 <= k < 20 ==> out[k] == old(out[k])
      invariant forall k :: 20 <= k < WIRE_SIZE ==> out[k] == if k - 20 < i then s[k - 20] else NUL
    {
      out[20 + i] := s[i];
    }
    assert forall k :: 0 <= k < |s| ==> out[20..][k] == s[k];
    assert out[20..] == s + Zeros(NAME_BYTES - |s|);
  }

  /** record_decode; the record is left alone when the message is refused. */
  method RecordDecode(wire: array<byte>) returns (r: Option<Record>)
    requires wire.Length == WIRE_SIZE
    ensures r == Decode(wire[..])
  {
    if wire[..4] != MAGIC { return None; }
    var version := LoadBe16(wire[4..6]);
    if version != WIRE_VERSION { return None; }
    var id, score := LoadBe32(wire[6..10]), LoadBe16(wire[10..12]);
    var timestamp := LoadBe64(wire, 12);
    assert wire[..][..4] == wire[..4] && wire[..][4..6] == wire[4..6] && wire[..][6..10] == wire[6..10];
    assert wire[..][10..12] == wire[10..12] && wire[..][12..20] == wire[12..20] && wire[..][20..51] == wire[20..51];
    return Some(Record(id, score, timestamp, wire[20..51] + [NUL]));
  }

  // ---------- round trips ----------

  lemma EncodeFields(r: Record)
    ensures var w := Encode(r);
            && w[..4] == MAGIC && w[4..6] == BigEndian(WIRE_VERSION, 2) && w[6..10] == BigEndian(r.id, 4)
            && w[10..12] == BigEndian(r.score, 2) && w[12..20] == BigEndian(r.timestamp, 8)
            && w[20..] == Padded(r.name)
  {
  }

  /** A field holds a number, most significant byte first. */
  predicate Holds(field: seq<byte>, v: nat) {
    forall i :: 0 <= i < |field| ==> field[i] as nat == v / Pow256(|field| - 1 - i) % 0x100
  }

  lemma BigEndianHolds(v: nat, n: nat)
    ensures Holds(BigEndian(v, n), v)
  {
    forall i | 0 <= i < n ensures BigEndian(v, n)[i] as nat == v / Pow256(n - 1 - i) % 0x100 {
      BigEndianPlace(v, n, i);
    }
  }

  /** The 52 bytes, place by place. */
  lemma WireLayout(r: Record)
    requires r.Valid()
    ensures var w := Encode(r);
            && w[..4] == [67, 82, 69, 67] && Holds(w[4..6], 1)
            && Holds(w[6..10], r.id) && Holds(w[10..12], r.score) && Holds(w[12..20], r.timestamp)
            && forall i :: 0 <= i < 32 ==> w[20..][i] == if i < |UpToNul(r.name)| then r.name[i] else NUL
  {
    EncodeFields(r);
    BigEndianHolds(1, 2);
    BigEndianHolds(r.id, 4);
    BigEndianHolds(r.score, 2);
    BigEndianHolds(r.timestamp, 8);
  }

  /** A message is refused exactly for its first six bytes, whatever the others are. */
  lemma RefusedIff(wire: seq<byte>)
    requires |wire| == WIRE_SIZE
    ensures Decode(wire).None? <==> wire[..6] != [67, 82, 69, 67, 0, 1]
  {
    NumberStep(wire[4..6], 0);
    NumberStep(wire[4..6], 1);
    assert wire[..6] == wire[..4] + wire[4..6];
    assert wire[4..6] == [wire[4], wire[5]];
    if wire[..6] == [67, 82, 69, 67, 0, 1] { assert wire[..6][..4] == wire[..4] == MAGIC; }
  }

  /** What the name's C string becomes on the way: all but a 32nd byte, which the
      decoder overwrites with the terminator. */
  function Carried(name: Name): seq<byte> {
    var s := UpToNul(name);
    if |s| == NAME_BYTES then s[..NAME_BYTES - 1] else s
  }

  lemma CarriedName(name: Name)
    ensures UpToNul(Padded(name)[..NAME_BYTES - 1] + [NUL]) == Carried(name)
  {
    var s, c := Padded(name)[..NAME_BYTES - 1] + [NUL], Carried(name);
    assert s[..|c|] == c;
    UpToNulUnique(s, |c|);
  }

  /** Decoding an encoded record restores every number, and the name string exactly
      when the name field is NUL-terminated. */
  lemma DecodeEncode(r: Record)
    requires r.Valid()
    ensures Decode(Encode(r)).Some?
    ensures var d := Decode(Encode(r)).value;
            && d.id == r.id && d.score == r.score && d.timestamp == r.timestamp
            && UpToNul(d.name) == Carried(r.name)
            && (UpToNul(d.name) == UpToNul(r.name) <==> NUL in r.name)
  {
    var w := Encode(r);
    EncodeFields(r);
    LoadStored(WIRE_VERSION, 2);
    LoadStored(r.id, 4);
    LoadStored(r.score, 2);
    LoadStored(r.timestamp, 8);
    assert w[20..51] == w[20..][..NAME_BYTES - 1];
    CarriedName(r.name);
    if NUL in r.name { UpToNulShort(r.name); }
    if NUL !in r.name { UpToNulUnique(r.name, NAME_BYTES); }
  }

  /** A name that fills its field loses its last byte. */
  lemma FullNameIsCut()
    ensures exists r: Record :: r.Valid() && Decode(Encode(r)).Some?
                                && UpToNul(Decode(Encode(r)).value.name) != UpToNul(r.name)
  {
    var name: Name := seq(NAME_BYTES, _ => 65);
    var r := Record(0, 0, 0, name);
    DecodeEncode(r);
    assert NUL !in name;
  }

  /** NUL-terminated, and nothing but NULs after the string. */
  predicate Canonical(name: Name) { NUL in name && name == Padded(name) }

  lemma WireFields(wire: seq<byte>)
    requires |wire| == WIRE_SIZE
    ensures wire == wire[..4] + wire[4..6] + wire[6..10] + wire[10..12] + wire[12..20] + wire[20..52]
  {
  }

  /** Re-encoding an accepted message gives the same 52 bytes exactly when its name
      field is NUL-terminated and NUL-padded. */
  lemma EncodeDecode(wire: seq<byte>)
    requires |wire| == WIRE_SIZE && Decode(wire).Some?
    ensures Decode(wire).value.Valid()
    ensures Encode(Decode(wire).value) == wire <==> Canonical(wire[20..52])
  {
    var r := Decode(wire).value;
    StoreLoaded(wire[4..6]);
    StoreLoaded(wire[6..10]);
    StoreLoaded(wire[10..12]);
    StoreLoaded(wire[12..20]);
    WireFields(wire);
    var name: Name := wire[20..52];
    NameSurvives(name);
    assert r.name == name[..NAME_BYTES - 1] + [NUL];
    assert Encode(r) == wire[..20] + Padded(r.name);
    assert wire == wire[..20] + name;
    if Encode(r) == wire { assert Encode(r)[20..] == wire[20..]; }
  }

  lemma OtherName(wire: seq<byte>, name: Name)
    requires |wire| == WIRE_SIZE && Decode(wire).Some?
    ensures var w := wire[..20] + name; |w| == WIRE_SIZE && w[20..52] == name && Decode(w).Some?
  {
    var w := wire[..20] + name;
    assert w[..4] == wire[..4] && w[4..6] == wire[4..6];
  }

  /** It fails for an accepted message whose name field holds a NUL, an 'A', and NULs. */
  lemma NotReencoded()
    ensures exists wire: seq<byte> ::
              |wire| == WIRE_SIZE && wire[20..52] == [NUL, 65] + Zeros(30)
              && Decode(wire).Some? && Encode(Decode(wire).value) != wire
  {
    var r, name: Name := Record(0, 0, 0, Zeros(NAME_BYTES)), [NUL, 65] + Zeros(30);
    DecodeEncode(r);
    OtherName(Encode(r), name);
    EncodeDecode(Encode(r)[..20] + name);
    UpToNulUnique(name, 0);
    assert Padded(name)[1] == NUL;
  }

  lemma NameSurvives(name: Name)
    ensures Padded(name[..NAME_BYTES - 1] + [NUL]) == name <==> Canonical(name)
  {
    var cut: Name := name[..NAME_BYTES - 1] + [NUL];
    var s := UpToNul(cut);
    if Canonical(name) {
      UpToNulShort(name);
      assert cut == name;
    }
    if Padded(cut) == name {
      UpToNulShort(cut);
      assert Padded(cut)[NAME_BYTES - 1] == NUL;
      assert cut == name;
    }
  }
}
