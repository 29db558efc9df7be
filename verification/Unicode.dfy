/** The UTF-8 and UTF-16 converters of deprecated/android/jni/Unicode.cpp, and their round trips
    against the encodings of section 3 of RFC 3629 and sections 2.1 and 2.2 of RFC 2781. */
module Unicode {

  // ---------------------------------------------------------------- one code point to UTF-8

  /** `utf32_codepoint_utf8_length`: 0 for a surrogate and above U+10FFFF. */
  function Utf8Length(c: bv32): (r: nat)
    ensures r <= 4
  {
    if c < 0x80 then 1
    else if c < 0x800 then 2
    else if c < 0x10000 then (if c < 0xD800 || c > 0xDFFF then 3 else 0)
    else if c <= 0x10FFFF then 4
    else 0
  }

  function Tail(c: bv32): bv8 {
    ((c | 0x80) & 0xBF) as bv8
  }

  function Lead(c: bv32, mark: bv32): bv8 {
    ((c | mark) & 0xFF) as bv8
  }

  /** `utf32_codepoint_to_utf8`, the bytes front to back. */
  function Encode(c: bv32): (r: seq<bv8>)
    ensures |r| == Utf8Length(c)
  {
    match Utf8Length(c)
    case 1 => [Lead(c, 0)]
    case 2 => [Lead(c >> 6, 0xC0), Tail(c)]
    case 3 => [Lead(c >> 12, 0xE0), Tail(c >> 6), Tail(c)]
    case 4 => [Lead(c >> 18, 0xF0), Tail(c >> 12), Tail(c >> 6), Tail(c)]
    case _ => []
  }

  // ---------------------------------------------------------------- UTF-8 to one code point

  function LengthBits(ch: bv8): bv32 {
    (0xe5000000 >> ((ch >> 3) & 0x1e)) & 3
  }

  /** `utf8_codepoint_len`. */
  function LeadLength(ch: bv8): (r: nat)
    ensures 1 <= r <= 4
  {
    match LengthBits(ch)
    case 0 => 1
    case 1 => 2
    case 2 => 3
    case _ => 4
  }

  function ShiftAndMask(c: bv32, b: bv8): bv32 {
    (c << 6) | ((0x3F & b) as bv32)
  }

  function Masked(b: bv8, mask: bv8): bv32 {
    (b & mask) as bv32
  }

  /** `utf8_to_utf32_codepoint`, with the length its callers pass. */
  function Decode(s: seq<bv8>): bv32
    requires s != [] && LeadLength(s[0]) <= |s|
  {
    match LeadLength(s[0])
    case 1 => s[0] as bv32
    case 2 => ShiftAndMask(Masked(s[0], 0x1f), s[1])
    case 3 => ShiftAndMask(ShiftAndMask(Masked(s[0], 0x0f), s[1]), s[2])
    case _ => ShiftAndMask(ShiftAndMask(ShiftAndMask(Masked(s[0], 0x07), s[1]), s[2]), s[3])
  }

  lemma LeadLengthIs(ch: bv8)
    ensures LeadLength(ch) == if ch < 0xC0 then 1 else if ch < 0xE0 then 2 else if ch < 0xF0 then 3 else 4
  {
  }

  // ---------------------------------------------------------------- well-formed text

  /** A Unicode scalar value. */
  predicate Scalar(c: bv32) {
    c < 0xD800 || 0xDFFF < c <= 0x10FFFF
  }

  predicate High(u: bv16) {
    u & 0xFC00 == 0xD800
  }

  predicate Low(u: bv16) {
    u & 0xFC00 == 0xDC00
  }

  predicate IsTail(b: bv8) {
    0x80 <= b <= 0xBF
  }

  predicate Tails(s: seq<bv8>, n: nat) {
    n <= |s| && forall i :: 1 <= i < n ==> IsTail(s[i])
  }

  /** What may follow a lead byte, as the syntax of section 4 of RFC 3629 has it. */
  predicate Follows(lead: bv8, second: bv8) {
    && (lead == 0xE0 ==> 0xA0 <= second)
    && (lead == 0xED ==> second <= 0x9F)
    && (lead == 0xF0 ==> 0x90 <= second)
    && (lead == 0xF4 ==> second <= 0x8F)
  }

  /** The length of the well-formed UTF-8 sequence that the bytes begin with, 0 if there is none. */
  function SequenceLength(s: seq<bv8>): (r: nat)
    ensures r <= |s| && r <= 4
  {
    if s == [] then 0
    else if s[0] <= 0x7F then 1
    else if 0xC2 <= s[0] <= 0xDF && Tails(s, 2) then 2
    else if 0xE0 <= s[0] <= 0xEF && Tails(s, 3) && Follows(s[0], s[1]) then 3
    else if 0xF0 <= s[0] <= 0xF4 && Tails(s, 4) && Follows(s[0], s[1]) then 4
    else 0
  }

  predicate WellFormed8(s: seq<bv8>) {
    s == [] || (SequenceLength(s) > 0 && WellFormed8(s[SequenceLength(s)..]))
  }

  predicate WellFormed16(s: seq<bv16>) {
    || s == []
    || (if High(s[0]) then |s| > 1 && Low(s[1]) && WellFormed16(s[2..]) else !Low(s[0]) && WellFormed16(s[1..]))
  }

  // ---------------------------------------------------------------- one code point in UTF-16

  function Unit(c: bv32): bv16 {
    (c & 0xFFFF) as bv16
  }

  /** The one or two units `utf8_to_utf16_no_null_terminator` writes for a code point. */
  function Units(c: bv32): (r: seq<bv16>)
    ensures 1 <= |r| <= 2
  {
    if c <= 0xFFFF then [Unit(c)]
    else [Unit(((c - 0x10000) >> 10) + 0xD800), Unit(((c - 0x10000) & 0x3FF) + 0xDC00)]
  }

  function Joined(high: bv16, low: bv16): bv32 {
    (((high as bv32 - 0xD800) << 10) | (low as bv32 - 0xDC00)) + 0x10000
  }

  function Width(s: seq<bv16>): (r: nat)
    requires s != []
    ensures 1 <= r <= 2
  {
    if High(s[0]) then 2 else 1
  }

  /** The code point `utf16_to_utf8` takes from the front of the text. */
  function NextPoint(s: seq<bv16>): bv32
    requires s != [] && Width(s) <= |s|
  {
    if High(s[0]) then Joined(s[0], s[1]) else s[0] as bv32
  }

  // ---------------------------------------------------------------- the formats as numbers

  /** What a byte carries once its mark is taken off. */
  function Carried(b: bv8, mark: bv8): bv32 {
    (b - mark) as bv32
  }

  lemma Carried2(a: bv8, b: bv8)
    requires 0xC0 <= a <= 0xDF && IsTail(b)
    ensures ShiftAndMask(Masked(a, 0x1f), b) == Carried(a, 0xC0) * 0x40 + Carried(b, 0x80)
  {
  }

  lemma Carried3(a: bv8, b: bv8, d: bv8)
    requires 0xE0 <= a <= 0xEF && IsTail(b) && IsTail(d)
    ensures ShiftAndMask(ShiftAndMask(Masked(a, 0x0f), b), d)
         == Carried(a, 0xE0) * 0x1000 + Carried(b, 0x80) * 0x40 + Carried(d, 0x80)
  {
  }

  lemma Carried4(a: bv8, b: bv8, d: bv8, e: bv8)
    requires 0xF0 <= a <= 0xF7 && IsTail(b) && IsTail(d) && IsTail(e)
    ensures ShiftAndMask(ShiftAndMask(ShiftAndMask(Masked(a, 0x07), b), d), e)
         == Carried(a, 0xF0) * 0x40000 + Carried(b, 0x80) * 0x1000 + Carried(d, 0x80) * 0x40 + Carried(e, 0x80)
  {
  }

  /** The code point of a well-formed sequence is the sum of what its bytes carry, six bits each after the
      lead byte, the most significant first. */
  lemma DecodeIsSum(s: seq<bv8>)
    requires SequenceLength(s) > 0
    ensures var n := SequenceLength(s);
      && LeadLength(s[0]) == n
      && Decode(s) ==
           if n == 1 then Carried(s[0], 0)
           else if n == 2 then Carried(s[0], 0xC0) * 0x40 + Carried(s[1], 0x80)
           else if n == 3 then Carried(s[0], 0xE0) * 0x1000 + Carried(s[1], 0x80) * 0x40 + Carried(s[2], 0x80)
           else Carried(s[0], 0xF0) * 0x40000 + Carried(s[1], 0x80) * 0x1000 + Carried(s[2], 0x80) * 0x40 + Carried(s[3], 0x80)
  {
    LeadLengthIs(s[0]);
    var n := SequenceLength(s);
    if n > 1 { assert IsTail(s[1]); }
    if n > 2 { assert IsTail(s[2]); }
    if n > 3 { assert IsTail(s[3]); }
    Carried1(s[0]);
    hide LeadLength, ShiftAndMask, Masked, Follows, IsTail, Carried;
    if n == 2 { Carried2(s[0], s[1]); }
    if n == 3 { Carried3(s[0], s[1], s[2]); }
    if n == 4 { Carried4(s[0], s[1], s[2], s[3]); }
  }

  lemma Carried1(a: bv8)
    ensures Carried(a, 0) == a as bv32
  {
  }

  /** The surrogates as ranges. */
  lemma SurrogateRanges(u: bv16)
    ensures High(u) <==> 0xD800 <= u <= 0xDBFF
    ensures Low(u) <==> 0xDC00 <= u <= 0xDFFF
  {
  }

  /** What two units of a surrogate pair stand for. */
  function PairValue(high: bv16, low: bv16): bv32 {
    (high as bv32 - 0xD800) * 0x400 + (low as bv32 - 0xDC00) + 0x10000
  }

  lemma PairIsSum(c: bv32)
    requires 0x10000 <= c <= 0x10FFFF
    ensures PairValue(Unit(((c - 0x10000) >> 10) + 0xD800), Unit(((c - 0x10000) & 0x3FF) + 0xDC00)) == c
  {
  }

  lemma UnitIsPoint(c: bv32)
    requires c < 0x10000
    ensures Unit(c) as bv32 == c
  {
  }

  /** A surrogate pair carries ten bits in each unit, the most significant first, counted from U+10000; any
      other code point of sixteen bits is its own unit. */
  lemma UnitsAreSum(c: bv32)
    requires c <= 0x10FFFF
    ensures |Units(c)| == if c < 0x10000 then 1 else 2
    ensures c < 0x10000 ==> Units(c)[0] as bv32 == c
    ensures c >= 0x10000 ==> PairValue(Units(c)[0], Units(c)[1]) == c
  {
    hide Unit, PairValue;
    if c < 0x10000 { UnitIsPoint(c); } else { PairIsSum(c); }
  }

  // ---------------------------------------------------------------- one code point there and back

  lemma Decode2(c: bv32)
    requires 0x80 <= c < 0x800
    ensures 0xC2 <= Lead(c >> 6, 0xC0) <= 0xDF && IsTail(Tail(c))
    ensures ShiftAndMask(Masked(Lead(c >> 6, 0xC0), 0x1f), Tail(c)) == c
  {
  }

  lemma Decode3(c: bv32)
    requires 0x800 <= c < 0x10000 && Scalar(c)
    ensures 0xE0 <= Lead(c >> 12, 0xE0) <= 0xEF && IsTail(Tail(c >> 6)) && IsTail(Tail(c))
    ensures Follows(Lead(c >> 12, 0xE0), Tail(c >> 6))
    ensures ShiftAndMask(ShiftAndMask(Masked(Lead(c >> 12, 0xE0), 0x0f), Tail(c >> 6)), Tail(c)) == c
  {
  }

  lemma Decode4(c: bv32)
    requires 0x10000 <= c <= 0x10FFFF
    ensures 0xF0 <= Lead(c >> 18, 0xF0) <= 0xF4
    ensures ShiftAndMask(ShiftAndMask(ShiftAndMask(Masked(Lead(c >> 18, 0xF0), 0x07), Tail(c >> 12)), Tail(c >> 6)), Tail(c)) == c
  {
  }

  lemma Shape4(c: bv32)
    requires 0x10000 <= c <= 0x10FFFF
    ensures IsTail(Tail(c >> 12)) && IsTail(Tail(c >> 6)) && IsTail(Tail(c))
    ensures Follows(Lead(c >> 18, 0xF0), Tail(c >> 12))
  {
  }

  lemma Decode1(c: bv32)
    requires c < 0x80
    ensures Lead(c, 0) <= 0x7F && Lead(c, 0) as bv32 == c
  {
  }

  /** What is written for a scalar value is a well-formed sequence and reads back as the value,
      whatever follows it. */
  lemma EncodeDecodes(c: bv32, rest: seq<bv8>)
    requires Scalar(c)
    ensures Utf8Length(c) > 0 && SequenceLength(Encode(c) + rest) == LeadLength(Encode(c)[0]) == Utf8Length(c)
    ensures Decode(Encode(c) + rest) == c
  {
    var s := Encode(c) + rest;
    Classes(c);
    LeadLengthIs(s[0]);
    hide LeadLength, Lead, Tail, ShiftAndMask, Masked, Follows, IsTail;
    match Utf8Length(c)
    case 1 => Decode1(c);
    case 2 => Decode2(c);
    case 3 => Decode3(c);
    case _ => Decode4(c); Shape4(c);
  }

  lemma Classes(c: bv32)
    requires Scalar(c)
    ensures Utf8Length(c) == 1 ==> c < 0x80
    ensures Utf8Length(c) == 2 ==> 0x80 <= c < 0x800
    ensures Utf8Length(c) == 3 ==> 0x800 <= c < 0x10000
    ensures Utf8Length(c) == 4 ==> 0x10000 <= c <= 0x10FFFF
    ensures Utf8Length(c) != 0
  {
  }

  lemma Encode2(a: bv8, b: bv8, c: bv32)
    requires 0xC2 <= a <= 0xDF && IsTail(b) && c == ShiftAndMask(Masked(a, 0x1f), b)
    ensures 0x80 <= c < 0x800 && Lead(c >> 6, 0xC0) == a && Tail(c) == b
  {
  }

  lemma Encode3(a: bv8, b: bv8, d: bv8, c: bv32)
    requires 0xE0 <= a <= 0xEF && IsTail(b) && IsTail(d) && Follows(a, b)
    requires c == ShiftAndMask(ShiftAndMask(Masked(a, 0x0f), b), d)
    ensures 0x800 <= c < 0x10000 && Scalar(c) && Lead(c >> 12, 0xE0) == a && Tail(c >> 6) == b && Tail(c) == d
  {
  }

  lemma Encode4(a: bv8, b: bv8, d: bv8, e: bv8, c: bv32)
    requires 0xF0 <= a <= 0xF4 && c == ShiftAndMask(ShiftAndMask(ShiftAndMask(Masked(a, 0x07), b), d), e)
    ensures Lead(c >> 18, 0xF0) == a
  {
  }

  lemma Tails4(a: bv8, b: bv8, d: bv8, e: bv8, c: bv32)
    requires IsTail(b) && IsTail(d) && IsTail(e)
    requires c == ShiftAndMask(ShiftAndMask(ShiftAndMask(Masked(a, 0x07), b), d), e)
    ensures Tail(c >> 12) == b && Tail(c >> 6) == d && Tail(c) == e
  {
  }

  lemma Range4(a: bv8, b: bv8, d: bv8, e: bv8, c: bv32)
    requires 0xF0 <= a <= 0xF4 && IsTail(b) && Follows(a, b)
    requires c == ShiftAndMask(ShiftAndMask(ShiftAndMask(Masked(a, 0x07), b), d), e)
    ensures 0x10000 <= c <= 0x10FFFF
  {
  }

  lemma Encode1(a: bv8)
    requires a <= 0x7F
    ensures a as bv32 < 0x80 && Lead(a as bv32, 0) == a
  {
  }

  /** The lengths by range, and none exactly for what is not a scalar value. */
  lemma ClassOf(c: bv32)
    ensures c < 0x80 ==> Utf8Length(c) == 1
    ensures 0x80 <= c < 0x800 ==> Utf8Length(c) == 2
    ensures 0x800 <= c < 0x10000 && Scalar(c) ==> Utf8Length(c) == 3
    ensures 0x10000 <= c <= 0x10FFFF ==> Utf8Length(c) == 4
    ensures Utf8Length(c) == 0 <==> !Scalar(c)
  {
  }

  /** The cases of the syntax. */
  lemma SequenceCases(s: seq<bv8>)
    requires SequenceLength(s) > 0
    ensures SequenceLength(s) == 1 ==> s[0] <= 0x7F
    ensures SequenceLength(s) == 2 ==> 0xC2 <= s[0] <= 0xDF && IsTail(s[1])
    ensures SequenceLength(s) == 3 ==> 0xE0 <= s[0] <= 0xEF && IsTail(s[1]) && IsTail(s[2]) && Follows(s[0], s[1])
    ensures SequenceLength(s) == 4 ==>
      0xF0 <= s[0] <= 0xF4 && IsTail(s[1]) && IsTail(s[2]) && IsTail(s[3]) && Follows(s[0], s[1])
    ensures LeadLength(s[0]) == SequenceLength(s)
  {
    LeadLengthIs(s[0]);
    hide LeadLength, IsTail, Follows;
  }

  /** A well-formed sequence is read as a scalar value that is written as the same bytes. */
  lemma SequenceEncodes(s: seq<bv8>)
    requires SequenceLength(s) > 0
    ensures LeadLength(s[0]) == SequenceLength(s)
    ensures Scalar(Decode(s)) && Encode(Decode(s)) == s[..SequenceLength(s)]
  {
    SequenceCases(s);
    var c := Decode(s);
    ClassOf(c);
    hide SequenceLength, LeadLength, Lead, Tail, ShiftAndMask, Masked, Follows, IsTail, Scalar, Utf8Length;
    match SequenceLength(s)
    case 1 => Encode1(s[0]);
    case 2 => Encode2(s[0], s[1], c);
    case 3 => Encode3(s[0], s[1], s[2], c);
    case _ =>
      Range4(s[0], s[1], s[2], s[3], c);
      Encode4(s[0], s[1], s[2], s[3], c);
      Tails4(s[0], s[1], s[2], s[3], c);
  }

  lemma JoinedUnits(c: bv32)
    requires 0xFFFF < c <= 0x10FFFF
    ensures High(Units(c)[0]) && |Units(c)| == 2 && Low(Units(c)[1]) && Joined(Units(c)[0], Units(c)[1]) == c
  {
  }

  lemma SingleUnit(c: bv32)
    requires c <= 0xFFFF && Scalar(c)
    ensures !High(Units(c)[0]) && !Low(Units(c)[0]) && Units(c)[0] as bv32 == c
  {
  }

  /** What is written in UTF-16 for a scalar value reads back as the value, whatever follows it. */
  lemma UnitsDecode(c: bv32, rest: seq<bv16>)
    requires Scalar(c)
    ensures Width(Units(c) + rest) == |Units(c)| && NextPoint(Units(c) + rest) == c
    ensures WellFormed16(rest) ==> WellFormed16(Units(c) + rest)
  {
    assert (Units(c) + rest)[|Units(c)|..] == rest;
    if c <= 0xFFFF {
      SingleUnit(c);
    } else {
      JoinedUnits(c);
    }
  }

  lemma JoinedRange(high: bv16, low: bv16)
    requires High(high) && Low(low)
    ensures 0xFFFF < Joined(high, low) <= 0x10FFFF
  {
  }

  lemma JoinedEncodes(high: bv16, low: bv16, c: bv32)
    requires High(high) && Low(low) && c == Joined(high, low)
    ensures Unit(((c - 0x10000) >> 10) + 0xD800) == high
    ensures Unit(((c - 0x10000) & 0x3FF) + 0xDC00) == low
  {
  }

  lemma JoinedScalar(high: bv16, low: bv16)
    requires High(high) && Low(low)
    ensures Scalar(Joined(high, low)) && Units(Joined(high, low)) == [high, low]
  {
    JoinedRange(high, low);
    JoinedEncodes(high, low, Joined(high, low));
    hide Joined, Unit;
  }

  lemma SingleEncodes(u: bv16)
    requires !High(u) && !Low(u)
    ensures u as bv32 <= 0xFFFF && Scalar(u as bv32) && Units(u as bv32) == [u]
  {
  }

  /** The front of well-formed UTF-16 is read as a scalar value that is written as the same units. */
  lemma PointEncodes(s: seq<bv16>)
    requires s != [] && WellFormed16(s)
    ensures Width(s) <= |s| && Scalar(NextPoint(s)) && Units(NextPoint(s)) == s[..Width(s)]
    ensures WellFormed16(s[Width(s)..])
  {
    hide High, Low, Joined, Scalar, Units;
    if High(s[0]) {
      JoinedScalar(s[0], s[1]);
      assert s[..2] == [s[0], s[1]];
    } else {
      SingleEncodes(s[0]);
      assert s[..1] == [s[0]];
    }
  }

  // ---------------------------------------------------------------- whole texts

  /** No text ends inside a pair. */
  predicate Paired(s: seq<bv16>) {
    s == [] || (Width(s) <= |s| && Paired(s[Width(s)..]))
  }

  /** What `utf16_to_utf8` writes before the terminator. */
  function ToUtf8(s: seq<bv16>): seq<bv8>
    requires Paired(s)
  {
    if s == [] then [] else Encode(NextPoint(s)) + ToUtf8(s[Width(s)..])
  }

  /** No text ends inside a sequence. */
  predicate Complete(s: seq<bv8>) {
    s == [] || (LeadLength(s[0]) <= |s| && Complete(s[LeadLength(s[0])..]))
  }

  /** What `utf8_to_utf16_no_null_terminator` writes. */
  function ToUtf16(s: seq<bv8>): seq<bv16>
    requires Complete(s)
  {
    if s == [] then [] else Units(Decode(s)) + ToUtf16(s[LeadLength(s[0])..])
  }

  lemma ToUtf16Cons(c: bv32, rest: seq<bv8>)
    requires Scalar(c) && Complete(rest)
    ensures Complete(Encode(c) + rest) && ToUtf16(Encode(c) + rest) == Units(c) + ToUtf16(rest)
    ensures WellFormed8(rest) ==> WellFormed8(Encode(c) + rest)
  {
    EncodeDecodes(c, rest);
    assert (Encode(c) + rest)[Utf8Length(c)..] == rest;
    hide LeadLength, Decode, SequenceLength, Encode, Units, Scalar, Utf8Length;
  }

  lemma ToUtf8Cons(c: bv32, rest: seq<bv16>)
    requires Scalar(c) && Paired(rest)
    ensures Paired(Units(c) + rest) && ToUtf8(Units(c) + rest) == Encode(c) + ToUtf8(rest)
    ensures WellFormed16(rest) ==> WellFormed16(Units(c) + rest)
  {
    UnitsDecode(c, rest);
    assert (Units(c) + rest)[|Units(c)|..] == rest;
    hide WellFormed16, Encode, Units, NextPoint, Scalar, Width;
  }

  /** Well-formed UTF-16 becomes well-formed UTF-8, and converting that back gives the text. */
  lemma {:induction false} RoundTrip16(s: seq<bv16>)
    requires WellFormed16(s)
    ensures Paired(s) && WellFormed8(ToUtf8(s)) && Complete(ToUtf8(s))
    ensures ToUtf16(ToUtf8(s)) == s
  {
    hide *;
    if s == [] {
      EmptyText();
    } else {
      PointEncodes(s);
      var c, rest := NextPoint(s), s[Width(s)..];
      RoundTrip16(rest);
      assert s == Units(c) + rest;
      ToUtf8Cons(c, rest);
      ToUtf16Cons(c, ToUtf8(rest));
    }
  }

  lemma EmptyText()
    ensures Complete([]) && Paired([]) && WellFormed16([]) && WellFormed8([]) && ToUtf16([]) == [] && ToUtf8([]) == []
  {
  }

  lemma WellFormedFront(s: seq<bv8>)
    requires s != [] && WellFormed8(s)
    ensures SequenceLength(s) > 0 && WellFormed8(s[SequenceLength(s)..])
  {
    hide SequenceLength;
  }

  /** Well-formed UTF-8 becomes well-formed UTF-16, and converting that back gives the text. */
  lemma {:induction false} RoundTrip8(s: seq<bv8>)
    requires WellFormed8(s)
    ensures Complete(s) && WellFormed16(ToUtf16(s)) && Paired(ToUtf16(s))
    ensures ToUtf8(ToUtf16(s)) == s
  {
    hide *;
    if s == [] {
      EmptyText();
    } else {
      WellFormedFront(s);
      SequenceEncodes(s);
      var c, rest := Decode(s), s[SequenceLength(s)..];
      RoundTrip8(rest);
      assert s == Encode(c) + rest;
      ToUtf16Cons(c, rest);
      ToUtf8Cons(c, ToUtf16(rest));
    }
  }

  /** Whatever is converted, well-formed or not, the result is well-formed UTF-8. */
  lemma {:induction false} AlwaysWellFormed8(s: seq<bv16>)
    requires Paired(s)
    ensures WellFormed8(ToUtf8(s))
  {
    if s != [] {
      var c, rest := NextPoint(s), s[Width(s)..];
      AlwaysWellFormed8(rest);
      ClassOf(c);
      hide NextPoint, Width, Scalar, Utf8Length, LeadLength, Decode, SequenceLength, High, Joined;
      if Scalar(c) {
        EncodeDecodes(c, ToUtf8(rest));
        hide Encode;
        assert (Encode(c) + ToUtf8(rest))[Utf8Length(c)..] == ToUtf8(rest);
      } else {
        assert Encode(c) + ToUtf8(rest) == ToUtf8(rest);
      }
    }
  }

  /** Exactly the well-formed texts come back unchanged. */
  lemma RoundTripsExactly(s: seq<bv8>)
    requires Complete(s)
    ensures WellFormed8(s) <==> (Paired(ToUtf16(s)) && ToUtf8(ToUtf16(s)) == s)
  {
    hide *;
    if WellFormed8(s) {
      RoundTrip8(s);
    } else if Paired(ToUtf16(s)) {
      AlwaysWellFormed8(ToUtf16(s));
    }
  }

  // ---------------------------------------------------------------- the predicted lengths

  /** What `utf16_to_utf8_length` adds up: after a high surrogate it has stepped on to the next unit
      before it knows whether that is a low one. */
  function Predicted8(s: seq<bv16>): nat {
    if s == [] then 0
    else if High(s[0]) && |s| > 1 then (if Low(s[1]) then 4 else Utf8Length(s[1] as bv32)) + Predicted8(s[2..])
    else Utf8Length(s[0] as bv32) + Predicted8(s[1..])
  }

  /** Every high surrogate has a low one behind it; low ones may stand alone. */
  predicate HighsPaired(s: seq<bv16>) {
    || s == []
    || (if High(s[0]) then |s| > 1 && Low(s[1]) && HighsPaired(s[2..]) else HighsPaired(s[1..]))
  }

  /** How many bytes more than predicted are written for a high surrogate and the unit behind it. */
  function PairDrift(high: bv16, next: bv16): int {
    if Low(next) then 0
    else if next > 0xDFFF then 1
    else
      (if 0xD800 <= Joined(high, next) <= 0xDFFF then 0 else 3)
      - if next < 0x80 then 1 else if next < 0x800 then 2 else if next < 0xD800 then 3 else 0
  }

  function Drift(s: seq<bv16>): int
    requires Paired(s)
  {
    if s == [] then 0 else (if High(s[0]) then PairDrift(s[0], s[1]) else 0) + Drift(s[Width(s)..])
  }

  lemma PairedLength(high: bv16, low: bv16)
    requires High(high) && Low(low)
    ensures Utf8Length(Joined(high, low)) == 4
  {
    JoinedRange(high, low);
  }

  lemma FarLength(high: bv16, next: bv16)
    requires High(high) && next > 0xDFFF
    ensures Utf8Length(Joined(high, next)) == 4 && Utf8Length(next as bv32) == 3
  {
  }

  lemma NearLength(high: bv16, next: bv16)
    requires High(high) && next < 0xDC00
    ensures Utf8Length(Joined(high, next)) == if 0xD800 <= Joined(high, next) <= 0xDFFF then 0 else 3
  {
  }

  lemma NotLow(next: bv16)
    requires !Low(next)
    ensures next < 0xDC00 || next > 0xDFFF
  {
  }

  lemma PairDriftExact(high: bv16, next: bv16)
    requires High(high)
    ensures Utf8Length(Joined(high, next))
            == (if Low(next) then 4 else Utf8Length(next as bv32)) + PairDrift(high, next)
  {
    hide Joined, Low, High;
    if Low(next) {
      PairedLength(high, next);
    } else {
      NotLow(next);
      if next > 0xDFFF { FarLength(high, next); } else { NearLength(high, next); }
    }
  }

  /** For a high surrogate without a low one, prediction and conversion agree exactly when the next
      unit needs three bytes and what the two are joined to is no surrogate. */
  lemma BadPairExact(high: bv16, next: bv16)
    requires High(high) && !Low(next)
    ensures Utf8Length(next as bv32) == Utf8Length(Joined(high, next))
            <==> 0x800 <= next < 0xD800 && !(0xD800 <= Joined(high, next) <= 0xDFFF)
  {
    PairDriftExact(high, next);
    NotLow(next);
    hide Joined, Low, High, Utf8Length;
  }

  /** The conversion writes what was predicted and the drift of the text, which is told from the
      units alone: the two agree exactly when it is 0, and the predicted buffer suffices exactly when
      it is not positive. */
  lemma {:induction false} DriftExact(s: seq<bv16>)
    requires Paired(s)
    ensures |ToUtf8(s)| == Predicted8(s) + Drift(s)
  {
    if s != [] {
      hide High, Low, Joined, Encode, Utf8Length, PairDrift;
      DriftExact(s[Width(s)..]);
      if High(s[0]) {
        PairDriftExact(s[0], s[1]);
      }
    }
  }

  lemma {:induction false} NoDrift(s: seq<bv16>)
    requires HighsPaired(s)
    ensures Paired(s) && Drift(s) == 0
  {
    if s != [] {
      hide High, Low, Joined;
      NoDrift(s[Width(s)..]);
    }
  }

  /** When every high surrogate has its low one, the prediction is what the conversion writes. */
  lemma PredictionExact(s: seq<bv16>)
    requires HighsPaired(s)
    ensures Paired(s) && Predicted8(s) == |ToUtf8(s)|
  {
    NoDrift(s);
    DriftExact(s);
  }

  /** A text for which the prediction falls short: one byte predicted, three written. */
  lemma PredictionFallsShort()
    ensures var s := [0xD800, 0x0041];
      Paired(s) && !HighsPaired(s) && Predicted8(s) == 1 && |ToUtf8(s)| == 3
  {
    var s: seq<bv16> := [0xD800, 0x0041];
    assert s[2..] == [];
    assert High(s[0]) && !Low(s[1]);
    assert Joined(s[0], s[1]) == 0x2441;
    DriftExact(s);
  }

  lemma {:induction false} WellFormedPairs(s: seq<bv16>)
    requires WellFormed16(s)
    ensures HighsPaired(s)
  {
    if s != [] {
      WellFormedPairs(s[Width(s)..]);
    }
  }

  /** `utf16_to_utf8_length`. */
  method Utf16ToUtf8Length(src: seq<bv16>) returns (r: int)
    ensures r == if src == [] then -1 else Predicted8(src)
    ensures src != [] && Paired(src) ==> r + Drift(src) == |ToUtf8(src)|
    ensures src != [] && HighsPaired(src) ==> Paired(src) && r == |ToUtf8(src)|
  {
    if src == [] {
      return -1;
    }
    hide High, Low, Utf8Length;
    var count := 0;
    var i := 0;
    while i < |src|
      invariant i <= |src| && count >= 0 && count + Predicted8(src[i..]) == Predicted8(src)
    {
      if High(src[i]) && i + 1 < |src| {
        i := i + 1;
        count := count + if Low(src[i]) then 4 else Utf8Length(src[i] as bv32);
        i := i + 1;
        assert src[i - 2..][2..] == src[i..];
      } else {
        count := count + Utf8Length(src[i] as bv32);
        i := i + 1;
        assert src[i - 1..][1..] == src[i..];
      }
    }
    r := count;
    if Paired(src) {
      DriftExact(src);
    }
    if HighsPaired(src) {
      PredictionExact(src);
    }
  }

  lemma CompleteStep(s: seq<bv8>, i: nat)
    requires i < |s|
    ensures Complete(s[i..]) <==> i + LeadLength(s[i]) <= |s| && Complete(s[i + LeadLength(s[i])..])
    ensures Complete(s[i..]) ==>
      ToUtf16(s[i..]) == Units(Decode(s[i..])) + ToUtf16(s[i + LeadLength(s[i])..])
  {
    if i + LeadLength(s[i]) <= |s| {
      assert s[i..][LeadLength(s[i])..] == s[i + LeadLength(s[i])..];
    }
  }

  lemma UnitCount(c: bv32)
    ensures |Units(c)| == if c > 0xFFFF then 2 else 1
  {
  }

  /** `utf8_to_utf16_length`: -1 exactly for text that ends inside a sequence. There the code has
      decoded bytes past the end before it sees this, which cannot change its answer. */
  method Utf8ToUtf16Length(u8: seq<bv8>) returns (r: int)
    ensures r == if Complete(u8) then |ToUtf16(u8)| else -1
  {
    hide *;
    var measured := 0;
    var cur := 0;
    assert u8[0..] == u8;
    while cur < |u8|
      invariant cur > |u8| ==> !Complete(u8)
      invariant cur <= |u8| ==> (Complete(u8) <==> Complete(u8[cur..]))
      invariant cur <= |u8| && Complete(u8) ==> |ToUtf16(u8)| == measured + |ToUtf16(u8[cur..])|
    {
      CompleteStep(u8, cur);
      measured := measured + 1;
      var charLen := LeadLength(u8[cur]);
      if cur + charLen <= |u8| {
        var codepoint := Decode(u8[cur..]);
        UnitCount(codepoint);
        if codepoint > 0xFFFF {
          measured := measured + 1;
        }
      }
      cur := cur + charLen;
    }
    if cur != |u8| {
      return -1;
    }
    NoneLeft(u8[cur..]);
    r := measured;
  }

  // ---------------------------------------------------------------- the converters

  const FIRST_BYTE_MARK: seq<bv32> := [0, 0, 0xC0, 0xE0, 0xF0]

  function Down(c: bv32): bv32 {
    c >> 6
  }

  lemma ShiftsAdd(c: bv32)
    ensures Down(c) == c >> 6 && Down(Down(c)) == c >> 12 && Down(Down(Down(c))) == c >> 18
  {
  }

  /** The bytes of a code point, counted from the last. */
  lemma EncodeBackwards(c: bv32, s: seq<bv8>)
    requires |s| == Utf8Length(c)
    requires |s| > 1 ==> s[|s| - 1] == Tail(c)
    requires |s| > 2 ==> s[|s| - 2] == Tail(Down(c))
    requires |s| > 3 ==> s[|s| - 3] == Tail(Down(Down(c)))
    requires |s| == 1 ==> s[0] == Lead(c, 0)
    requires |s| == 2 ==> s[0] == Lead(Down(c), 0xC0)
    requires |s| == 3 ==> s[0] == Lead(Down(Down(c)), 0xE0)
    requires |s| == 4 ==> s[0] == Lead(Down(Down(Down(c))), 0xF0)
    ensures s == Encode(c)
  {
    ShiftsAdd(c);
    hide Tail, Lead, Down, Utf8Length;
  }

  method PutTail(dst: array<bv8>, p: nat, x: bv32) returns (p': nat, x': bv32)
    requires 0 < p <= dst.Length
    modifies dst
    ensures p' == p - 1 && x' == Down(x) && dst[p'] == Tail(x)
    ensures forall k :: 0 <= k < dst.Length && k != p' ==> dst[k] == old(dst[k])
  {
    p' := p - 1;
    dst[p'] := Tail(x);
    x' := x >> 6;
  }

  /** `utf32_codepoint_to_utf8`: the bytes are written from the last to the first, each case of the
      switch falling through to the next. */
  method PutCodePoint(dst: array<bv8>, at: nat, c: bv32, bytes: nat)
    requires bytes == Utf8Length(c) && at + bytes <= dst.Length
    modifies dst
    ensures dst[at..at + bytes] == Encode(c)
    ensures forall k :: 0 <= k < dst.Length && !(at <= k < at + bytes) ==> dst[k] == old(dst[k])
  {
    hide Utf8Length, Encode, Tail, Lead, Down;
    var p, x := at + bytes, c;
    if bytes >= 4 {
      p, x := PutTail(dst, p, x);
    }
    assert if bytes >= 4 then p == at + 3 && x == Down(c) && dst[at + 3] == Tail(c) else p == at + bytes && x == c;
    if bytes >= 3 {
      p, x := PutTail(dst, p, x);
    }
    assert bytes >= 4 ==> x == Down(Down(c)) && dst[at + 3] == Tail(c) && dst[at + 2] == Tail(Down(c));
    assert bytes == 3 ==> x == Down(c) && dst[at + 2] == Tail(c);
    assert p == at + if bytes >= 3 then 2 else bytes;
    if bytes >= 2 {
      p, x := PutTail(dst, p, x);
    }
    assert bytes > 1 ==> p == at + 1 && dst[at + bytes - 1] == Tail(c);
    assert bytes > 2 ==> dst[at + bytes - 2] == Tail(Down(c));
    assert bytes > 3 ==> dst[at + bytes - 3] == Tail(Down(Down(c))) && x == Down(Down(Down(c)));
    assert bytes == 3 ==> x == Down(Down(c));
    assert bytes == 2 ==> x == Down(c);
    assert bytes == 1 ==> x == c;
    if bytes >= 1 {
      p := p - 1;
      dst[p] := Lead(x, FIRST_BYTE_MARK[bytes]);
    }
    ghost var out := dst[at..at + bytes];
    SliceElements(dst, at, out);
    EncodeBackwards(c, out);
  }

  lemma PairedStep(s: seq<bv16>, i: nat)
    requires i < |s| && Paired(s[i..])
    ensures i + Width(s[i..]) <= |s| && Paired(s[i + Width(s[i..])..])
    ensures ToUtf8(s[i..]) == Encode(NextPoint(s[i..])) + ToUtf8(s[i + Width(s[i..])..])
  {
    assert s[i..][Width(s[i..])..] == s[i + Width(s[i..])..];
  }

  /** `utf16_to_utf8`: the bytes and the terminator, and nothing beyond them. */
  method Utf16ToUtf8(src: seq<bv16>, dst: array<bv8>)
    requires Paired(src) && |ToUtf8(src)| < dst.Length
    modifies dst
    ensures src == [] ==> dst[..] == old(dst[..])
    ensures src != [] ==> dst[..|ToUtf8(src)|] == ToUtf8(src) && dst[|ToUtf8(src)|] == 0
    ensures dst[|ToUtf8(src)| + 1..] == old(dst[|ToUtf8(src)| + 1..])
  {
    hide *;
    if src == [] {
      return;
    }
    var cur := PutText(src, dst);
    dst[cur] := 0;
  }

  method PutText(src: seq<bv16>, dst: array<bv8>) returns (cur: nat)
    requires Paired(src) && |ToUtf8(src)| < dst.Length
    modifies dst
    ensures cur == |ToUtf8(src)| && dst[..cur] == ToUtf8(src)
    ensures dst[cur..] == old(dst[cur..])
  {
    hide *;
    ghost var all := ToUtf8(src);
    var i := 0;
    cur := 0;
    assert src[0..] == src;
    while i < |src|
      invariant i <= |src| && 0 <= cur <= |all| && Paired(src[i..])
      invariant dst[..cur] == all[..cur] && ToUtf8(src[i..]) == all[cur..]
      invariant forall k :: |all| <= k < dst.Length ==> dst[k] == old(dst[k])
    {
      PairedStep(src, i);
      var utf32 := NextPoint(src[i..]);
      var len := Utf8Length(utf32);
      NextPart(all, cur, Encode(utf32), ToUtf8(src[i + Width(src[i..])..]));
      PutCodePoint(dst, cur, utf32, len);
      Slices(dst, cur, len);
      cur := cur + len;
      i := i + Width(src[i..]);
    }
    NothingLeft(src[i..]);
  }

  lemma SliceElements<T>(a: array<T>, at: nat, part: seq<T>)
    requires at + |part| <= a.Length && part == a[at..at + |part|]
    ensures forall k :: 0 <= k < |part| ==> part[k] == a[at + k]
  {
  }

  lemma Slices<T>(a: array<T>, at: nat, len: nat)
    requires at + len <= a.Length
    ensures a[..at + len] == a[..at] + a[at..at + len]
  {
  }

  lemma NextPart<T>(all: seq<T>, cur: nat, part: seq<T>, rest: seq<T>)
    requires cur <= |all| && all[cur..] == part + rest
    ensures cur + |part| <= |all| && all[cur + |part|..] == rest && all[..cur + |part|] == all[..cur] + part
  {
    assert all == all[..cur] + part + rest;
  }

  lemma NothingLeft(s: seq<bv16>)
    requires s == []
    ensures Paired(s) && ToUtf8(s) == []
  {
  }

  /** `utf8_to_utf16_no_null_terminator`: the units, and where they end. */
  method Utf8ToUtf16(u8: seq<bv8>, dst: array<bv16>) returns (end: nat)
    requires Complete(u8) && |ToUtf16(u8)| <= dst.Length
    modifies dst
    ensures end == |ToUtf16(u8)| && dst[..end] == ToUtf16(u8)
    ensures dst[end..] == old(dst[end..])
  {
    hide *;
    var cur := 0;
    end := 0;
    assert u8[0..] == u8;
    while cur < |u8|
      invariant cur <= |u8| && end <= dst.Length && Complete(u8[cur..])
      invariant dst[..end] + ToUtf16(u8[cur..]) == ToUtf16(u8)
      invariant forall k :: |ToUtf16(u8)| <= k < dst.Length ==> dst[k] == old(dst[k])
    {
      CompleteStep(u8, cur);
      ghost var done := dst[..end];
      var codepoint := Decode(u8[cur..]);
      end := PutUnits(dst, end, codepoint);
      assert dst[..end] == done + Units(codepoint);
      cur := cur + LeadLength(u8[cur]);
    }
    NoneLeft(u8[cur..]);
  }

  method PutUnits(dst: array<bv16>, at: nat, c: bv32) returns (end: nat)
    requires at + |Units(c)| <= dst.Length
    modifies dst
    ensures end == at + |Units(c)| && dst[at..end] == Units(c)
    ensures forall k :: 0 <= k < dst.Length && !(at <= k < end) ==> dst[k] == old(dst[k])
  {
    hide Unit;
    end := at;
    if c <= 0xFFFF {
      dst[end] := Unit(c);
      end := end + 1;
    } else {
      var codepoint := c - 0x10000;
      dst[end] := Unit((codepoint >> 10) + 0xD800);
      end := end + 1;
      dst[end] := Unit((codepoint & 0x3FF) + 0xDC00);
      end := end + 1;
    }
  }

  lemma NoneLeft(s: seq<bv8>)
    requires s == []
    ensures Complete(s) && ToUtf16(s) == []
  {
  }

  // ---------------------------------------------------------------- measured, converted and converted back

  /** UTF-16 measured and converted into a buffer of exactly the predicted size and a terminator. */
  method MeasuredUtf8(text: seq<bv16>) returns (utf8: array<bv8>)
    requires text != [] && HighsPaired(text)
    ensures Paired(text) && utf8[..] == ToUtf8(text) + [0]
  {
    hide *;
    var n := Utf16ToUtf8Length(text);
    utf8 := new bv8[n + 1];
    Utf16ToUtf8(text, utf8);
    assert utf8[..] == utf8[..n] + [utf8[n]];
  }

  /** UTF-8 measured and converted into a buffer of exactly the predicted size. */
  method MeasuredUtf16(text: seq<bv8>) returns (utf16: array<bv16>)
    requires Complete(text)
    ensures utf16[..] == ToUtf16(text)
  {
    hide *;
    var n := Utf8ToUtf16Length(text);
    utf16 := new bv16[n];
    var end := Utf8ToUtf16(text, utf16);
    assert utf16[..end] == utf16[..];
  }

  /** Well-formed UTF-16 measured, converted, and converted back. */
  method ThereAndBack16(text: seq<bv16>) returns (back: array<bv16>)
    requires text != [] && WellFormed16(text)
    ensures back[..] == text
  {
    hide *;
    RoundTrip16(text);
    WellFormedPairs(text);
    var utf8 := MeasuredUtf8(text);
    var bytes := utf8[..utf8.Length - 1];
    assert bytes == ToUtf8(text);
    back := MeasuredUtf16(bytes);
  }

  /** Well-formed UTF-8 measured, converted, and converted back. */
  method ThereAndBack8(text: seq<bv8>) returns (back: array<bv8>)
    requires text != [] && WellFormed8(text)
    ensures back[..] == text + [0]
  {
    hide *;
    RoundTrip8(text);
    NotEmpty(text);
    WellFormedPairs(ToUtf16(text));
    var utf16 := MeasuredUtf16(text);
    back := MeasuredUtf8(utf16[..]);
  }

  lemma NotEmpty(s: seq<bv8>)
    requires s != [] && Complete(s)
    ensures ToUtf16(s) != []
  {
  }
}
