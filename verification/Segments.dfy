/** Segments: the packed text modes, their lengths, and the code that makes segments from text and bytes. */
module Segments {
  import opened Bytes
  import opened VersionInfo

  // ---------- alphabets ----------

  function Charset(): string {
    "0123456789ABCDEFGHIJKLMNOPQRSTUVWXYZ $%*+-./:"
  }

  lemma CharsetLength()
    ensures |Charset()| == 45
  {
  }

  /** Index of the first occurrence of c in s from position i on, or -1. */
  function Find(s: string, c: char, i: nat): (k: int)
    requires i <= |s|
    ensures k == -1 || (i <= k < |s| && s[k] == c)
    ensures k == -1 <==> c !in s[i..]
    decreases |s| - i
  {
    if i == |s| then -1 else if s[i] == c then i else Find(s, c, i + 1)
  }

  /** The two modes that pack several characters into one number. */
  predicate IsPacked(mode: Mode) {
    mode == Numeric || mode == Alphanumeric
  }

  predicate InAlphabet(mode: Mode, c: char) {
    match mode
    case Numeric => '0' <= c <= '9'
    case Alphanumeric => c in Charset()
    case Byte => c as int < 256
    case _ => false
  }

  predicate ValidText(mode: Mode, text: string) {
    forall i | 0 <= i < |text| :: InAlphabet(mode, text[i])
  }

  function Base(mode: Mode): nat {
    if mode == Numeric then 10 else 45
  }

  /** Characters per group. */
  function GroupSize(mode: Mode): nat {
    if mode == Numeric then 3 else 2
  }

  /** Bits for a group of n characters. */
  function GroupBits(mode: Mode, n: nat): nat {
    if mode == Numeric then 3 * n + 1 else if n == 1 then 6 else 11
  }

  function DigitOf(mode: Mode, c: char): (d: nat)
    requires IsPacked(mode) && InAlphabet(mode, c)
    ensures d < Base(mode)
  {
    CharsetLength();
    if mode == Numeric then c as int - '0' as int else Find(Charset(), c, 0)
  }

  function CharOf(mode: Mode, d: nat): char
    requires IsPacked(mode) && d < Base(mode)
  {
    CharsetLength();
    if mode == Numeric then ('0' as int + d) as char else Charset()[d]
  }

  lemma CharOfDigit(mode: Mode, c: char)
    requires IsPacked(mode) && InAlphabet(mode, c)
    ensures CharOf(mode, DigitOf(mode, c)) == c
  {
    hide Charset;
    CharsetLength();
  }

  // ---------- the alphabets by character codes ----------

  /** The value of a character in alphanumeric mode, or -1 if it has none. */
  function AlphanumericValue(c: char): int {
    if '0' <= c <= '9' then c as int - '0' as int
    else if 'A' <= c <= 'Z' then c as int - 'A' as int + 10
    else
      match c
      case ' ' => 36
      case '$' => 37
      case '%' => 38
      case '*' => 39
      case '+' => 40
      case '-' => 41
      case '.' => 42
      case '/' => 43
      case ':' => 44
      case _ => -1
  }

  lemma CharsetParts()
    ensures Charset() == "0123456789" + ("ABCDEFGHIJKLMNOPQRSTUVWXYZ" + " $%*+-./:")
  {
  }

  lemma Digits(k: nat)
    requires k < 10
    ensures |"0123456789"| == 10 && AlphanumericValue("0123456789"[k]) == k
  {
  }

  lemma Letters(k: nat)
    requires k < 26
    ensures |"ABCDEFGHIJKLMNOPQRSTUVWXYZ"| == 26 && AlphanumericValue("ABCDEFGHIJKLMNOPQRSTUVWXYZ"[k]) == 10 + k
  {
  }

  lemma Signs(k: nat)
    requires k < 9
    ensures |" $%*+-./:"| == 9 && AlphanumericValue(" $%*+-./:"[k]) == 36 + k
  {
  }

  lemma CharsetByCode(k: nat)
    requires k < 45
    ensures |Charset()| == 45 && AlphanumericValue(Charset()[k]) == k
  {
    hide Charset, AlphanumericValue;
    CharsetParts();
    if k < 10 {
      Digits(k);
    } else if k < 36 {
      Letters(k - 10);
    } else {
      Signs(k - 36);
    }
  }

  lemma ValueInjective(c: char, d: char)
    requires AlphanumericValue(c) == AlphanumericValue(d) >= 0
    ensures c == d && AlphanumericValue(c) < 45
  {
  }

  lemma CharsetHasAll(c: char)
    requires AlphanumericValue(c) >= 0
    ensures AlphanumericValue(c) < |Charset()| && Charset()[AlphanumericValue(c)] == c
  {
    hide Charset, AlphanumericValue;
    ValueInjective(c, c);
    CharsetByCode(AlphanumericValue(c));
    ValueInjective(c, Charset()[AlphanumericValue(c)]);
  }

  /** Exactly the characters with a value are alphanumeric, and the value is the digit that is packed. */
  lemma AlphanumericByCode(c: char)
    ensures InAlphabet(Alphanumeric, c) <==> AlphanumericValue(c) >= 0
    ensures InAlphabet(Alphanumeric, c) ==> DigitOf(Alphanumeric, c) == AlphanumericValue(c)
  {
    hide Charset, AlphanumericValue;
    CharsetLength();
    if InAlphabet(Alphanumeric, c) {
      assert Charset()[0..] == Charset();
      CharsetByCode(Find(Charset(), c, 0));
    }
    if AlphanumericValue(c) >= 0 {
      CharsetHasAll(c);
    }
  }

  /** The decimal digits have their own values. */
  lemma NumericByCode(c: char)
    ensures InAlphabet(Numeric, c) <==> c in "0123456789"
    ensures InAlphabet(Numeric, c) ==> DigitOf(Numeric, c) == c as int - '0' as int == AlphanumericValue(c)
  {
    if InAlphabet(Numeric, c) {
      var k := c as int - '0' as int;
      assert c == "0123456789"[k];
    }
  }

  // ---------- groups ----------

  /** The number whose base-10 or base-45 digits are the characters of s. */
  function GroupValue(mode: Mode, s: string): nat
    requires IsPacked(mode) && ValidText(mode, s)
  {
    if s == "" then 0
    else GroupValue(mode, s[..|s| - 1]) * Base(mode) + DigitOf(mode, s[|s| - 1])
  }

  function GroupText(mode: Mode, value: nat, n: nat): (s: string)
    requires IsPacked(mode)
    ensures |s| == n
  {
    if n == 0 then "" else GroupText(mode, value / Base(mode), n - 1) + [CharOf(mode, value % Base(mode))]
  }

  function Power(b: nat, n: nat): nat {
    if n == 0 then 1 else Power(b, n - 1) * b
  }

  lemma {:induction false} GroupRoundTrip(mode: Mode, s: string)
    requires IsPacked(mode) && ValidText(mode, s)
    ensures GroupText(mode, GroupValue(mode, s), |s|) == s
    ensures GroupValue(mode, s) < Power(Base(mode), |s|)
  {
    hide Charset, DigitOf, CharOf, InAlphabet, Base, GroupText, GroupValue, Power;
    if s == "" {
      EmptyGroup(mode);
    } else {
      var n := |s| - 1;
      var u, d := GroupValue(mode, s[..n]), DigitOf(mode, s[n]);
      GroupRoundTrip(mode, s[..n]);
      GroupStep(mode, s, n);
      GroupTextStep(mode, u, d, n);
      CharOfDigit(mode, s[n]);
      AppendDigit(u, d, Base(mode), Power(Base(mode), n));
      assert s == s[..n] + [s[n]];
    }
  }

  lemma EmptyGroup(mode: Mode)
    requires IsPacked(mode)
    ensures GroupValue(mode, "") == 0 && GroupText(mode, 0, 0) == "" && Power(Base(mode), 0) == 1
  {
  }

  lemma GroupStep(mode: Mode, s: string, n: nat)
    requires IsPacked(mode) && ValidText(mode, s) && |s| == n + 1
    ensures GroupValue(mode, s) == GroupValue(mode, s[..n]) * Base(mode) + DigitOf(mode, s[n])
    ensures Power(Base(mode), n + 1) == Power(Base(mode), n) * Base(mode)
  {
    hide DigitOf, InAlphabet, Base;
  }

  lemma GroupTextStep(mode: Mode, u: nat, d: nat, n: nat)
    requires IsPacked(mode) && d < Base(mode)
    ensures GroupText(mode, u * Base(mode) + d, n + 1) == GroupText(mode, u, n) + [CharOf(mode, d)]
  {
    hide CharOf, Base;
    AppendDigit(u, d, Base(mode), u + 1);
  }

  lemma AppendDigit(u: nat, d: nat, b: nat, p: nat)
    requires d < b && u < p
    ensures (u * b + d) / b == u && (u * b + d) % b == d && u * b + d < p * b
  {
    DivUnique(u * b + d, b, u, d);
    MulMonotone(u + 1, p, b);
  }

  /** A group fits its bit field. */
  lemma GroupFits(mode: Mode, s: string)
    requires IsPacked(mode) && ValidText(mode, s) && 1 <= |s| <= GroupSize(mode)
    ensures GroupValue(mode, s) < Pow2(GroupBits(mode, |s|))
    ensures GroupBits(mode, |s|) <= 16
  {
    GroupRoundTrip(mode, s);
    hide *;
    PowerFits(mode, |s|);
  }

  lemma PowerFits(mode: Mode, n: nat)
    requires IsPacked(mode) && 1 <= n <= GroupSize(mode)
    ensures Power(Base(mode), n) <= Pow2(GroupBits(mode, n)) && GroupBits(mode, n) <= 16
  {
    assert n == 1 || n == 2 || n == 3;
    assert Pow2(4) == 16 && Pow2(6) == 64 && Pow2(7) == 128;
    assert Pow2(10) == 8 * Pow2(7) && Pow2(11) == 2 * Pow2(10);
    assert Power(10, 1) == 10 && Power(10, 2) == 100 && Power(10, 3) == 1000;
    assert Power(45, 1) == 45 && Power(45, 2) == 2025;
  }

  // ---------- payload bits ----------

  /** The bits of a text in one of the three modes that this repository produces. */
  ghost function PayloadBits(mode: Mode, text: string): seq<bool>
    requires ValidText(mode, text)
  {
    if IsPacked(mode) then PackedBits(mode, text)
    else BitsOf(TextBytes(text))
  }

  ghost function PackedBits(mode: Mode, text: string): seq<bool>
    requires IsPacked(mode) && ValidText(mode, text)
  {
    if text == "" then []
    else
      var n := FirstGroup(mode, |text|);
      NatBits(GroupValue(mode, text[..n]), GroupBits(mode, n)) + PackedBits(mode, text[n..])
  }

  /** Size of the first group of a text of the given length. */
  function FirstGroup(mode: Mode, length: nat): nat {
    if length < GroupSize(mode) then length else GroupSize(mode)
  }

  /** The cast of each character to a byte. */
  function TextBytes(text: string): (bytes: seq<bv8>)
    ensures |bytes| == |text|
  {
    seq(|text|, i requires 0 <= i < |text| => ByteFrom(text[i] as int))
  }

  /** Reads `count` characters of a mode from a bit string. */
  ghost function ReadPacked(mode: Mode, bits: seq<bool>, count: nat): string
    requires IsPacked(mode)
    decreases count
  {
    var n := FirstGroup(mode, count);
    if n == 0 || |bits| < GroupBits(mode, n) then ""
    else
      GroupText(mode, BitsToNat(bits[..GroupBits(mode, n)]), n) +
        ReadPacked(mode, bits[GroupBits(mode, n)..], count - n)
  }

  ghost function ReadBytes(bits: seq<bool>, count: nat): string
  {
    if count == 0 || |bits| < 8 then ""
    else
      EightBits(bits[..8]);
      [BitsToNat(bits[..8]) as char] + ReadBytes(bits[8..], count - 1)
  }

  lemma EightBits(bits: seq<bool>)
    requires |bits| == 8
    ensures BitsToNat(bits) < 256
  {
    BitsToNatRoundTrip(bits);
    assert Pow2(8) == 256;
  }

  // ---------- reading back what was packed ----------

  lemma {:induction false} ReadPackedBits(mode: Mode, text: string, rest: seq<bool>)
    requires IsPacked(mode) && ValidText(mode, text)
    ensures ReadPacked(mode, PackedBits(mode, text) + rest, |text|) == text
    decreases |text|
  {
    hide Base, GroupText, GroupValue, GroupBits, GroupSize, InAlphabet, BitsToNat, NatBits, Pow2, Power, PackedBits,
         ReadPacked;
    GroupSizes(mode);
    if text == "" {
      ReadNothing(mode, PackedBits(mode, text) + rest);
    } else {
      PackedStep(mode, text);
      ReadPackedStep(mode, PackedBits(mode, text) + rest, |text|);
      var n := FirstGroup(mode, |text|);
      var head, tail := text[..n], text[n..];
      var w := GroupBits(mode, n);
      var field := NatBits(GroupValue(mode, head), w);
      ReadPackedBits(mode, tail, rest);
      FieldInFront(field, PackedBits(mode, tail), rest);
      assert text == head + tail;
      GroupFits(mode, head);
      GroupRoundTrip(mode, head);
      NatBitsRoundTrip(GroupValue(mode, head), w);
    }
  }

  lemma PackedStep(mode: Mode, text: string)
    requires IsPacked(mode) && ValidText(mode, text) && text != ""
    ensures var n := FirstGroup(mode, |text|);
            PackedBits(mode, text) == NatBits(GroupValue(mode, text[..n]), GroupBits(mode, n)) +
              PackedBits(mode, text[n..])
  {
    hide GroupValue, InAlphabet, NatBits, GroupBits;
  }

  lemma ReadNothing(mode: Mode, bits: seq<bool>)
    requires IsPacked(mode)
    ensures ReadPacked(mode, bits, 0) == ""
  {
  }

  lemma ReadPackedStep(mode: Mode, bits: seq<bool>, count: nat)
    requires IsPacked(mode) && FirstGroup(mode, count) > 0 && |bits| >= GroupBits(mode, FirstGroup(mode, count))
    ensures var n := FirstGroup(mode, count);
            ReadPacked(mode, bits, count) ==
            GroupText(mode, BitsToNat(bits[..GroupBits(mode, n)]), n) +
              ReadPacked(mode, bits[GroupBits(mode, n)..], count - n)
  {
    hide GroupText, BitsToNat, GroupBits;
  }

  lemma PairValue(a: char, b: char)
    requires InAlphabet(Alphanumeric, a) && InAlphabet(Alphanumeric, b)
    ensures ValidText(Alphanumeric, [a, b]) && ValidText(Alphanumeric, [a])
    ensures GroupValue(Alphanumeric, [a, b]) == 45 * AlphanumericValue(a) + AlphanumericValue(b)
    ensures GroupValue(Alphanumeric, [a]) == AlphanumericValue(a)
  {
    hide AlphanumericValue, DigitOf, InAlphabet;
    AlphanumericByCode(a);
    AlphanumericByCode(b);
    assert [a, b][..1] == [a] && [a][..0] == "";
    assert GroupValue(Alphanumeric, "") == 0;
  }

  /** The value of a decimal digit. */
  function DecimalValue(c: char): (d: int)
    ensures '0' <= c <= '9' ==> 0 <= d < 10
  {
    c as int - '0' as int
  }

  lemma TripleValue(a: char, b: char, c: char)
    requires '0' <= a <= '9' && '0' <= b <= '9' && '0' <= c <= '9'
    ensures ValidText(Numeric, [a, b, c]) && ValidText(Numeric, [a, b]) && ValidText(Numeric, [a])
    ensures GroupValue(Numeric, [a, b, c]) == 100 * DecimalValue(a) + 10 * DecimalValue(b) + DecimalValue(c)
    ensures GroupValue(Numeric, [a, b]) == 10 * DecimalValue(a) + DecimalValue(b)
    ensures GroupValue(Numeric, [a]) == DecimalValue(a)
  {
    assert ValidText(Numeric, [a, b, c]) && ValidText(Numeric, [a, b]) && ValidText(Numeric, [a]);
    assert Base(Numeric) == 10;
    DecimalDigit(a);
    DecimalDigit(b);
    DecimalDigit(c);
    assert [a, b, c][..2] == [a, b] && [a, b][..1] == [a] && [a][..0] == "";
    EmptyGroup(Numeric);
    GroupStep(Numeric, [a], 0);
    GroupStep(Numeric, [a, b], 1);
    GroupStep(Numeric, [a, b, c], 2);
  }

  lemma DecimalDigit(c: char)
    requires '0' <= c <= '9'
    ensures InAlphabet(Numeric, c) && DigitOf(Numeric, c) == DecimalValue(c)
  {
  }

  /**
   * The bits of alphanumeric text: each pair as first times 45 plus second in eleven bits, a last single character
   * in six.
   */
  ghost function AlphanumericStream(text: string): seq<bool>
    requires forall i | 0 <= i < |text| :: AlphanumericValue(text[i]) >= 0
  {
    if |text| >= 2 then
      NatBits(45 * AlphanumericValue(text[0]) + AlphanumericValue(text[1]), 11) + AlphanumericStream(text[2..])
    else if |text| == 1 then NatBits(AlphanumericValue(text[0]), 6)
    else []
  }

  lemma {:induction false} AlphanumericGroups(text: string)
    requires ValidText(Alphanumeric, text)
    ensures forall i | 0 <= i < |text| :: AlphanumericValue(text[i]) >= 0
    ensures PackedBits(Alphanumeric, text) == AlphanumericStream(text)
    decreases |text|
  {
    hide AlphanumericValue, GroupValue, InAlphabet, NatBits, PackedBits;
    forall i | 0 <= i < |text| ensures AlphanumericValue(text[i]) >= 0 {
      AlphanumericByCode(text[i]);
    }
    if text == "" {
      PackedNothing(Alphanumeric);
    } else {
      PackedStep(Alphanumeric, text);
      if |text| == 1 {
        PairValue(text[0], text[0]);
        PackedNothing(Alphanumeric);
        assert text[..1] == [text[0]] && text[1..] == "";
      } else {
        PairValue(text[0], text[1]);
        assert text[..2] == [text[0], text[1]];
        AlphanumericGroups(text[2..]);
      }
    }
  }

  /** The bits of decimal text: each triple as a number in ten bits, the last one or two digits in four or seven. */
  ghost function NumericStream(text: string): seq<bool>
    requires forall i | 0 <= i < |text| :: '0' <= text[i] <= '9'
  {
    if |text| >= 3 then
      NatBits(100 * DecimalValue(text[0]) + 10 * DecimalValue(text[1]) + DecimalValue(text[2]), 10) +
      NumericStream(text[3..])
    else if |text| == 2 then NatBits(10 * DecimalValue(text[0]) + DecimalValue(text[1]), 7)
    else if |text| == 1 then NatBits(DecimalValue(text[0]), 4)
    else []
  }

  lemma {:induction false} NumericGroups(text: string)
    requires ValidText(Numeric, text)
    ensures forall i | 0 <= i < |text| :: '0' <= text[i] <= '9'
    ensures PackedBits(Numeric, text) == NumericStream(text)
    decreases |text|
  {
    hide DecimalValue, GroupValue, NatBits, PackedBits;
    assert forall i | 0 <= i < |text| :: InAlphabet(Numeric, text[i]);
    if text == "" {
      PackedNothing(Numeric);
    } else {
      PackedStep(Numeric, text);
      if |text| == 1 {
        TripleValue(text[0], text[0], text[0]);
        PackedNothing(Numeric);
        assert text[..1] == [text[0]] && text[1..] == "";
      } else if |text| == 2 {
        TripleValue(text[0], text[1], text[1]);
        PackedNothing(Numeric);
        assert text[..2] == [text[0], text[1]] && text[2..] == "";
      } else {
        TripleValue(text[0], text[1], text[2]);
        assert text[..3] == [text[0], text[1], text[2]];
        NumericGroups(text[3..]);
      }
    }
  }

  lemma FieldInFront(field: seq<bool>, tail: seq<bool>, rest: seq<bool>)
    ensures |field + tail + rest| >= |field|
    ensures (field + tail + rest)[..|field|] == field && (field + tail + rest)[|field|..] == tail + rest
  {
  }

  lemma GroupSizes(mode: Mode)
    ensures GroupSize(mode) == 2 || GroupSize(mode) == 3
  {
  }

  lemma {:induction false} ReadByteBits(text: string, rest: seq<bool>)
    requires ValidText(Byte, text)
    ensures ReadBytes(BitsOf(TextBytes(text)) + rest, |text|) == text
  {
    hide BitsOf, TextBytes, ByteFrom, ByteValue, BitsToNat;
    if text != "" {
      var c, tail := text[0], text[1..];
      ReadByteBits(tail, rest);
      TextBytesCons(text);
      BitsOfConcat([ByteFrom(c as int)], TextBytes(tail));
      var bits := BitsOf(TextBytes(text)) + rest;
      assert bits[..8] == BitsOf([ByteFrom(c as int)]);
      assert bits[8..] == BitsOf(TextBytes(tail)) + rest;
      CharBits(c);
    }
  }

  lemma CharBits(c: char)
    requires c as int < 256
    ensures BitsToNat(BitsOf([ByteFrom(c as int)])) == c as int
  {
    hide ByteFrom, BitsToNat, BitsOf;
    ByteValueFrom(c as int);
  }

  lemma TextBytesCons(text: string)
    requires text != ""
    ensures TextBytes(text) == [ByteFrom(text[0] as int)] + TextBytes(text[1..])
  {
    hide ByteFrom;
  }

  /** Every text comes back from its payload bits, whatever follows them. */
  lemma PayloadRoundTrip(mode: Mode, text: string, rest: seq<bool>)
    requires ValidText(mode, text)
    ensures ReadPayload(mode, PayloadBits(mode, text) + rest, |text|) == text
  {
    if IsPacked(mode) {
      ReadPackedBits(mode, text, rest);
    } else if text != "" {
      assert InAlphabet(mode, text[0]);
      ReadByteBits(text, rest);
    }
  }

  // ---------- segment lengths ----------

  /** Bits for numChars characters, or -1 when that exceeds the limit. */
  function CalcSegmentBitLength(mode: Mode, numChars: nat): (r: int)
    ensures r == -1 || 0 <= r <= INT16_MAX
  {
    if numChars > INT16_MAX then -1
    else
      var result :=
        match mode
        case Numeric => (numChars * 10 + 2) / 3
        case Alphanumeric => (numChars * 11 + 1) / 2
        case Byte => numChars * 8
        case Kanji => numChars * 13
        case Eci => if numChars == 0 then 3 * 8 else -1;
      if result > INT16_MAX || result < 0 then -1 else result
  }

  /** For every mode the longest text with a length, and that length: the least number of bits that holds 10 bits for
      three digits, 11 for two alphanumeric characters, 8 for a byte or 13 for a Kanji character. */
  lemma BitLengthExactly(mode: Mode, numChars: nat)
    ensures var r := CalcSegmentBitLength(mode, numChars);
            match mode
            case Numeric => if numChars <= 9830 then 3 * (r - 1) < 10 * numChars <= 3 * r else r == -1
            case Alphanumeric => if numChars <= 5957 then 2 * (r - 1) < 11 * numChars <= 2 * r else r == -1
            case Byte => if numChars <= 4095 then r == 8 * numChars else r == -1
            case Kanji => if numChars <= 2520 then r == 13 * numChars else r == -1
            case Eci => if numChars == 0 then r == 24 else r == -1
  {
  }

  lemma {:induction false} PackedLength(mode: Mode, text: string)
    requires IsPacked(mode) && ValidText(mode, text)
    ensures |PackedBits(mode, text)| == if mode == Numeric then (|text| * 10 + 2) / 3 else (|text| * 11 + 1) / 2
    decreases |text|
  {
    hide GroupValue, InAlphabet;
    if |text| >= GroupSize(mode) {
      PackedLength(mode, text[GroupSize(mode)..]);
    }
  }

  /** The emitted bits of a text are as many as announced. */
  lemma PayloadLength(mode: Mode, text: string)
    requires ValidText(mode, text) && CalcSegmentBitLength(mode, |text|) != -1
    requires mode == Numeric || mode == Alphanumeric || mode == Byte
    ensures |PayloadBits(mode, text)| == CalcSegmentBitLength(mode, |text|)
  {
    if IsPacked(mode) {
      PackedLength(mode, text);
    }
  }

  ghost function ReadPayload(mode: Mode, bits: seq<bool>, count: nat): string {
    if IsPacked(mode) then ReadPacked(mode, bits, count) else ReadBytes(bits, count)
  }

  // ---------- segments ----------

  /** The segment struct; data may be null when there are no bits. */
  datatype Segment = Segment(mode: Mode, numChars: nat, data: array?<bv8>, bitLength: nat)

  /** What the struct's documentation requires of its fields. */
  ghost predicate ValidSegment(seg: Segment) {
    && seg.numChars <= INT16_MAX && seg.bitLength <= INT16_MAX
    && (seg.bitLength > 0 ==> seg.data != null)
    && (seg.data != null ==> seg.bitLength <= 8 * seg.data.Length)
  }

  /** The payload that a segment refers to. */
  ghost function SegmentBits(seg: Segment): (bits: seq<bool>)
    requires ValidSegment(seg)
    reads if seg.data == null then {} else {seg.data}
    ensures |bits| == seg.bitLength
  {
    if seg.data == null then [] else BitsOf(seg.data[..])[..seg.bitLength]
  }

  method IsNumericText(text: string) returns (r: bool)
    ensures r == ValidText(Numeric, text)
  {
    for i := 0 to |text|
      invariant ValidText(Numeric, text[..i])
    {
      if text[i] < '0' || text[i] > '9' {
        assert !InAlphabet(Numeric, text[i]);
        return false;
      }
      assert text[..i + 1] == text[..i] + [text[i]];
    }
    assert text[..|text|] == text;
    r := true;
  }

  method IsAlphanumericText(text: string) returns (r: bool)
    ensures r == ValidText(Alphanumeric, text)
  {
    hide Charset;
    for i := 0 to |text|
      invariant ValidText(Alphanumeric, text[..i])
    {
      if Find(Charset(), text[i], 0) == -1 {
        assert Charset()[0..] == Charset();
        assert !InAlphabet(Alphanumeric, text[i]);
        return false;
      }
      assert text[..i + 1] == text[..i] + [text[i]];
    }
    assert text[..|text|] == text;
    r := true;
  }

  lemma {:induction false} PackedAppend(mode: Mode, a: string, b: string)
    requires IsPacked(mode) && ValidText(mode, a + b) && |a| % GroupSize(mode) == 0 && 1 <= |b| <= GroupSize(mode)
    ensures ValidText(mode, a) && ValidText(mode, b)
    ensures PackedBits(mode, a + b) == PackedBits(mode, a) + NatBits(GroupValue(mode, b), GroupBits(mode, |b|))
    decreases |a|
  {
    hide InAlphabet, GroupValue, NatBits, GroupBits, PackedBits;
    assert forall i | 0 <= i < |a| :: a[i] == (a + b)[i];
    assert forall i | 0 <= i < |b| :: b[i] == (a + b)[|a| + i];
    var g := GroupSize(mode);
    PackedNothing(mode);
    PackedStep(mode, a + b);
    if a == "" {
      assert a + b == b && b[|b|..] == "" && b[..|b|] == b;
    } else {
      PackedStep(mode, a);
      assert (a + b)[..g] == a[..g] && (a + b)[g..] == a[g..] + b;
      PackedAppend(mode, a[g..], b);
    }
  }

  lemma PackedNothing(mode: Mode)
    requires IsPacked(mode)
    ensures PackedBits(mode, "") == []
  {
  }

  /** One character more in the accumulator. */
  lemma GroupAppend(mode: Mode, text: string, from: nat, i: nat)
    requires IsPacked(mode) && ValidText(mode, text) && from <= i < |text|
    ensures GroupValue(mode, text[from..i + 1]) == GroupValue(mode, text[from..i]) * Base(mode) + DigitOf(mode, text[i])
  {
    hide DigitOf, InAlphabet;
    assert text[from..i + 1][..i - from] == text[from..i];
  }

  /** The buffer, its announced length and the part of the text already packed, with the open group. */
  ghost predicate Packing(mode: Mode, text: string, buffer: seq<bv8>, capacity: nat, bitLength: nat, i: nat,
                          accumData: nat, accumCount: nat)
  {
    && IsPacked(mode) && ValidText(mode, text) && accumCount <= i <= |text|
    && accumCount < GroupSize(mode) && (i - accumCount) % GroupSize(mode) == 0
    && accumData == GroupValue(mode, text[i - accumCount..i])
    && bitLength == |PackedBits(mode, text[..i - accumCount])|
    && Holds(buffer, PackedBits(mode, text[..i - accumCount]), capacity)
  }

  /** The capacity suffices for a prefix of the text. */
  lemma PrefixFits(mode: Mode, text: string, n: nat)
    requires IsPacked(mode) && ValidText(mode, text) && n <= |text|
    ensures |PackedBits(mode, text[..n])| <= |PackedBits(mode, text)|
  {
    PackedLength(mode, text[..n]);
    PackedLength(mode, text);
  }

  /** Writes a completed (or the last, shorter) group. */
  method FlushGroup(mode: Mode, text: string, buf: array<bv8>, ghost capacity: nat, bitLength: nat, i: nat,
                    accumData: nat, accumCount: nat)
    returns (newLength: nat)
    requires IsPacked(mode) && ValidText(mode, text) && 1 <= accumCount <= GroupSize(mode) && accumCount <= i <= |text|
    requires (i - accumCount) % GroupSize(mode) == 0 && accumData == GroupValue(mode, text[i - accumCount..i])
    requires bitLength == |PackedBits(mode, text[..i - accumCount])|
    requires Holds(buf[..], PackedBits(mode, text[..i - accumCount]), capacity) && |PackedBits(mode, text)| <= capacity
    modifies buf
    ensures newLength == |PackedBits(mode, text[..i])| && Holds(buf[..], PackedBits(mode, text[..i]), capacity)
  {
    hide PackedBits, GroupValue, InAlphabet, Holds, NatBits, BitsOf;
    ghost var a, b := text[..i - accumCount], text[i - accumCount..i];
    assert text[..i] == a + b;
    PackedAppend(mode, a, b);
    PrefixFits(mode, text, i);
    GroupFits(mode, b);
    newLength := AppendToStream(accumData, GroupBits(mode, accumCount), buf, bitLength, PackedBits(mode, a), capacity);
  }

  method MakeNumeric(digits: string, buf: array<bv8>) returns (seg: Segment)
    requires ValidText(Numeric, digits) && CalcSegmentBitLength(Numeric, |digits|) != -1
    requires CalcSegmentBitLength(Numeric, |digits|) <= 8 * buf.Length
    modifies buf
    ensures seg == Segment(Numeric, |digits|, buf, CalcSegmentBitLength(Numeric, |digits|))
    ensures ValidSegment(seg) && SegmentBits(seg) == PayloadBits(Numeric, digits)
    ensures (forall i | 0 <= i < |digits| :: '0' <= digits[i] <= '9') && SegmentBits(seg) == NumericStream(digits)
  {
    hide PackedBits, Holds, BitsOf, GroupValue, InAlphabet, NumericStream, DecimalValue;
    var bitLen := CalcSegmentBitLength(Numeric, |digits|);
    PackedLength(Numeric, digits);
    ghost var capacity := 8 * ((bitLen + 7) / 8);
    forall k | 0 <= k < (bitLen + 7) / 8 {
      buf[k] := 0;
    }
    HoldsNothing(buf[..], (bitLen + 7) / 8);
    var bitLength: nat, accumData: nat, accumCount: nat := 0, 0, 0;
    StartPacking(Numeric, digits, buf[..], capacity);
    for i := 0 to |digits|
      invariant Packing(Numeric, digits, buf[..], capacity, bitLength, i, accumData, accumCount)
    {
      assert InAlphabet(Numeric, digits[i]);
      GroupAppend(Numeric, digits, i - accumCount, i);
      accumData := accumData * 10 + (digits[i] as int - '0' as int);
      accumCount := accumCount + 1;
      if accumCount == 3 {
        bitLength := FlushGroup(Numeric, digits, buf, capacity, bitLength, i + 1, accumData, 3);
        EmptyGroupAt(Numeric, digits, i + 1);
        accumData := 0;
        accumCount := 0;
      }
    }
    if accumCount > 0 {
      bitLength := FlushGroup(Numeric, digits, buf, capacity, bitLength, |digits|, accumData, accumCount);
    }
    assert digits[..|digits|] == digits;
    assert bitLength == bitLen;
    HoldsPrefix(buf[..], PackedBits(Numeric, digits), capacity);
    NumericGroups(digits);
    seg := Segment(Numeric, |digits|, buf, bitLength);
  }

  lemma StartPacking(mode: Mode, text: string, buffer: seq<bv8>, capacity: nat)
    requires IsPacked(mode) && ValidText(mode, text) && Holds(buffer, [], capacity)
    ensures Packing(mode, text, buffer, capacity, 0, 0, 0, 0)
  {
    hide Holds;
    EmptyGroupAt(mode, text, 0);
    assert text[..0] == "";
  }

  lemma EmptyGroupAt(mode: Mode, text: string, i: nat)
    requires IsPacked(mode) && ValidText(mode, text) && i <= |text|
    ensures GroupValue(mode, text[i..i]) == 0
  {
  }

  lemma HoldsPrefix(buffer: seq<bv8>, stream: seq<bool>, capacity: nat)
    requires Holds(buffer, stream, capacity)
    ensures |stream| <= |BitsOf(buffer)| && BitsOf(buffer)[..|stream|] == stream
  {
  }

  method MakeAlphanumeric(text: string, buf: array<bv8>) returns (seg: Segment)
    requires ValidText(Alphanumeric, text) && CalcSegmentBitLength(Alphanumeric, |text|) != -1
    requires CalcSegmentBitLength(Alphanumeric, |text|) <= 8 * buf.Length
    modifies buf
    ensures seg == Segment(Alphanumeric, |text|, buf, CalcSegmentBitLength(Alphanumeric, |text|))
    ensures ValidSegment(seg) && SegmentBits(seg) == PayloadBits(Alphanumeric, text)
    ensures (forall i | 0 <= i < |text| :: AlphanumericValue(text[i]) >= 0) &&
            SegmentBits(seg) == AlphanumericStream(text)
  {
    hide PackedBits, Holds, BitsOf, GroupValue, Charset, AlphanumericStream, AlphanumericValue;
    var bitLen := CalcSegmentBitLength(Alphanumeric, |text|);
    PackedLength(Alphanumeric, text);
    ghost var capacity := 8 * ((bitLen + 7) / 8);
    forall k | 0 <= k < (bitLen + 7) / 8 {
      buf[k] := 0;
    }
    HoldsNothing(buf[..], (bitLen + 7) / 8);
    var bitLength: nat, accumData: nat, accumCount: nat := 0, 0, 0;
    StartPacking(Alphanumeric, text, buf[..], capacity);
    for i := 0 to |text|
      invariant Packing(Alphanumeric, text, buf[..], capacity, bitLength, i, accumData, accumCount)
    {
      assert InAlphabet(Alphanumeric, text[i]);
      GroupAppend(Alphanumeric, text, i - accumCount, i);
      var temp := Find(Charset(), text[i], 0);
      assert Charset()[0..] == Charset();
      accumData := accumData * 45 + temp;
      accumCount := accumCount + 1;
      if accumCount == 2 {
        bitLength := FlushGroup(Alphanumeric, text, buf, capacity, bitLength, i + 1, accumData, 2);
        EmptyGroupAt(Alphanumeric, text, i + 1);
        accumData := 0;
        accumCount := 0;
      }
    }
    if accumCount > 0 {
      bitLength := FlushGroup(Alphanumeric, text, buf, capacity, bitLength, |text|, accumData, 1);
    }
    assert text[..|text|] == text;
    assert bitLength == bitLen;
    HoldsPrefix(buf[..], PackedBits(Alphanumeric, text), capacity);
    AlphanumericGroups(text);
    seg := Segment(Alphanumeric, |text|, buf, bitLength);
  }
}
