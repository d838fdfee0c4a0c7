/** pkg/watermark/watermark.go: user id and timestamp printed as invisible characters and
    parsed back out of surrounding text.  Strings are sequences of runes; a decoded user id
    is a sequence of bytes, as the decoder writes it. */
module Watermark {
  import opened Strings

  const ZERO_WIDTH_SPACE: char := '\U{200B}'
  const ZERO_WIDTH_NON_JOINER: char := '\U{200C}'
  const ZERO_WIDTH_JOINER: char := '\U{200D}'

  type Byte = x: int | 0 <= x < 256

  const MAX_INT64: int := 0x7FFF_FFFF_FFFF_FFFF

  datatype Decoded =
    | NoWatermark
    | InvalidStructure
    | Found(userId: seq<Byte>, timestamp: int)

  // ---------- Bits ----------

  /** fmt's %08b */
  function Bits(c: char): (bits: string)
    ensures |bits| >= 8
  {
    PadTo8(Numeral(c as int, 2))
  }

  function PadTo8(s: string): (t: string)
    ensures |t| == if |s| < 8 then 8 else |s|
    decreases 8 - |s|
  {
    if |s| < 8 then PadTo8("0" + s) else s
  }

  function BinaryOf(s: string): string {
    if s == "" then "" else BinaryOf(s[..|s| - 1]) + Bits(s[|s| - 1])
  }

  /** strconv.FormatInt(t, 2) */
  function FormatBinary(t: Int64): string {
    if t < 0 then "-" + Numeral(0 - (t as int), 2) else Numeral(t, 2)
  }

  /** The value strconv.ParseInt(s, 2, 64) computes before its range check. */
  function BitValue(s: string): nat {
    if s == "" then 0 else 2 * BitValue(s[..|s| - 1]) + (if s[|s| - 1] == '1' then 1 else 0)
  }

  /** Eight bits a byte; what is left over at the end is dropped. */
  function BytesOf(s: string): seq<Byte> {
    if |s| < 8 then [] else [BitValue(s[..8]) % 256] + BytesOf(s[8..])
  }

  method ToBinary(s: string) returns (bin: string)
    ensures bin == BinaryOf(s)
  {
    bin := "";
    for i := 0 to |s|
      invariant bin == BinaryOf(s[..i])
    {
      assert s[..i + 1][..i] == s[..i];
      bin := bin + Bits(s[i]);
    }
    assert s[..|s|] == s;
  }

  lemma NextByte(s: string, i: nat)
    requires i + 8 <= |s|
    ensures BytesOf(s[i..]) == [BitValue(s[i..i + 8]) % 256] + BytesOf(s[i + 8..])
  {
    assert s[i..][..8] == s[i..i + 8] && s[i..][8..] == s[i + 8..];
  }

  lemma NoByte(s: string)
    requires |s| < 8
    ensures BytesOf(s) == []
  {
  }

  method FromBinary(s: string) returns (text: seq<Byte>)
    ensures text == BytesOf(s)
  {
    text := [];
    var i := 0;
    assert s[0..] == s && [] + BytesOf(s) == BytesOf(s);
    hide BytesOf, BitValue;
    while i + 8 <= |s|
      invariant 0 <= i <= |s|
      invariant text + BytesOf(s[i..]) == BytesOf(s)
    {
      NextByte(s, i);
      Regroup(text, [BitValue(s[i..i + 8]) % 256], BytesOf(s[i + 8..]));
      text := text + [BitValue(s[i..i + 8]) % 256];
      i := i + 8;
    }
    NoByte(s[i..]);
  }

  // ---------- Printing ----------

  function Invisible(bit: char): char {
    if bit == '0' then ZERO_WIDTH_SPACE else ZERO_WIDTH_NON_JOINER
  }

  function InvisibleBits(bits: string): (s: string)
    ensures |s| == |bits|
    ensures forall i | 0 <= i < |s| :: s[i] == Invisible(bits[i])
  {
    seq(|bits|, i requires 0 <= i < |bits| => Invisible(bits[i]))
  }

  predicate IsZeroWidth(c: char) {
    c == ZERO_WIDTH_SPACE || c == ZERO_WIDTH_NON_JOINER || c == ZERO_WIDTH_JOINER
  }

  function Mark(userId: string, timestamp: Int64): string {
    [ZERO_WIDTH_JOINER]
    + (InvisibleBits(BinaryOf(userId))
       + ([ZERO_WIDTH_JOINER] + (InvisibleBits(FormatBinary(timestamp)) + [ZERO_WIDTH_JOINER])))
  }

  /** Nothing in a mark can be seen. */
  lemma MarkIsInvisible(userId: string, timestamp: Int64)
    ensures forall c | c in Mark(userId, timestamp) :: IsZeroWidth(c)
  {
    hide BinaryOf, FormatBinary;
    var user, time := InvisibleBits(BinaryOf(userId)), InvisibleBits(FormatBinary(timestamp));
    assert forall c | c in user || c in time :: IsZeroWidth(c);
  }

  /** A mark character by character: U+200D around and between, U+200B for 0, U+200C for 1. */
  lemma MarkCharacters(userId: string, timestamp: Int64)
    ensures var u, t, mark := BinaryOf(userId), FormatBinary(timestamp), Mark(userId, timestamp);
            && |mark| == |u| + |t| + 3
            && mark[0] == mark[|u| + 1] == mark[|u| + |t| + 2] == '\U{200D}'
            && (forall i | 0 <= i < |u| :: mark[1 + i] == if u[i] == '0' then '\U{200B}' else '\U{200C}')
            && (forall i | 0 <= i < |t| :: mark[|u| + 2 + i] == if t[i] == '0' then '\U{200B}' else '\U{200C}')
  {
    hide BinaryOf, FormatBinary;
  }

  /** The bits of user "ab" and timestamp 6. */
  lemma MarkOfOne()
    ensures BinaryOf("ab") == "0110000101100010" && FormatBinary(6) == "110"
  {
    SmallNumerals();
    BitsOfLetters();
    hide Bits, Numeral;
    BinaryNext("", 'a');
    BinaryNext("a", 'b');
    assert "" + ['a'] == "a" && "a" + ['b'] == "ab";
  }

  lemma BinaryNext(s: string, c: char)
    ensures BinaryOf(s + [c]) == BinaryOf(s) + Bits(c)
  {
    assert (s + [c])[..|s|] == s;
  }

  lemma BitsOfLetters()
    ensures Bits('a') == "01100001" && Bits('b') == "01100010"
  {
    SmallNumerals();
    hide Numeral;
    assert PadTo8("1100001") == "01100001" && PadTo8("1100010") == "01100010";
  }

  lemma SmallNumerals()
    ensures Numeral(97, 2) == "1100001" && Numeral(98, 2) == "1100010" && Numeral(6, 2) == "110"
  {
    assert Numeral(3, 2) == "11" && Numeral(6, 2) == "110" && Numeral(12, 2) == "1100";
    assert Numeral(24, 2) == "11000" && Numeral(48, 2) == "110000" && Numeral(49, 2) == "110001";
  }

  method Encode(userId: string, timestamp: Int64) returns (mark: string)
    ensures mark == Mark(userId, timestamp)
    ensures forall c | c in mark :: IsZeroWidth(c)
  {
    hide BinaryOf, FormatBinary;
    MarkIsInvisible(userId, timestamp);
    var userBin := ToBinary(userId);
    var timeBin := FormatBinary(timestamp);
    var builder := [ZERO_WIDTH_JOINER];
    for i := 0 to |userBin|
      invariant builder == [ZERO_WIDTH_JOINER] + InvisibleBits(userBin[..i])
    {
      builder := builder + [if userBin[i] == '0' then ZERO_WIDTH_SPACE else ZERO_WIDTH_NON_JOINER];
    }
    assert userBin[..|userBin|] == userBin;
    builder := builder + [ZERO_WIDTH_JOINER];
    var front := builder;
    for i := 0 to |timeBin|
      invariant builder == front + InvisibleBits(timeBin[..i])
    {
      builder := builder + [if timeBin[i] == '0' then ZERO_WIDTH_SPACE else ZERO_WIDTH_NON_JOINER];
    }
    assert timeBin[..|timeBin|] == timeBin;
    mark := builder + [ZERO_WIDTH_JOINER];
  }

  // ---------- Parsing ----------

  /** The zero-width characters of a text, as '0', '1' and the delimiter 'D'. */
  function Simpler(text: string): (s: string)
    ensures forall i | 0 <= i < |s| :: s[i] in "01D"
  {
    if text == "" then ""
    else Simpler(text[..|text| - 1]) + Symbol(text[|text| - 1])
  }

  function Symbol(c: char): string {
    if c == ZERO_WIDTH_SPACE then "0"
    else if c == ZERO_WIDTH_NON_JOINER then "1"
    else if c == ZERO_WIDTH_JOINER then "D"
    else ""
  }

  /** strings.Split(s, "D") */
  function Parts(s: string): (parts: seq<string>)
    ensures |parts| >= 1
  {
    Split(s, 'D')
  }

  /** Segment `i` and the one after it read as a user id and a timestamp. */
  predicate Readable(parts: seq<string>, i: nat)
    requires i + 2 < |parts|
  {
    |parts[i + 1]| >= 8 && parts[i + 2] != "" && BitValue(parts[i + 2]) <= MAX_INT64
  }

  function ReadingAt(parts: seq<string>, i: nat): Decoded
    requires i + 2 < |parts|
  {
    Found(BytesOf(parts[i + 1]), BitValue(parts[i + 2]))
  }

  /** `i` is the first readable pair. */
  ghost predicate FirstReadable(parts: seq<string>, i: nat) {
    i + 2 < |parts| && Readable(parts, i) && forall j | 0 <= j < i :: !Readable(parts, j)
  }

  /** The first readable pair from segment `i` on. */
  function DecodeFrom(parts: seq<string>, i: nat): Decoded
    decreases |parts| - i
  {
    if i + 2 >= |parts| then InvalidStructure
    else if Readable(parts, i) then ReadingAt(parts, i)
    else DecodeFrom(parts, i + 1)
  }

  function DecodeText(text: string): Decoded {
    if Simpler(text) == "" then NoWatermark else DecodeFrom(Parts(Simpler(text)), 0)
  }

  method Decode(text: string) returns (result: Decoded)
    ensures result == DecodeText(text)
  {
    var simpler := "";
    for i := 0 to |text|
      invariant simpler == Simpler(text[..i])
    {
      assert text[..i + 1][..i] == text[..i];
      simpler := simpler + Symbol(text[i]);
    }
    assert text[..|text|] == text;
    if simpler == "" {
      return NoWatermark;
    }
    var parts := Parts(simpler);
    for i := 0 to if |parts| > 2 then |parts| - 2 else 0
      invariant DecodeFrom(parts, i) == DecodeFrom(parts, 0)
    {
      var userBin, timeBin := parts[i + 1], parts[i + 2];
      if userBin != "" && timeBin != "" {
        var userId := FromBinary(userBin);
        BytesLength(userBin);
        if BitValue(timeBin) <= MAX_INT64 && userId != [] {
          return Found(userId, BitValue(timeBin));
        }
      }
    }
    return InvalidStructure;
  }

  lemma {:induction false} FirstReadableWins(parts: seq<string>, i: nat, j: nat)
    requires FirstReadable(parts, j) && i <= j
    ensures DecodeFrom(parts, i) == ReadingAt(parts, j)
    decreases j - i
  {
    if i < j {
      FirstReadableWins(parts, i + 1, j);
    }
  }

  lemma {:induction false} BytesLength(s: string)
    ensures |BytesOf(s)| == |s| / 8
  {
    if |s| >= 8 {
      BytesLength(s[8..]);
    }
  }

  // ---------- Segments of concatenated texts ----------

  lemma SimplerNext(text: string, c: char)
    ensures Simpler(text + [c]) == Simpler(text) + Symbol(c)
  {
    hide Symbol;
    assert (text + [c])[..|text|] == text;
  }

  lemma {:induction false} SimplerAppend(a: string, b: string)
    ensures Simpler(a + b) == Simpler(a) + Simpler(b)
  {
    if b == "" {
      assert a + b == a && Simpler(b) == "";
    } else {
      hide Simpler, Symbol;
      var n := |b| - 1;
      var init := b[..n];
      SimplerNext(a + init, b[n]);
      SimplerNext(init, b[n]);
      assert init + [b[n]] == b;
      Regroup(a, init, [b[n]]);
      SimplerAppend(a, init);
      Regroup(Simpler(a), Simpler(init), Symbol(b[n]));
    }
  }

  /** Invisible bits come back as the bits, with anything but '0' read as '1'. */
  function AsBits(bits: string): (s: string)
    ensures |s| == |bits|
    ensures forall i | 0 <= i < |s| :: s[i] == if bits[i] == '0' then '0' else '1'
  {
    seq(|bits|, i requires 0 <= i < |bits| => if bits[i] == '0' then '0' else '1')
  }

  lemma {:induction false} SimplerBits(bits: string)
    ensures Simpler(InvisibleBits(bits)) == AsBits(bits)
  {
    if bits != "" {
      var n := |bits| - 1;
      SimplerBits(bits[..n]);
      assert InvisibleBits(bits)[..n] == InvisibleBits(bits[..n]);
      assert AsBits(bits) == AsBits(bits[..n]) + [AsBits(bits)[n]];
    }
  }

  /** The segments of a text with a watermark in it: those in front, the two of the mark,
      those behind. */
  lemma MarkedParts(prefix: string, userId: string, timestamp: Int64, suffix: string)
    ensures Parts(Simpler(prefix + Mark(userId, timestamp) + suffix))
         == Parts(Simpler(prefix)) + [AsBits(BinaryOf(userId)), AsBits(FormatBinary(timestamp))]
           + Parts(Simpler(suffix))
  {
    hide BinaryOf, FormatBinary, Parts;
    var u, t := BinaryOf(userId), FormatBinary(timestamp);
    MarkSymbols(u, t);
    SimplerAppend(prefix, Mark(userId, timestamp));
    SimplerAppend(prefix + Mark(userId, timestamp), suffix);
    assert Simpler(Mark(userId, timestamp)) == "D" + (AsBits(u) + ("D" + (AsBits(t) + "D")));
    hide Simpler, Mark;
    SplitMarked(Simpler(prefix), AsBits(u), AsBits(t), Simpler(suffix));
  }

  lemma SplitMarked(p: string, u: string, t: string, s: string)
    requires 'D' !in u && 'D' !in t
    ensures Parts((p + ("D" + (u + ("D" + (t + "D"))))) + s) == Parts(p) + [u, t] + Parts(s)
  {
    hide Split;
    assert (p + ("D" + (u + ("D" + (t + "D"))))) + s == p + ("D" + (u + ("D" + (t + ("D" + s)))));
    SplitJoined('D', p, u + ("D" + (t + ("D" + s))));
    SplitJoined('D', u, t + ("D" + s));
    SplitJoined('D', t, s);
    SplitOne('D', u);
    SplitOne('D', t);
    assert Parts(p) + ([u] + ([t] + Parts(s))) == Parts(p) + [u, t] + Parts(s);
  }

  lemma MarkSymbols(u: string, t: string)
    ensures Simpler([ZERO_WIDTH_JOINER]
                    + (InvisibleBits(u) + ([ZERO_WIDTH_JOINER] + (InvisibleBits(t) + [ZERO_WIDTH_JOINER]))))
         == "D" + (AsBits(u) + ("D" + (AsBits(t) + "D")))
  {
    var j := [ZERO_WIDTH_JOINER];
    hide Simpler;
    JoinerSymbol();
    SimplerBits(u);
    SimplerBits(t);
    SimplerAppend(InvisibleBits(t), j);
    SimplerAppend(j, InvisibleBits(t) + j);
    SimplerAppend(InvisibleBits(u), j + (InvisibleBits(t) + j));
    SimplerAppend(j, InvisibleBits(u) + (j + (InvisibleBits(t) + j)));
  }

  lemma JoinerSymbol()
    ensures Simpler([ZERO_WIDTH_JOINER]) == "D"
  {
    assert [ZERO_WIDTH_JOINER][..0] == "";
    assert Simpler([ZERO_WIDTH_JOINER][..0]) == "" && "" + "D" == "D";
  }

  // ---------- Bits read back ----------

  lemma {:induction false} BitValueNumeral(n: nat)
    ensures BitValue(Numeral(n, 2)) == n
    ensures AsBits(Numeral(n, 2)) == Numeral(n, 2)
    decreases n
  {
    var s := Numeral(n, 2);
    forall i | 0 <= i < |s|
      ensures AsBits(s)[i] == s[i]
    {
      assert IsDigit(s[i], 2);
    }
    if n < 2 {
      assert s[..0] == "";
    } else {
      BitValueNumeral(n / 2);
      assert s[..|s| - 1] == Numeral(n / 2, 2);
    }
  }

  lemma {:induction false} LeadingZero(s: string)
    ensures BitValue("0" + s) == BitValue(s)
  {
    if s == "" {
      assert ("0" + s)[..0] == "";
    } else {
      LeadingZero(s[..|s| - 1]);
      assert ("0" + s)[..|s|] == "0" + s[..|s| - 1];
    }
  }

  lemma {:induction false} PadValue(s: string)
    ensures BitValue(PadTo8(s)) == BitValue(s)
    ensures AsBits(s) == s ==> AsBits(PadTo8(s)) == PadTo8(s)
    decreases 8 - |s|
  {
    if |s| < 8 {
      LeadingZero(s);
      PadValue("0" + s);
      assert AsBits("0" + s) == "0" + AsBits(s);
    }
  }

  lemma BitsValue(c: char)
    ensures BitValue(Bits(c)) == c as int && AsBits(Bits(c)) == Bits(c)
  {
    BitValueNumeral(c as int);
    PadValue(Numeral(c as int, 2));
  }

  function Pow2(k: nat): nat {
    if k == 0 then 1 else 2 * Pow2(k - 1)
  }

  lemma {:induction false} NumeralLength(n: nat, k: nat)
    requires k >= 1 && n < Pow2(k)
    ensures |Numeral(n, 2)| <= k
    decreases k
  {
    if n >= 2 {
      assert Pow2(1) == 2 * Pow2(0) == 2;
      NumeralLength(n / 2, k - 1);
    }
  }

  lemma {:induction false} BinaryBits(s: string)
    ensures AsBits(BinaryOf(s)) == BinaryOf(s)
    ensures s != "" ==> |BinaryOf(s)| >= 8
  {
    if s != "" {
      var n := |s| - 1;
      BinaryBits(s[..n]);
      BitsValue(s[n]);
      AsBitsAppend(BinaryOf(s[..n]), Bits(s[n]));
    }
  }

  lemma AsBitsAppend(a: string, b: string)
    ensures AsBits(a + b) == AsBits(a) + AsBits(b)
  {
  }

  // ---------- UTF-8 (RFC 3629, section 3) ----------

  function Utf8Rune(c: char): seq<Byte> {
    var n := c as int;
    if n < 0x80 then [n]
    else if n < 0x800 then [0xC0 + n / 0x40, 0x80 + n % 0x40]
    else if n < 0x10000 then [0xE0 + n / 0x1000, 0x80 + n / 0x40 % 0x40, 0x80 + n % 0x40]
    else [0xF0 + n / 0x40000, 0x80 + n / 0x1000 % 0x40, 0x80 + n / 0x40 % 0x40, 0x80 + n % 0x40]
  }

  /** The bytes of a Go string. */
  function Utf8(s: string): seq<Byte> {
    if s == "" then [] else Utf8(s[..|s| - 1]) + Utf8Rune(s[|s| - 1])
  }

  predicate Ascii(s: string) {
    forall i | 0 <= i < |s| :: s[i] as int < 0x80
  }

  lemma {:induction false} BytesAppend(a: string, b: string)
    requires |a| % 8 == 0
    ensures BytesOf(a + b) == BytesOf(a) + BytesOf(b)
  {
    if a == "" {
      assert a + b == b;
    } else {
      assert (a + b)[..8] == a[..8] && (a + b)[8..] == a[8..] + b;
      BytesAppend(a[8..], b);
    }
  }

  lemma {:induction false} AsciiBytes(s: string)
    requires Ascii(s)
    ensures |BinaryOf(s)| % 8 == 0 && BytesOf(BinaryOf(s)) == Utf8(s)
  {
    if s != "" {
      hide Bits;
      var n := |s| - 1;
      AsciiBytes(s[..n]);
      AsciiByte(s[n]);
      BytesAppend(BinaryOf(s[..n]), Bits(s[n]));
    }
  }

  lemma AsciiByte(c: char)
    requires c as int < 0x80
    ensures |Bits(c)| == 8 && BytesOf(Bits(c)) == Utf8Rune(c)
  {
    assert Pow2(7) == 0x80;
    NumeralLength(c as int, 7);
    BitsValue(c);
    OneByte(Bits(c));
    hide Bits, BitValue, BytesOf;
  }

  lemma OneByte(bits: string)
    requires |bits| == 8
    ensures BytesOf(bits) == [BitValue(bits) % 256]
  {
    hide BitValue;
    assert bits[..8] == bits && bits[8..] == "" && BytesOf("") == [];
  }

  /** A rune outside ASCII takes more UTF-8 bytes than its bits fill. */
  lemma RuneTooShort(c: char)
    ensures |Bits(c)| <= 8 * |Utf8Rune(c)|
    ensures c as int >= 0x80 ==> |Bits(c)| < 8 * |Utf8Rune(c)|
  {
    var n := c as int;
    PowersOfTwo();
    if n < 0x80 {
      NumeralLength(n, 7);
    } else if n < 0x800 {
      NumeralLength(n, 11);
    } else if n < 0x10000 {
      NumeralLength(n, 16);
    } else {
      NumeralLength(n, 21);
    }
  }

  lemma PowersOfTwo()
    ensures Pow2(7) == 0x80 && Pow2(11) == 0x800 && Pow2(16) == 0x10000 && Pow2(21) == 0x200000
  {
    assert Pow2(4) == 16;
    assert Pow2(8) == 256;
    assert Pow2(12) == 0x1000;
    assert Pow2(16) == 0x10000;
    assert Pow2(20) == 0x100000;
  }

  lemma {:induction false} TooShort(s: string)
    ensures |BinaryOf(s)| <= 8 * |Utf8(s)|
    ensures !Ascii(s) ==> |BinaryOf(s)| < 8 * |Utf8(s)|
  {
    if s != "" {
      var n := |s| - 1;
      TooShort(s[..n]);
      RuneTooShort(s[n]);
    }
  }

  // ---------- Round trips ----------

  /** The segments in front of the mark's own, and the first of its own. */
  function Front(prefix: string, userId: string): (front: seq<string>)
    ensures |front| >= 2
  {
    Parts(Simpler(prefix)) + [AsBits(BinaryOf(userId))]
  }

  /** No two neighbouring segments in front of the mark's timestamp read as a watermark. */
  predicate NothingReadable(front: seq<string>) {
    forall i | 0 <= i < |front| - 2 :: !Readable(front, i)
  }

  /** Reading a watermark out of any text: an ASCII user id and a non-negative timestamp
      come back exactly, whatever follows the mark, when nothing in front of it reads as a
      watermark already. */
  lemma DecodesInContext(prefix: string, userId: string, timestamp: Int64, suffix: string)
    requires userId != "" && Ascii(userId) && timestamp >= 0
    requires NothingReadable(Front(prefix, userId))
    ensures DecodeText(prefix + Mark(userId, timestamp) + suffix) == Found(Utf8(userId), timestamp)
  {
    hide Simpler, Parts, BinaryOf, Mark, DecodeFrom, BytesOf, BitValue, Numeral, Utf8;
    var p, t := Parts(Simpler(prefix)), FormatBinary(timestamp);
    var u := BinaryOf(userId);
    MarkedParts(prefix, userId, timestamp, suffix);
    BinaryBits(userId);
    AsciiBytes(userId);
    BitValueNumeral(timestamp);
    var parts := p + [AsBits(u), AsBits(t)] + Parts(Simpler(suffix));
    var k := |p| - 1;
    assert parts[k + 1] == u && parts[k + 2] == t;
    forall j | 0 <= j < k
      ensures !Readable(parts, j)
    {
      var front := Front(prefix, userId);
      assert front[j + 1] == parts[j + 1] && front[j + 2] == parts[j + 2];
      assert !Readable(front, j);
    }
    assert FirstReadable(parts, k);
    FirstReadableWins(parts, 0, k);
    NotEmpty(prefix, userId, timestamp, suffix);
  }

  lemma NotEmpty(prefix: string, userId: string, timestamp: Int64, suffix: string)
    ensures Simpler(prefix + Mark(userId, timestamp) + suffix) != ""
  {
    MarkSymbols(BinaryOf(userId), FormatBinary(timestamp));
    SimplerAppend(prefix, Mark(userId, timestamp));
    SimplerAppend(prefix + Mark(userId, timestamp), suffix);
  }

  /** An earlier readable pair wins: then the appended watermark has no say in the result. */
  lemma EarlierMarkWins(prefix: string, userId: string, timestamp: Int64, suffix: string, i: nat)
    requires i + 2 < |Front(prefix, userId)| && FirstReadable(Front(prefix, userId), i)
    ensures DecodeText(prefix + Mark(userId, timestamp) + suffix) == ReadingAt(Front(prefix, userId), i)
  {
    hide Simpler, Parts, BinaryOf, Mark, DecodeFrom, BytesOf, BitValue, Numeral;
    MarkedParts(prefix, userId, timestamp, suffix);
    var front := Front(prefix, userId);
    var parts := Parts(Simpler(prefix)) + [AsBits(BinaryOf(userId)), AsBits(FormatBinary(timestamp))]
      + Parts(Simpler(suffix));
    assert forall j | 0 <= j < |front| :: parts[j] == front[j];
    forall j | 0 <= j <= i
      ensures Readable(parts, j) == Readable(front, j)
    {
      assert front[j + 1] == parts[j + 1] && front[j + 2] == parts[j + 2];
    }
    FirstReadableWins(parts, 0, i);
    NotEmpty(prefix, userId, timestamp, suffix);
  }

  /** Text whose segments after the first are all shorter than a byte is in nobody's way. */
  lemma ShortSegmentsInContext(prefix: string, userId: string, timestamp: Int64, suffix: string)
    requires userId != "" && Ascii(userId) && timestamp >= 0
    requires forall i | 0 < i < |Parts(Simpler(prefix))| :: |Parts(Simpler(prefix))[i]| < 8
    ensures DecodeText(prefix + Mark(userId, timestamp) + suffix) == Found(Utf8(userId), timestamp)
  {
    var p, front := Parts(Simpler(prefix)), Front(prefix, userId);
    forall i | 0 <= i < |front| - 2
      ensures !Readable(front, i)
    {
      assert front[i + 1] == p[i + 1];
    }
    DecodesInContext(prefix, userId, timestamp, suffix);
  }

  /** A mark with nothing around it has one pair to read. */
  lemma MarkAlone(userId: string, timestamp: Int64)
    ensures var u, t := AsBits(BinaryOf(userId)), AsBits(FormatBinary(timestamp));
            DecodeText(Mark(userId, timestamp)) ==
            if |u| >= 8 && BitValue(t) <= MAX_INT64 then Found(BytesOf(u), BitValue(t)) else InvalidStructure
  {
    hide Simpler, BinaryOf, Mark, BytesOf, BitValue, Numeral;
    var u, t := AsBits(BinaryOf(userId)), AsBits(FormatBinary(timestamp));
    MarkedParts("", userId, timestamp, "");
    NotEmpty("", userId, timestamp, "");
    assert "" + Mark(userId, timestamp) + "" == Mark(userId, timestamp);
    EmptyFront();
    var parts := [""] + [u, t] + [""];
    assert parts == ["", u, t, ""];
    assert t != "";
    assert DecodeFrom(parts, 2) == InvalidStructure;
    assert !Readable(parts, 1);
    assert DecodeFrom(parts, 1) == InvalidStructure;
  }

  lemma EmptyFront()
    ensures Parts(Simpler("")) == [""]
  {
    assert Simpler("") == "";
  }

  /** Which watermarks read back, on their own: exactly those of a non-empty ASCII user id
      and a non-negative timestamp. */
  lemma RoundTripIff(userId: string, timestamp: Int64)
    ensures DecodeText(Mark(userId, timestamp)) == Found(Utf8(userId), timestamp)
            <==> userId != "" && Ascii(userId) && timestamp >= 0
  {
    hide BytesOf, BitValue, Mark, Simpler, Parts, DecodeText;
    if userId != "" && Ascii(userId) && timestamp >= 0 {
      EmptyFront();
      ShortSegmentsInContext("", userId, timestamp, "");
      assert "" + Mark(userId, timestamp) + "" == Mark(userId, timestamp);
    } else {
      MarkAlone(userId, timestamp);
      TooShort(userId);
      BytesLength(AsBits(BinaryOf(userId)));
    }
  }

  /** A negative timestamp is read back as a different one: its sign is printed as a bit. */
  lemma NegativeTimestamp()
    ensures DecodeText(Mark("a", -1)) == Found(Utf8("a"), 3)
  {
    assert Ascii("a");
    BinaryBits("a");
    AsciiBytes("a");
    MarkAlone("a", -1);
    var t := AsBits(FormatBinary(-1));
    assert FormatBinary(-1) == "-1" && t == "11";
    assert t[..1] == "1" && t[..1][..0] == "";
    assert BitValue(t[..1]) == 1;
  }
}
