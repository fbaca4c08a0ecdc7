/** How the editor turns the grid's bit string into text: four unsigned 32-bit words
    (chunkAndFormat), the comma-separated hexadecimal export, and the binary display grouped
    by eight. Bit strings here are the '0'/'1' strings Grid.StateString produces. */
module Encoding {

  import opened Grid

  const WORD_BITS: nat := 32
  const WORD_COUNT: nat := 4
  const TWO_32: nat := 0x1_0000_0000

  /** A word as chunkAndFormat reports it: its padded 32-character bit string and its value. */
  datatype Word = Word(bits: string, value: nat)

  /** n '0' characters. */
  function Zeros(n: nat): (z: string)
    ensures |z| == n && forall i :: 0 <= i < n ==> z[i] == '0'
  {
    seq(n, _ => '0')
  }

  /** s.slice(lo, hi) for 0 <= lo <= hi: both ends are clamped to the string's length. */
  function Slice(s: string, lo: nat, hi: nat): (t: string)
    requires lo <= hi
    ensures |t| <= hi - lo
  {
    if lo >= |s| then [] else if hi <= |s| then s[lo..hi] else s[lo..]
  }

  /** Chunk i of the bit string, bits [32i, 32i + 32), right-padded with '0' up to 32 characters. */
  function PaddedChunk(bits: string, i: nat): (p: string)
    ensures |p| == WORD_BITS
  {
    var chunk := Slice(bits, i * WORD_BITS, (i + 1) * WORD_BITS);
    chunk + Zeros(WORD_BITS - |chunk|)
  }

  /** Character k of padded chunk i is bit 32i + k of the input, or the padding '0' past its end. */
  lemma PaddedChunkAt(bits: string, i: nat, k: nat)
    requires k < WORD_BITS
    ensures PaddedChunk(bits, i)[k] ==
              if i * WORD_BITS + k < |bits| then bits[i * WORD_BITS + k] else '0'
  {
  }

  /** The grid's 104 bits fill the first three chunks and the first 8 places of the last one;
      the last chunk's other 24 places are padding. */
  lemma LastChunkOfGrid(bits: string)
    requires |bits| == CELLS
    ensures PaddedChunk(bits, 3) == bits[96..] + Zeros(24)
    ensures forall i :: 0 <= i < 3 ==> PaddedChunk(bits, i) == bits[i * WORD_BITS .. i * WORD_BITS + WORD_BITS]
  {
  }

  function Pow2(n: nat): (p: nat)
    ensures p >= 1
  {
    if n == 0 then 1 else 2 * Pow2(n - 1)
  }

  /** The big-endian base-2 value of a '0'/'1' string: parseInt(s, 2). */
  function BinValue(s: string): nat
    requires IsBinary(s)
  {
    if s == [] then 0 else 2 * BinValue(s[..|s| - 1]) + (if s[|s| - 1] == '1' then 1 else 0)
  }

  /** A string of n binary digits denotes a value below 2^n. */
  lemma {:induction false} BinValueBound(s: string)
    requires IsBinary(s)
    ensures BinValue(s) < Pow2(|s|)
  {
    if s != [] {
      BinValueBound(s[..|s| - 1]);
    }
  }

  lemma Pow2Of32()
    ensures Pow2(32) == TWO_32
  {
    assert Pow2(8) == 256;
    assert Pow2(16) == 65536;
    assert Pow2(24) == 16777216;
  }

  /** The unsigned 32-bit conversion `x >>> 0` for a non-negative integer. */
  function ToUint32(x: nat): (r: nat)
    ensures r < TWO_32
    ensures x < TWO_32 ==> r == x
  {
    x % TWO_32
  }

  /** The value chunkAndFormat gives word i. */
  function WordValue(bits: string, i: nat): nat
    requires IsBinary(bits)
  {
    ToUint32(BinValue(PaddedChunk(bits, i)))
  }

  lemma PaddedChunkIsBinary(bits: string, i: nat)
    requires IsBinary(bits)
    ensures IsBinary(PaddedChunk(bits, i))
  {
    forall k | 0 <= k < WORD_BITS
      ensures PaddedChunk(bits, i)[k] == '0' || PaddedChunk(bits, i)[k] == '1'
    {
      PaddedChunkAt(bits, i, k);
    }
  }

  /** No word is truncated by the 32-bit conversion: word i is exactly the base-2 value of its
      32 characters, so it lies in [0, 2^32 - 1]. */
  lemma WordValueExact(bits: string, i: nat)
    requires IsBinary(bits)
    ensures IsBinary(PaddedChunk(bits, i))
    ensures WordValue(bits, i) == BinValue(PaddedChunk(bits, i)) < TWO_32
  {
    PaddedChunkIsBinary(bits, i);
    BinValueBound(PaddedChunk(bits, i));
    Pow2Of32();
  }

  /** chunkAndFormat: four words, word i holding padded chunk i and its unsigned value. */
  method ChunkAndFormat(bits: string) returns (words: seq<Word>)
    requires IsBinary(bits)
    ensures |words| == WORD_COUNT
    ensures forall i :: 0 <= i < WORD_COUNT ==>
              words[i].bits == PaddedChunk(bits, i) && IsBinary(words[i].bits) &&
              words[i].value == BinValue(words[i].bits) && words[i].value < TWO_32
  {
    words := [];
    for i := 0 to WORD_COUNT
      invariant |words| == i
      invariant forall j :: 0 <= j < i ==>
                  words[j].bits == PaddedChunk(bits, j) && IsBinary(words[j].bits) &&
                  words[j].value == BinValue(words[j].bits) && words[j].value < TWO_32
    {
      var chunk := Slice(bits, i * WORD_BITS, (i + 1) * WORD_BITS);
      var padded := chunk + Zeros(WORD_BITS - |chunk|);
      WordValueExact(bits, i);
      var val := ToUint32(BinValue(padded));
      words := words + [Word(padded, val)];
    }
  }

  /** A one followed by k zeros is 2^k. */
  lemma {:induction false} BinValueOfPower(k: nat)
    ensures IsBinary(['1'] + Zeros(k))
    ensures BinValue(['1'] + Zeros(k)) == Pow2(k)
  {
    var s := ['1'] + Zeros(k);
    if k > 0 {
      assert s[..|s| - 1] == ['1'] + Zeros(k - 1);
      BinValueOfPower(k - 1);
    }
  }

  /** All zeros is 0. */
  lemma {:induction false} BinValueOfZeros(k: nat)
    ensures BinValue(Zeros(k)) == 0
  {
    if k > 0 {
      assert Zeros(k)[..k - 1] == Zeros(k - 1);
      BinValueOfZeros(k - 1);
    }
  }

  /** With only cell (0, 0) lit, word 0 is 2147483648 (0x80000000): the first grid bit is the
      most significant bit of the first word. */
  lemma FirstCellIsTopBit()
    ensures WordValue(StateString(AllOff()[0 := true]), 0) == 2147483648
  {
    var bits := StateString(AllOff()[0 := true]);
    assert PaddedChunk(bits, 0) == ['1'] + Zeros(31);
    BinValueOfPower(31);
    Pow2Of32();
  }

  /** The digit character for d < 16: '0'..'9', then 'a'..'f'. */
  function HexDigit(d: nat): char
    requires d < 16
  {
    if d < 10 then ('0' as int + d) as char else ('a' as int + d - 10) as char
  }

  predicate IsHexChar(ch: char) {
    '0' <= ch <= '9' || 'a' <= ch <= 'f'
  }

  predicate IsLowerHex(s: string) {
    forall i :: 0 <= i < |s| ==> IsHexChar(s[i])
  }

  /** The value of one lower-case hexadecimal digit. */
  function DigitValue(ch: char): (d: nat)
    requires IsHexChar(ch)
    ensures d < 16 && HexDigit(d) == ch
  {
    if ch <= '9' then ch as int - '0' as int else ch as int - 'a' as int + 10
  }

  lemma DigitRoundTrip(d: nat)
    requires d < 16
    ensures IsHexChar(HexDigit(d)) && DigitValue(HexDigit(d)) == d
  {
  }

  /** The value a lower-case hexadecimal string denotes. */
  function HexValue(s: string): nat
    requires IsLowerHex(s)
  {
    if s == [] then 0 else 16 * HexValue(s[..|s| - 1]) + DigitValue(s[|s| - 1])
  }

  /** v.toString(16): the shortest lower-case hexadecimal rendering of v. */
  function ToHex(v: nat): (s: string)
    ensures |s| >= 1 && IsLowerHex(s)
  {
    if v < 16 then [HexDigit(v)] else ToHex(v / 16) + [HexDigit(v % 16)]
  }

  /** s.padStart(n, fill): fill characters prepended up to length n. */
  function PadStart(s: string, n: nat, fill: char): (p: string)
    ensures |p| == if |s| >= n then |s| else n
  {
    if |s| >= n then s else seq(n - |s|, _ => fill) + s
  }

  /** Reading ToHex(v) back as hexadecimal gives v. */
  lemma {:induction false} ToHexValue(v: nat)
    ensures HexValue(ToHex(v)) == v
  {
    DigitRoundTrip(v % 16);
    if v >= 16 {
      var s := ToHex(v);
      assert s[..|s| - 1] == ToHex(v / 16);
      ToHexValue(v / 16);
    }
  }

  function Pow16(k: nat): (p: nat)
    ensures p >= 1
  {
    if k == 0 then 1 else 16 * Pow16(k - 1)
  }

  lemma Pow16Of8()
    ensures Pow16(8) == TWO_32
  {
    assert Pow16(4) == 65536;
  }

  /** Below 16^k, ToHex needs at most k digits. */
  lemma {:induction false} ToHexLength(v: nat, k: nat)
    requires 1 <= k && v < Pow16(k)
    ensures |ToHex(v)| <= k
  {
    if v >= 16 {
      if k == 1 {
        assert false;
      } else {
        ToHexLength(v / 16, k - 1);
      }
    }
  }

  /** Leading '0' digits do not change a hexadecimal value. */
  lemma {:induction false} LeadingZerosValue(z: nat, s: string)
    requires IsLowerHex(s)
    ensures IsLowerHex(seq(z, _ => '0') + s)
    ensures HexValue(seq(z, _ => '0') + s) == HexValue(s)
  {
    var t := seq(z, _ => '0') + s;
    if s == [] {
      if z > 0 {
        assert t[..|t| - 1] == seq(z - 1, _ => '0') + [];
        LeadingZerosValue(z - 1, []);
      }
    } else {
      assert t[..|t| - 1] == seq(z, _ => '0') + s[..|s| - 1];
      LeadingZerosValue(z, s[..|s| - 1]);
    }
  }

  /** One exported token: "0x" and the value in 8 lower-case hexadecimal digits. */
  function HexToken(v: nat): string {
    "0x" + PadStart(ToHex(v), 8, '0')
  }

  /** For a 32-bit value the token is ten characters, "0x" then 8 lower-case hexadecimal digits
      that read back as the value. */
  lemma HexTokenFormat(v: nat)
    requires v < TWO_32
    ensures |HexToken(v)| == 10 && HexToken(v)[..2] == "0x"
    ensures IsLowerHex(HexToken(v)[2..]) && HexValue(HexToken(v)[2..]) == v
  {
    Pow16Of8();
    ToHexLength(v, 8);
    var h := ToHex(v);
    assert HexToken(v)[2..] == seq(8 - |h|, _ => '0') + h;
    LeadingZerosValue(8 - |h|, h);
    ToHexValue(v);
  }

  /** Four tokens joined: the first, a separator, then the other three joined. */
  lemma JoinFour(t: seq<string>, sep: char)
    requires |t| == 4
    ensures Join(t, sep) == t[0] + [sep] + t[1] + [sep] + t[2] + [sep] + t[3]
  {
    assert t[1..][1..] == t[2..] && t[2..][1..] == t[3..];
    assert Join(t[3..], sep) == t[3];
    assert Join(t[2..], sep) == t[2] + [sep] + t[3];
    assert Join(t[1..], sep) == t[1] + [sep] + (t[2] + [sep] + t[3]);
  }

  /** tokens.join(sep). */
  function Join(tokens: seq<string>, sep: char): string {
    if |tokens| == 0 then []
    else if |tokens| == 1 then tokens[0]
    else tokens[0] + [sep] + Join(tokens[1..], sep)
  }

  /** In a join of ten-character tokens, token i occupies places [11i, 11i + 10) and is followed
      by the separator unless it is the last. */
  lemma {:induction false} JoinTenAt(t: seq<string>, sep: char, i: nat)
    requires i < |t| && forall j :: 0 <= j < |t| ==> |t[j]| == 10
    ensures |Join(t, sep)| == 11 * |t| - 1
    ensures Join(t, sep)[11 * i .. 11 * i + 10] == t[i]
    ensures i < |t| - 1 ==> Join(t, sep)[11 * i + 10] == sep
  {
    if |t| > 1 {
      var rest := t[1..];
      assert Join(t, sep) == t[0] + [sep] + Join(rest, sep);
      if i > 0 {
        JoinTenAt(rest, sep, i - 1);
        assert Join(t, sep)[11 * i .. 11 * i + 10] == Join(rest, sep)[11 * (i - 1) .. 11 * (i - 1) + 10];
      } else {
        JoinTenAt(rest, sep, 0);
      }
    }
  }

  /** The four export tokens. */
  function ExportTokens(bits: string): (t: seq<string>)
    requires IsBinary(bits)
    ensures |t| == WORD_COUNT
  {
    seq(WORD_COUNT, i requires 0 <= i < WORD_COUNT => HexToken(WordValue(bits, i)))
  }

  /** The text the export action writes: the four word values as hexadecimal tokens joined by
      commas. */
  function ExportText(bits: string): string
    requires IsBinary(bits)
  {
    Join(ExportTokens(bits), ',')
  }

  /** The export text is exactly four comma-separated tokens: token i occupies places
      [11i, 11i + 10), begins "0x", and its 8 lower-case hexadecimal digits read back as the value
      chunkAndFormat gives word i. */
  lemma ExportFormat(bits: string, i: nat)
    requires IsBinary(bits) && i < WORD_COUNT
    ensures |ExportText(bits)| == 43
    ensures ExportText(bits)[11 * i .. 11 * i + 2] == "0x"
    ensures IsLowerHex(ExportText(bits)[11 * i + 2 .. 11 * i + 10])
    ensures HexValue(ExportText(bits)[11 * i + 2 .. 11 * i + 10]) == WordValue(bits, i)
    ensures i < 3 ==> ExportText(bits)[11 * i + 10] == ','
  {
    var t := ExportTokens(bits);
    forall j | 0 <= j < WORD_COUNT
      ensures |t[j]| == 10
    {
      HexTokenFormat(WordValue(bits, j));
    }
    HexTokenFormat(WordValue(bits, i));
    JoinTenAt(t, ',', i);
    var e := Join(t, ',');
    assert e[11 * i .. 11 * i + 2] == e[11 * i .. 11 * i + 10][..2];
    assert e[11 * i + 2 .. 11 * i + 10] == e[11 * i .. 11 * i + 10][2..];
  }

  lemma ZeroChunk(i: nat)
    ensures PaddedChunk(StateString(AllOff()), i) == Zeros(WORD_BITS)
  {
    var p := PaddedChunk(StateString(AllOff()), i);
    forall k | 0 <= k < WORD_BITS
      ensures p[k] == '0'
    {
      PaddedChunkAt(StateString(AllOff()), i, k);
    }
  }

  lemma HexTokenOfZero()
    ensures HexToken(0) == "0x00000000"
  {
    assert ToHex(0) == "0";
    assert PadStart("0", 8, '0') == "0000000" + "0";
  }

  lemma JoinZeroTokens()
    ensures Join([HexToken(0), HexToken(0), HexToken(0), HexToken(0)], ',') ==
            "0x00000000,0x00000000,0x00000000,0x00000000"
  {
    HexTokenOfZero();
    var zero := "0x00000000";
    JoinFour([zero, zero, zero, zero], ',');
    assert zero + [','] + zero + [','] + zero + [','] + zero == "0x00000000,0x00000000,0x00000000,0x00000000";
  }

  lemma ExportOfZeroWords(bits: string)
    requires IsBinary(bits)
    requires forall i :: 0 <= i < WORD_COUNT ==> WordValue(bits, i) == 0
    ensures ExportText(bits) == "0x00000000,0x00000000,0x00000000,0x00000000"
  {
    assert ExportTokens(bits) == [HexToken(0), HexToken(0), HexToken(0), HexToken(0)];
    JoinZeroTokens();
  }

  /** The all-dark grid exports as four zero words. */
  lemma ExportAllOff()
    ensures ExportText(StateString(AllOff())) == "0x00000000,0x00000000,0x00000000,0x00000000"
  {
    var bits := StateString(AllOff());
    BinValueOfZeros(WORD_BITS);
    forall i | 0 <= i < WORD_COUNT
      ensures WordValue(bits, i) == 0
    {
      ZeroChunk(i);
    }
    ExportOfZeroWords(bits);
  }

  /** The binary display: the bit string cut into groups of 8 from the left, joined by spaces;
      a shorter final group stays short, and the empty string stays empty. */
  function GroupBytes(s: string): string
    requires IsBinary(s)
    decreases |s|
  {
    if |s| <= 8 then s else s[..8] + " " + GroupBytes(s[8..])
  }

  /** Bit k of the input appears at place k + k / 8 of the display (one space per full group
      before it), and every ninth place between groups holds a space. */
  lemma {:induction false} GroupBytesAt(s: string, k: nat)
    requires IsBinary(s) && k < |s|
    ensures |GroupBytes(s)| == |s| + (|s| - 1) / 8
    ensures GroupBytes(s)[k + k / 8] == s[k]
    ensures k % 8 == 7 && k < |s| - 1 ==> GroupBytes(s)[k + k / 8 + 1] == ' '
    decreases |s|
  {
    if |s| > 8 {
      var rest := s[8..];
      if k >= 8 {
        GroupBytesAt(rest, k - 8);
      } else {
        GroupBytesAt(rest, 0);
      }
    }
  }

  /** The grid's 104 bits display as 13 groups of 8: 116 characters. */
  lemma GridDisplayLength(bits: string)
    requires IsBinary(bits) && |bits| == CELLS
    ensures |GroupBytes(bits)| == 116
  {
    GroupBytesAt(bits, 0);
  }
}
