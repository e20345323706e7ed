/** The text form of a UUID: what src/util/Uuid.cpp prints and what it accepts. */
module UuidText {

  type Byte = b: int | 0 <= b < 256

  // Bytes are numbers here: the masks and shifts of the source are divisions and remainders by 16.
  lemma MasksAreDivisions(b: bv8, v: bv8)
    requires v < 16
    ensures ((b & 0xf0) >> 4) as int == b as int / 16 && (b & 0x0f) as int == b as int % 16
    ensures ((b & 0xf0) + v) as int == b as int / 16 * 16 + v as int
    ensures ((b & 0x0f) + (v << 4)) as int == b as int % 16 + v as int * 16
  {
  }

  predicate IsHex(c: char) {
    '0' <= c <= '9' || 'a' <= c <= 'f' || 'A' <= c <= 'F'
  }

  function HexValue(c: char): (v: nat)
    requires IsHex(c)
    ensures v < 16
  {
    if '0' <= c <= '9' then c as int - '0' as int
    else if 'a' <= c <= 'f' then c as int - 'a' as int + 10
    else c as int - 'A' as int + 10
  }

  function HexDigit(v: nat): char
    requires v < 16
  {
    "0123456789abcdef"[v]
  }

  function LowerChar(c: char): char {
    if 'A' <= c <= 'F' then (c as int - 'A' as int + 'a' as int) as char else c
  }

  function Lower(s: string): (r: string)
    ensures |r| == |s| && forall k | 0 <= k < |s| :: r[k] == LowerChar(s[k])
  {
    seq(|s|, k requires 0 <= k < |s| => LowerChar(s[k]))
  }

  predicate IsDash(k: nat) {
    k == 8 || k == 13 || k == 18 || k == 23
  }

  // Bytes are laid out backwards from the end of the text.  The high nibble of byte i stands at
  // HighPos(i) and its low nibble just before it.
  function HighPos(i: nat): (k: nat)
    requires i < 16
    ensures 1 <= k < 36 && !IsDash(k) && !IsDash(k - 1)
  {
    35 - 2 * i - (if i < 6 then 0 else if i < 8 then 1 else if i < 10 then 2 else if i < 12 then 3 else 4)
  }

  // Which byte position k shows.
  function ByteAt(k: nat): (i: nat)
    requires k < 36 && !IsDash(k)
    ensures i < 16 && (k == HighPos(i) || k == HighPos(i) - 1)
  {
    if k > 23 then (35 - k) / 2
    else if k > 18 then (34 - k) / 2
    else if k > 13 then (33 - k) / 2
    else if k > 8 then (32 - k) / 2
    else (31 - k) / 2
  }

  lemma PositionsAreDistinct(i: nat, j: nat)
    requires i < j < 16
    ensures HighPos(j) < HighPos(i) - 1
  {
  }

  // The grammar of section 3 of RFC 4122: 8-4-4-4-12 hexadecimal digits, in either case.
  predicate Grammar(s: string) {
    |s| == 36 && forall k | 0 <= k < 36 :: if IsDash(k) then s[k] == '-' else IsHex(s[k])
  }

  // The bytes that an accepted text stands for.
  function Value(s: string): (bytes: seq<Byte>)
    requires Grammar(s)
    ensures |bytes| == 16
    ensures forall i | 0 <= i < 16 :: bytes[i] == 16 * HexValue(s[HighPos(i)]) + HexValue(s[HighPos(i) - 1])
  {
    seq(16, i requires 0 <= i < 16 => 16 * HexValue(s[HighPos(i)]) + HexValue(s[HighPos(i) - 1]))
  }

  // s shows byte i of bytes.
  predicate Shows(s: string, bytes: seq<Byte>, i: nat)
    requires |s| == 36 && |bytes| == 16 && i < 16
  {
    s[HighPos(i)] == HexDigit(bytes[i] / 16) && s[HighPos(i) - 1] == HexDigit(bytes[i] % 16)
  }

  predicate IsTextOf(s: string, bytes: seq<Byte>)
    requires |bytes| == 16
  {
    && |s| == 36
    && (forall k | 0 <= k < 36 && IsDash(k) :: s[k] == '-')
    && (forall i | 0 <= i < 16 :: Shows(s, bytes, i))
  }

  // A value has only one text.
  lemma TextIsUnique(s: string, t: string, bytes: seq<Byte>)
    requires |bytes| == 16 && IsTextOf(s, bytes) && IsTextOf(t, bytes)
    ensures s == t
  {
    forall k | 0 <= k < 36
      ensures s[k] == t[k]
    {
      if !IsDash(k) {
        assert Shows(s, bytes, ByteAt(k)) && Shows(t, bytes, ByteAt(k));
      }
    }
  }

  lemma DigitsRoundTrip(v: nat, c: char)
    requires v < 16 && IsHex(c)
    ensures IsHex(HexDigit(v)) && HexValue(HexDigit(v)) == v
    ensures HexDigit(HexValue(c)) == LowerChar(c)
    ensures IsHex(LowerChar(c)) && HexValue(LowerChar(c)) == HexValue(c)
  {
  }

  // Parsing a printed UUID restores it, for all 128-bit values.
  lemma ParseOfPrint(s: string, bytes: seq<Byte>)
    requires |bytes| == 16 && IsTextOf(s, bytes)
    ensures Grammar(s) && Value(s) == bytes
  {
    forall k | 0 <= k < 36 && !IsDash(k)
      ensures IsHex(s[k])
    {
      var i := ByteAt(k);
      assert Shows(s, bytes, i);
      DigitsRoundTrip(bytes[i] / 16, '0');
      DigitsRoundTrip(bytes[i] % 16, '0');
    }
    forall i | 0 <= i < 16
      ensures Value(s)[i] == bytes[i]
    {
      assert Shows(s, bytes, i);
      DigitsRoundTrip(bytes[i] / 16, '0');
      DigitsRoundTrip(bytes[i] % 16, '0');
    }
  }

  // Printing what was parsed gives the accepted text in lower case.
  lemma PrintOfParse(s: string)
    requires Grammar(s)
    ensures IsTextOf(Lower(s), Value(s))
  {
    forall i | 0 <= i < 16
      ensures Shows(Lower(s), Value(s), i)
    {
      var hi, lo := s[HighPos(i)], s[HighPos(i) - 1];
      DigitsRoundTrip(0, hi);
      DigitsRoundTrip(0, lo);
      assert Value(s)[i] / 16 == HexValue(hi) && Value(s)[i] % 16 == HexValue(lo);
    }
  }

  // The case of the digits is all that parsing forgets.
  lemma SameValueIff(s: string, t: string)
    requires Grammar(s) && Grammar(t)
    ensures Value(s) == Value(t) <==> Lower(s) == Lower(t)
  {
    PrintOfParse(s);
    PrintOfParse(t);
    if Value(s) == Value(t) {
      TextIsUnique(Lower(s), Lower(t), Value(s));
    }
    if Lower(s) == Lower(t) {
      ParseOfPrint(Lower(s), Value(s));
      ParseOfPrint(Lower(s), Value(t));
    }
  }

  // Where a digit stands in the list of all digits.
  function PlaceOf(c: char): (k: nat)
    requires IsHex(c)
    ensures k < 22
  {
    if '0' <= c <= '9' then c as int - '0' as int
    else if 'a' <= c <= 'f' then c as int - 'a' as int + 10
    else c as int - 'A' as int + 16
  }

  lemma DigitAtPlace(c: char)
    requires IsHex(c)
    ensures "0123456789abcdefABCDEF"[PlaceOf(c)] == c
    ensures HexValue(c) == if PlaceOf(c) < 16 then PlaceOf(c) else PlaceOf(c) - 6
  {
  }

  lemma PlaceIsDigit(k: nat)
    requires k < 22
    ensures IsHex("0123456789abcdefABCDEF"[k])
  {
  }

  // The digits are these, and no others.
  lemma DigitsAre(c: char)
    ensures IsHex(c) <==> c in "0123456789abcdefABCDEF"
  {
    if IsHex(c) {
      DigitAtPlace(c);
    }
    if c in "0123456789abcdefABCDEF" {
      var k :| 0 <= k < |"0123456789abcdefABCDEF"| && "0123456789abcdefABCDEF"[k] == c;
      PlaceIsDigit(k);
    }
  }

  // Acceptance does not depend on case.
  lemma CaseDoesNotMatter(s: string)
    ensures Grammar(s) <==> Grammar(Lower(s))
    ensures Grammar(s) ==> Value(s) == Value(Lower(s))
  {
    if |s| == 36 {
      forall k | 0 <= k < 36
        ensures IsHex(s[k]) <==> IsHex(Lower(s)[k])
        ensures s[k] == '-' <==> Lower(s)[k] == '-'
        ensures IsHex(s[k]) ==> HexValue(s[k]) == HexValue(Lower(s)[k])
      {
      }
    }
  }

  lemma DigitIs(v: nat)
    requires v < 16
    ensures HexDigit(v) as int == if v < 10 then '0' as int + v else 'a' as int + v - 10
  {
  }

  // The layout spelled out, with dashes at 8, 13, 18 and 23: the bytes stand from right to left.
  lemma PositionsAre()
    ensures [HighPos(0), HighPos(1), HighPos(2), HighPos(3), HighPos(4), HighPos(5)] == [35, 33, 31, 29, 27, 25]
    ensures [HighPos(6), HighPos(7)] == [22, 20] && [HighPos(8), HighPos(9)] == [17, 15]
    ensures [HighPos(10), HighPos(11)] == [12, 10]
    ensures [HighPos(12), HighPos(13), HighPos(14), HighPos(15)] == [7, 5, 3, 1]
  {
  }

  // s is the plain hexadecimal form of the 128-bit value, most significant digit first.
  predicate IsBigEndianHexOf(s: string, bytes: seq<Byte>)
    requires |bytes| == 16
  {
    && |s| == 36
    && (forall k | 0 <= k < 36 && IsDash(k) :: s[k] == '-')
    && (forall i | 0 <= i < 16 ::
          s[HighPos(i) - 1] == HexDigit(bytes[i] / 16) && s[HighPos(i)] == HexDigit(bytes[i] % 16))
  }

  // The code prints each byte's low nibble before its high one, so the text is plain hexadecimal exactly
  // when each byte has two equal nibbles.
  lemma PlainHexIff(s: string, bytes: seq<Byte>)
    requires |bytes| == 16 && IsTextOf(s, bytes)
    ensures IsBigEndianHexOf(s, bytes) <==> forall i | 0 <= i < 16 :: bytes[i] / 16 == bytes[i] % 16
  {
    forall i | 0 <= i < 16
      ensures Shows(s, bytes, i)
      ensures HexDigit(bytes[i] / 16) == HexDigit(bytes[i] % 16) <==> bytes[i] / 16 == bytes[i] % 16
    {
      DigitsRoundTrip(bytes[i] / 16, '0');
      DigitsRoundTrip(bytes[i] % 16, '0');
    }
    if IsBigEndianHexOf(s, bytes) {
      forall i | 0 <= i < 16
        ensures bytes[i] / 16 == bytes[i] % 16
      {
        assert Shows(s, bytes, i) && s[HighPos(i)] == HexDigit(bytes[i] % 16);
      }
    }
  }

  // The byte of the other half of the value
  function Opposite(i: nat): (j: nat)
    requires i < 16
    ensures j < 16
  {
    if i < 8 then i + 8 else i - 8
  }

  // The layout drawn in the comment of toString4122: bytes 7 to 0 and then bytes 15 to 8, each with its high
  // nibble first.
  predicate IsCommentLayoutOf(s: string, bytes: seq<Byte>)
    requires |bytes| == 16
  {
    && |s| == 36
    && (forall k | 0 <= k < 36 && IsDash(k) :: s[k] == '-')
    && (forall i | 0 <= i < 16 :: DrawnAt(s, bytes, i))
  }

  predicate DrawnAt(s: string, bytes: seq<Byte>, i: nat)
    requires |s| == 36 && |bytes| == 16 && i < 16
  {
    var k := HighPos(Opposite(i));
    s[k - 1] == HexDigit(bytes[i] / 16) && s[k] == HexDigit(bytes[i] % 16)
  }

  // Bytes i and i + 8 are each other's nibbles exchanged.
  predicate Exchanged(bytes: seq<Byte>, i: nat)
    requires |bytes| == 16 && i < 8
  {
    bytes[i] / 16 == bytes[i + 8] % 16 && bytes[i] % 16 == bytes[i + 8] / 16
  }

  // The code exchanges the two halves as well as the nibbles, so it prints that layout exactly when each byte
  // is the one eight places on with its nibbles exchanged.
  lemma CommentLayoutIff(s: string, bytes: seq<Byte>)
    requires |bytes| == 16 && IsTextOf(s, bytes)
    ensures IsCommentLayoutOf(s, bytes) <==> forall i | 0 <= i < 8 :: Exchanged(bytes, i)
  {
    forall i: nat | i < 16
      ensures DrawnAt(s, bytes, i) <==>
        bytes[i] / 16 == bytes[Opposite(i)] % 16 && bytes[i] % 16 == bytes[Opposite(i)] / 16
    {
      assert Shows(s, bytes, Opposite(i));
      DigitsAreDistinct(bytes[i] / 16, bytes[Opposite(i)] % 16);
      DigitsAreDistinct(bytes[i] % 16, bytes[Opposite(i)] / 16);
    }
    if IsCommentLayoutOf(s, bytes) {
      forall i: nat | i < 8
        ensures Exchanged(bytes, i)
      {
        assert DrawnAt(s, bytes, i);
      }
    }
    if forall i | 0 <= i < 8 :: Exchanged(bytes, i) {
      forall i: nat | i < 16
        ensures DrawnAt(s, bytes, i)
      {
        assert Exchanged(bytes, if i < 8 then i else i - 8);
      }
    }
  }

  lemma DigitsAreDistinct(v: nat, w: nat)
    requires v < 16 && w < 16
    ensures HexDigit(v) == HexDigit(w) <==> v == w
  {
    DigitsRoundTrip(v, '0');
    DigitsRoundTrip(w, '0');
  }

  // Sixteen times 0x12 is printed with every pair of digits exchanged, which is neither form.
  lemma PlainHexFails(s: string)
    requires IsTextOf(s, seq(16, _ => 0x12))
    ensures s == "21212121-2121-2121-2121-212121212121"
    ensures !IsBigEndianHexOf(s, seq(16, _ => 0x12)) && !IsCommentLayoutOf(s, seq(16, _ => 0x12))
  {
    var bytes: seq<Byte> := seq(16, _ => 0x12);
    var t := "21212121-2121-2121-2121-212121212121";
    forall i | 0 <= i < 16
      ensures Shows(t, bytes, i)
    {
      assert bytes[i] == 0x12;
    }
    TextIsUnique(s, t, bytes);
    assert bytes[0] / 16 != bytes[0] % 16;
    assert !IsBigEndianHexOf(s, bytes) by { PlainHexIff(s, bytes); }
    assert !Exchanged(bytes, 0);
    assert !IsCommentLayoutOf(s, bytes) by { CommentLayoutIff(s, bytes); }
  }

  // -------- the grammar, byte by byte --------

  predicate HexPair(s: string, i: nat)
    requires |s| == 36 && i < 16
  {
    IsHex(s[HighPos(i)]) && IsHex(s[HighPos(i) - 1])
  }

  function PairValue(s: string, i: nat): Byte
    requires |s| == 36 && i < 16 && HexPair(s, i)
  {
    16 * HexValue(s[HighPos(i)]) + HexValue(s[HighPos(i) - 1])
  }

  lemma GrammarByPairs(s: string)
    requires |s| == 36
    ensures Grammar(s) <==>
      && s[8] == s[13] == s[18] == s[23] == '-'
      && forall i | 0 <= i < 16 :: HexPair(s, i)
  {
    if s[8] == s[13] == s[18] == s[23] == '-' && forall i | 0 <= i < 16 :: HexPair(s, i) {
      forall k | 0 <= k < 36 && !IsDash(k)
        ensures IsHex(s[k])
      {
        assert HexPair(s, ByteAt(k));
      }
    }
  }

  // What is accepted, spelled out: 36 characters, dashes at four places and digits in either case elsewhere.
  lemma GrammarByDigits(s: string)
    ensures Grammar(s) <==>
      && |s| == 36 && s[8] == s[13] == s[18] == s[23] == '-'
      && (forall k | 0 <= k < 36 && k != 8 && k != 13 && k != 18 && k != 23 :: s[k] in "0123456789abcdefABCDEF")
  {
    if |s| == 36 {
      forall k | 0 <= k < 36
        ensures IsHex(s[k]) <==> s[k] in "0123456789abcdefABCDEF"
      {
        DigitsAre(s[k]);
      }
    }
  }

  // The bytes from .. to have consecutive places ending at position start.
  predicate Group(from: nat, to: nat, start: nat) {
    from <= to <= 16 && forall i | from <= i < to :: HighPos(i) == start - 2 * (i - from)
  }
}

/** The printer and the parser. */
module UuidClass {
  import opened UuidText

  // Replaces the low nibble of bytes[j].
  method CharToLowNibble(c: char, bytes: array<Byte>, j: nat) returns (ok: bool)
    requires j < bytes.Length
    modifies bytes
    ensures ok == IsHex(c)
    ensures ok ==> bytes[j] == old(bytes[j]) / 16 * 16 + HexValue(c)
    ensures ok <==> '0' <= c <= '9' || 'a' <= c <= 'f' || 'A' <= c <= 'F'
    ensures ok ==> bytes[j] / 16 == old(bytes[j]) / 16
    ensures var zero := if c <= '9' then '0' as int else if c <= 'F' then 'A' as int - 10 else 'a' as int - 10;
      ok ==> bytes[j] % 16 == c as int - zero
    ensures forall k | 0 <= k < bytes.Length && (k != j || !ok) :: bytes[k] == old(bytes[k])
  {
    if '0' <= c <= '9' {
      bytes[j] := bytes[j] / 16 * 16 + (c as int - '0' as int);
      return true;
    } else if 'a' <= c <= 'f' {
      bytes[j] := bytes[j] / 16 * 16 + (c as int - 'a' as int + 10);
      return true;
    } else if 'A' <= c <= 'F' {
      bytes[j] := bytes[j] / 16 * 16 + (c as int - 'A' as int + 10);
      return true;
    }
    return false;
  }

  // Replaces the high nibble of bytes[j].
  method CharToHighNibble(c: char, bytes: array<Byte>, j: nat) returns (ok: bool)
    requires j < bytes.Length
    modifies bytes
    ensures ok == IsHex(c)
    ensures ok ==> bytes[j] == old(bytes[j]) % 16 + HexValue(c) * 16
    ensures ok <==> '0' <= c <= '9' || 'a' <= c <= 'f' || 'A' <= c <= 'F'
    ensures ok ==> bytes[j] % 16 == old(bytes[j]) % 16
    ensures var zero := if c <= '9' then '0' as int else if c <= 'F' then 'A' as int - 10 else 'a' as int - 10;
      ok ==> bytes[j] / 16 == c as int - zero
    ensures forall k | 0 <= k < bytes.Length && (k != j || !ok) :: bytes[k] == old(bytes[k])
  {
    if '0' <= c <= '9' {
      bytes[j] := bytes[j] % 16 + (c as int - '0' as int) * 16;
      return true;
    } else if 'a' <= c <= 'f' {
      bytes[j] := bytes[j] % 16 + (c as int - 'a' as int + 10) * 16;
      return true;
    } else if 'A' <= c <= 'F' {
      bytes[j] := bytes[j] % 16 + (c as int - 'A' as int + 10) * 16;
      return true;
    }
    return false;
  }

  class Uuid {
    // the 16 bytes of _data in memory order
    const data: array<Byte>

    ghost predicate Valid()
      reads this
    {
      data.Length == 16
    }

    constructor ()
      ensures Valid() && fresh(data) && data[..] == seq(16, _ => 0)
    {
      data := new Byte[16](_ => 0);
    }

    // The first n bytes, and every dash behind position k, are in place.
    ghost predicate Written(s: seq<char>, n: nat, k: int)
      requires |s| == 36 && n <= 16
      reads this, data
    {
      && Valid()
      && (forall i | 0 <= i < n :: Shows(s, data[..], i))
      && (forall d | k < d < 36 && 0 <= d && IsDash(d) :: s[d] == '-')
    }

    method ToString4122() returns (text: string)
      requires Valid()
      ensures IsTextOf(text, data[..])
      ensures |text| == 36 && text[8] == text[13] == text[18] == text[23] == '-'
    {
      var s := new char[36](_ => '0');
      PutBytes(s, 0, 6, 35);
      PutDash(s, 6, 23);
      PutBytes(s, 6, 8, 22);
      PutDash(s, 8, 18);
      PutBytes(s, 8, 10, 17);
      PutDash(s, 10, 13);
      PutBytes(s, 10, 12, 12);
      PutDash(s, 12, 8);
      PutBytes(s, 12, 16, 7);
      text := s[..];
    }

    method PutDash(s: array<char>, ghost n: nat, j: nat)
      requires s.Length == 36 && n <= 16 && Written(s[..], n, j) && IsDash(j)
      modifies s
      ensures Written(s[..], n, j - 1)
    {
      ghost var was := s[..];
      s[j] := '-';
      forall i | 0 <= i < n
        ensures Shows(s[..], data[..], i)
      {
        assert Shows(was, data[..], i);
      }
    }

    // One of the five loops of toString4122: bytes from .. to, written backwards from position start.
    method PutBytes(s: array<char>, from: nat, to: nat, start: nat)
      requires s.Length == 36 && from <= to <= 16 && Group(from, to, start) && start < 36
      requires Written(s[..], from, start) && forall k | start - 2 * (to - from) < k <= start :: k >= 0 && !IsDash(k)
      modifies s
      ensures Written(s[..], to, start - 2 * (to - from))
    {
      var j: int := start;
      for i := from to to
        invariant j == start - 2 * (i - from)
        invariant Written(s[..], i, j)
      {
        ghost var was := s[..];
        assert j == HighPos(i);
        s[j] := HexDigit(data[i] / 16);
        j := j - 1;
        s[j] := HexDigit(data[i] % 16);
        j := j - 1;
        StillWritten(was, s[..], i, HighPos(i));
      }
    }

    lemma StillWritten(was: seq<char>, s: seq<char>, i: nat, j: nat)
      requires |was| == |s| == 36 && i < 16 && j == HighPos(i) && Written(was, i, j)
      requires s == was[j := HexDigit(data[i] / 16)][j - 1 := HexDigit(data[i] % 16)]
      ensures Written(s, i + 1, j - 2)
    {
      forall m | 0 <= m < i
        ensures Shows(s, data[..], m)
      {
        PositionsAreDistinct(m, i);
        assert Shows(was, data[..], m);
      }
      assert Shows(s, data[..], i);
    }

    // Accepts exactly the grammar; on rejection the object is unchanged.  The local buffer starts with
    // arbitrary contents, as the source's uninitialised one does.
    method FromString4122(str: string) returns (ok: bool)
      requires Valid()
      modifies data
      ensures ok <==> Grammar(str)
      ensures ok <==>
        && |str| == 36
        && str[8] == str[13] == str[18] == str[23] == '-'
        && (forall k | 0 <= k < 36 && k != 8 && k != 13 && k != 18 && k != 23 ::
              '0' <= str[k] <= '9' || 'a' <= str[k] <= 'f' || 'A' <= str[k] <= 'F')
      ensures data[..] == if ok then Value(str) else old(data[..])
    {
      if |str| != 36 {
        return false;
      }
      GrammarByPairs(str);
      var bytes := new Byte[16];
      ok := GetBytes(str, 35, bytes, 0, 6);
      if !ok || str[23] != '-' { return false; }
      ok := GetBytes(str, 22, bytes, 6, 8);
      if !ok || str[18] != '-' { return false; }
      ok := GetBytes(str, 17, bytes, 8, 10);
      if !ok || str[13] != '-' { return false; }
      ok := GetBytes(str, 12, bytes, 10, 12);
      if !ok || str[8] != '-' { return false; }
      ok := GetBytes(str, 7, bytes, 12, 16);
      if !ok { return false; }
      forall i | 0 <= i < 16 {
        data[i] := bytes[i];
      }
      assert data[..] == Value(str);
    }

    // One of the five loops of fromString4122: the bytes from .. to, read backwards from position start.
    static method GetBytes(str: string, start: nat, bytes: array<Byte>, from: nat, to: nat) returns (ok: bool)
      requires |str| == 36 && bytes.Length == 16 && from <= to <= 16 && Group(from, to, start)
      requires forall m | 0 <= m < from :: HexPair(str, m) && bytes[m] == PairValue(str, m)
      modifies bytes
      ensures ok <==> forall m | from <= m < to :: HexPair(str, m)
      ensures ok ==> forall m | 0 <= m < to :: HexPair(str, m) && bytes[m] == PairValue(str, m)
    {
      var i: int := start;
      for j := from to to
        invariant i == start - 2 * (j - from)
        invariant forall m | 0 <= m < j :: HexPair(str, m) && bytes[m] == PairValue(str, m)
      {
        assert i == HighPos(j);
        var high := CharToHighNibble(str[i], bytes, j);
        if !high {
          assert !HexPair(str, j);
          return false;
        }
        i := i - 1;
        var low := CharToLowNibble(str[i], bytes, j);
        if !low {
          assert !HexPair(str, j);
          return false;
        }
        i := i - 1;
      }
      return true;
    }
  }

  // What a caller sees: a UUID printed and parsed again is the same UUID.
  method RoundTrip(id: Uuid, copy: Uuid) returns (ok: bool)
    requires id.Valid() && copy.Valid() && id.data != copy.data
    modifies copy.data
    ensures ok && copy.data[..] == id.data[..]
  {
    var text := id.ToString4122();
    ParseOfPrint(text, id.data[..]);
    ok := copy.FromString4122(text);
  }
}
