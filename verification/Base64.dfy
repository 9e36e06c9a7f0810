/** The standard padded base64 of section 4 of RFC 4648, as the cursor uses it:
    the decoder skips line breaks and ignores the unused bits of a last group. */
module Base64 {
  import opened Wrappers

  type Byte = b: int | 0 <= b < 256
  type Sextet = v: int | 0 <= v < 64

  function Digit(v: Sextet): char {
    if v < 26 then ('A' as int + v) as char
    else if v < 52 then ('a' as int + v - 26) as char
    else if v < 62 then ('0' as int + v - 52) as char
    else if v == 62 then '+'
    else '/'
  }

  function Value(c: char): Option<Sextet> {
    if 'A' <= c <= 'Z' then Some(c as int - 'A' as int)
    else if 'a' <= c <= 'z' then Some(c as int - 'a' as int + 26)
    else if '0' <= c <= '9' then Some(c as int - '0' as int + 52)
    else if c == '+' then Some(62)
    else if c == '/' then Some(63)
    else None
  }

  function Encode(b: seq<Byte>): string {
    if |b| == 0 then ""
    else if |b| == 1 then [Digit(b[0] / 4), Digit(b[0] % 4 * 16), '=', '=']
    else if |b| == 2 then
      [Digit(b[0] / 4), Digit(b[0] % 4 * 16 + b[1] / 16), Digit(b[1] % 16 * 4), '=']
    else EncodeGroup(b[0], b[1], b[2]) + Encode(b[3..])
  }

  function EncodeGroup(x: Byte, y: Byte, z: Byte): string {
    [Digit(x / 4), Digit(x % 4 * 16 + y / 16), Digit(y % 16 * 4 + z / 64), Digit(z % 64)]
  }

  function WithoutLineBreaks(s: string): string {
    if s == "" then ""
    else if s[0] == '\r' || s[0] == '\n' then WithoutLineBreaks(s[1..])
    else [s[0]] + WithoutLineBreaks(s[1..])
  }

  function Decode(s: string): Option<seq<Byte>> {
    DecodeGroups(WithoutLineBreaks(s))
  }

  function DecodeGroups(s: string): Option<seq<Byte>> {
    if s == "" then Some([])
    else if |s| < 4 then None
    else
      var v0 :- Value(s[0]);
      var v1 :- Value(s[1]);
      if s[2] == '=' then
        if s[3] == '=' && |s| == 4 then Some([v0 * 4 + v1 / 16]) else None
      else
        var v2 :- Value(s[2]);
        if s[3] == '=' then
          if |s| == 4 then Some([v0 * 4 + v1 / 16, v1 % 16 * 16 + v2 / 4]) else None
        else
          var v3 :- Value(s[3]);
          var rest :- DecodeGroups(s[4..]);
          Some([v0 * 4 + v1 / 16, v1 % 16 * 16 + v2 / 4, v2 % 4 * 64 + v3] + rest)
  }

  lemma ValueOfDigit(v: Sextet)
    ensures Value(Digit(v)) == Some(v)
    ensures Digit(v) != '=' && Digit(v) != '\r' && Digit(v) != '\n'
  {
  }

  predicate HasNoLineBreak(s: string) {
    forall i :: 0 <= i < |s| ==> s[i] != '\r' && s[i] != '\n'
  }

  lemma {:induction false} NoLineBreaksToSkip(s: string)
    requires HasNoLineBreak(s)
    ensures WithoutLineBreaks(s) == s
  {
    if s != "" {
      assert s == [s[0]] + s[1..];
      NoLineBreaksToSkip(s[1..]);
    }
  }

  lemma {:induction false} EncodedAlphabet(b: seq<Byte>)
    ensures HasNoLineBreak(Encode(b))
  {
    if |b| > 2 {
      EncodedAlphabet(b[3..]);
      assert Encode(b) == EncodeGroup(b[0], b[1], b[2]) + Encode(b[3..]);
    }
  }

  /** Three bytes cost four characters, and a started group costs a whole one. */
  lemma {:induction false} EncodedLength(b: seq<Byte>)
    ensures |Encode(b)| == (|b| + 2) / 3 * 4
  {
    if |b| > 2 {
      EncodedLength(b[3..]);
      assert Encode(b) == EncodeGroup(b[0], b[1], b[2]) + Encode(b[3..]);
    }
  }

  lemma {:induction false} DecodeGroupsUndoesEncode(b: seq<Byte>)
    ensures DecodeGroups(Encode(b)) == Some(b)
  {
    if |b| == 1 {
      OneByteRoundTrip(b[0]);
      assert b == [b[0]];
    } else if |b| == 2 {
      TwoBytesRoundTrip(b[0], b[1]);
      assert b == [b[0], b[1]];
    } else if |b| > 2 {
      GroupRoundTrip(b[0], b[1], b[2], Encode(b[3..]));
      DecodeGroupsUndoesEncode(b[3..]);
      assert b == [b[0], b[1], b[2]] + b[3..];
    }
  }

  lemma OneByteRoundTrip(x: Byte)
    ensures DecodeGroups(Encode([x])) == Some([x])
  {
  }

  lemma TwoBytesRoundTrip(x: Byte, y: Byte)
    ensures DecodeGroups(Encode([x, y])) == Some([x, y])
  {
    var v1 := x % 4 * 16 + y / 16;
    ValueOfDigit(x / 4);
    ValueOfDigit(v1);
    ValueOfDigit(y % 16 * 4);
    assert v1 / 16 == x % 4 && v1 % 16 == y / 16;
  }

  lemma SextetsRejoin(x: Byte, y: Byte, z: Byte)
    ensures var v1, v2 := x % 4 * 16 + y / 16, y % 16 * 4 + z / 64;
            && x / 4 * 4 + v1 / 16 == x && v1 % 16 * 16 + v2 / 4 == y && v2 % 4 * 64 + z % 64 == z
  {
    var v1, v2 := x % 4 * 16 + y / 16, y % 16 * 4 + z / 64;
    assert v1 / 16 == x % 4 && v1 % 16 == y / 16;
    assert v2 / 4 == y % 16 && v2 % 4 == z / 64;
  }

  lemma TakesGroup(s: string, v0: Sextet, v1: Sextet, v2: Sextet, v3: Sextet)
    requires |s| >= 4 && s[2] != '=' && s[3] != '='
    requires Value(s[0]) == Some(v0) && Value(s[1]) == Some(v1) && Value(s[2]) == Some(v2) && Value(s[3]) == Some(v3)
    ensures DecodeGroups(s) ==
            match DecodeGroups(s[4..])
            case None => None
            case Some(rest) => Some([v0 * 4 + v1 / 16, v1 % 16 * 16 + v2 / 4, v2 % 4 * 64 + v3] + rest)
  {
  }

  lemma GroupRoundTrip(x: Byte, y: Byte, z: Byte, tail: string)
    ensures DecodeGroups(EncodeGroup(x, y, z) + tail) ==
            match DecodeGroups(tail)
            case None => None
            case Some(rest) => Some([x, y, z] + rest)
  {
    var s := EncodeGroup(x, y, z) + tail;
    assert s[4..] == tail;
    ValueOfDigit(x / 4);
    ValueOfDigit(x % 4 * 16 + y / 16);
    ValueOfDigit(y % 16 * 4 + z / 64);
    ValueOfDigit(z % 64);
    TakesGroup(s, x / 4, x % 4 * 16 + y / 16, y % 16 * 4 + z / 64, z % 64);
    SextetsRejoin(x, y, z);
  }

  /** Decoding gives back exactly the encoded bytes, whatever their number. */
  lemma RoundTrip(b: seq<Byte>)
    ensures Decode(Encode(b)) == Some(b)
  {
    EncodedAlphabet(b);
    NoLineBreaksToSkip(Encode(b));
    DecodeGroupsUndoesEncode(b);
  }

  predicate UrlSafe(c: char) {
    'A' <= c <= 'Z' || 'a' <= c <= 'z' || '0' <= c <= '9' || c == '='
  }

  predicate AllUrlSafe(s: string) {
    forall i :: 0 <= i < |s| ==> UrlSafe(s[i])
  }

  lemma GroupUrlSafe(x: Byte, y: Byte, z: Byte)
    requires x < 128 && y < 128 && z < 128 && z % 64 < 62
    ensures AllUrlSafe(EncodeGroup(x, y, z))
  {
  }

  /** ASCII bytes whose low six bits stay below 62 never produce the two digits on
      which the alphabets of sections 4 and 5 of RFC 4648 differ, in any position. */
  lemma {:induction false} UrlSafeEncoding(b: seq<Byte>)
    requires forall i :: 0 <= i < |b| ==> b[i] < 128 && b[i] % 64 < 62
    ensures AllUrlSafe(Encode(b))
  {
    if |b| == 1 {
      assert b[0] / 4 < 32;
    } else if |b| == 2 {
      assert b[0] / 4 < 32 && b[1] / 16 < 8;
    } else if |b| > 2 {
      var g, rest := EncodeGroup(b[0], b[1], b[2]), Encode(b[3..]);
      GroupUrlSafe(b[0], b[1], b[2]);
      UrlSafeEncoding(b[3..]);
      assert Encode(b) == g + rest;
    }
  }

  // ---- the alphabet and the bit order, by themselves ------------------------------------------

  /** Table 1 of RFC 4648. */
  const ALPHABET: string := "ABCDEFGHIJKLMNOP" + "QRSTUVWXYZabcdef" + "ghijklmnopqrstuv" + "wxyz0123456789+/"

  lemma AlphabetRow(row: string, start: Sextet, k: nat)
    requires (start, row) in {(0, "ABCDEFGHIJKLMNOP"), (16, "QRSTUVWXYZabcdef"), (32, "ghijklmnopqrstuv"), (48, "wxyz0123456789+/")}
    requires k < 16
    ensures |row| == 16 && Digit(start + k) == row[k]
  {
  }

  lemma DigitsFollowAlphabet(v: Sextet)
    ensures |ALPHABET| == 64 && Digit(v) == ALPHABET[v]
  {
    if v < 16 {
      AlphabetRow("ABCDEFGHIJKLMNOP", 0, v);
    } else if v < 32 {
      AlphabetRow("QRSTUVWXYZabcdef", 16, v - 16);
    } else if v < 48 {
      AlphabetRow("ghijklmnopqrstuv", 32, v - 32);
    } else {
      AlphabetRow("wxyz0123456789+/", 48, v - 48);
    }
  }

  lemma ValuesFollowAlphabet(c: char)
    ensures Value(c).Some? ==> ALPHABET[Value(c).value] == c
    ensures c in ALPHABET ==> Value(c).Some?
  {
    if Value(c).Some? {
      DigitsFollowAlphabet(Value(c).value);
    }
    if c in ALPHABET {
      var v :| 0 <= v < |ALPHABET| && ALPHABET[v] == c;
      DigitsFollowAlphabet(v);
      ValueOfDigit(v);
    }
  }

  /** The digit at a place of a number in base 64. */
  function DigitAt(n: nat, place: nat): char {
    ALPHABET[if place == 0 then n % 64 else if place == 1 then n / 64 % 64 else if place == 2 then n / 4096 % 64 else n / 262144 % 64]
  }

  /** Three bytes are one 24-bit number, first byte highest, in four digits, highest first. */
  lemma GroupIsNumber(x: Byte, y: Byte, z: Byte)
    ensures var n := 65536 * x + 256 * y + z;
            EncodeGroup(x, y, z) == [DigitAt(n, 3), DigitAt(n, 2), DigitAt(n, 1), DigitAt(n, 0)]
  {
    GroupPlaces(x, y, z);
    GroupOfSextets(x / 4, x % 4 * 16 + y / 16, y % 16 * 4 + z / 64, z % 64, 65536 * x + 256 * y + z);
  }

  lemma GroupOfSextets(v3: Sextet, v2: Sextet, v1: Sextet, v0: Sextet, n: nat)
    requires n / 262144 % 64 == v3 && n / 4096 % 64 == v2 && n / 64 % 64 == v1 && n % 64 == v0
    ensures [Digit(v3), Digit(v2), Digit(v1), Digit(v0)] == [DigitAt(n, 3), DigitAt(n, 2), DigitAt(n, 1), DigitAt(n, 0)]
  {
    DigitsFollowAlphabet(v3);
    DigitsFollowAlphabet(v2);
    DigitsFollowAlphabet(v1);
    DigitsFollowAlphabet(v0);
  }

  lemma Split64(n: int, high: int, low: int)
    requires n == 64 * high + low && 0 <= low < 64
    ensures n / 64 == high && n % 64 == low
  {
  }

  lemma Split4096(n: int, high: int, low: int)
    requires n == 4096 * high + low && 0 <= low < 4096
    ensures n / 4096 == high
  {
  }

  lemma Split262144(n: int, high: int, low: int)
    requires n == 262144 * high + low && 0 <= low < 262144
    ensures n / 262144 == high
  {
  }

  lemma HighestPlace(x: Byte, rest: nat)
    requires rest < 65536
    ensures (65536 * x + rest) / 262144 % 64 == x / 4
  {
    Split262144(65536 * x + rest, x / 4, 65536 * (x % 4) + rest);
  }

  lemma SecondPlace(x: Byte, y: Byte, rest: nat)
    requires rest < 256
    ensures (65536 * x + 256 * y + rest) / 4096 % 64 == x % 4 * 16 + y / 16
  {
    Split4096(65536 * x + 256 * y + rest, 16 * x + y / 16, 256 * (y % 16) + rest);
    Split64(16 * x + y / 16, x / 4, x % 4 * 16 + y / 16);
  }

  lemma ThirdPlace(high: nat, y: Byte, z: Byte)
    ensures (65536 * high + 256 * y + z) / 64 % 64 == y % 16 * 4 + z / 64
  {
    Split64(65536 * high + 256 * y + z, 1024 * high + 4 * y + z / 64, z % 64);
    Split64(1024 * high + 4 * y + z / 64, 16 * high + y / 16, y % 16 * 4 + z / 64);
  }

  lemma LowestPlace(high: nat, z: Byte)
    ensures (256 * high + z) % 64 == z % 64
  {
    Split64(256 * high + z, 4 * high + z / 64, z % 64);
  }

  lemma GroupPlaces(x: Byte, y: Byte, z: Byte)
    ensures var n := 65536 * x + 256 * y + z;
            && n / 262144 % 64 == x / 4 && n / 4096 % 64 == x % 4 * 16 + y / 16
            && n / 64 % 64 == y % 16 * 4 + z / 64 && n % 64 == z % 64
  {
    HighestPlace(x, 256 * y + z);
    SecondPlace(x, y, z);
    ThirdPlace(x, y, z);
    LowestPlace(256 * x + y, z);
  }

  /** Two last bytes are a 16-bit number with two zero bits behind it, one last byte is an 8-bit
      number with four. */
  lemma TailIsNumber(x: Byte, y: Byte)
    ensures Encode([x, y]) == [DigitAt(4 * (256 * x + y), 2), DigitAt(4 * (256 * x + y), 1), DigitAt(4 * (256 * x + y), 0), '=']
    ensures Encode([x]) == [DigitAt(16 * x, 1), DigitAt(16 * x, 0), '=', '=']
  {
    DigitsFollowAlphabet(x / 4);
    DigitsFollowAlphabet(x % 4 * 16);
    DigitsFollowAlphabet(x % 4 * 16 + y / 16);
    DigitsFollowAlphabet(y % 16 * 4);
    TailPlaces(x, y);
  }

  lemma TailPlaces(x: Byte, y: Byte)
    ensures var n := 4 * (256 * x + y);
            n / 4096 % 64 == x / 4 && n / 64 % 64 == x % 4 * 16 + y / 16 && n % 64 == y % 16 * 4
    ensures 16 * x / 64 % 64 == x / 4 && 16 * x % 64 == x % 4 * 16
  {
    TailHigh(x, y);
    TailMiddle(x, y);
    TailLow(x, y);
    LastBytePlaces(x);
  }

  lemma TailHigh(x: Byte, y: Byte)
    ensures 4 * (256 * x + y) / 4096 % 64 == x / 4
  {
    Split4096(4 * (256 * x + y), x / 4, 1024 * (x % 4) + 4 * y);
  }

  lemma TailMiddle(x: Byte, y: Byte)
    ensures 4 * (256 * x + y) / 64 % 64 == x % 4 * 16 + y / 16
  {
    Split64(4 * (256 * x + y), 16 * x + y / 16, 4 * (y % 16));
    Split64(16 * x + y / 16, x / 4, x % 4 * 16 + y / 16);
  }

  lemma TailLow(x: Byte, y: Byte)
    ensures 4 * (256 * x + y) % 64 == y % 16 * 4
  {
    Split64(4 * (256 * x + y), 16 * x + y / 16, y % 16 * 4);
  }

  lemma LastBytePlaces(x: Byte)
    ensures 16 * x / 64 % 64 == x / 4 && 16 * x % 64 == x % 4 * 16
  {
    Split64(16 * x, x / 4, x % 4 * 16);
  }

  /** Whole groups of bytes are encoded by themselves, in order. */
  lemma {:induction false} EncodeInPieces(a: seq<Byte>, b: seq<Byte>)
    requires |a| % 3 == 0
    ensures Encode(a + b) == Encode(a) + Encode(b)
  {
    if a == [] {
      assert a + b == b;
    } else {
      assert (a + b)[3..] == a[3..] + b;
      EncodeInPieces(a[3..], b);
      assert |a + b| > 2 && Encode(a) == EncodeGroup(a[0], a[1], a[2]) + Encode(a[3..]);
    }
  }

  // ---- which texts are refused ----------------------------------------------------------------

  predicate IsDigit(c: char) {
    'A' <= c <= 'Z' || 'a' <= c <= 'z' || '0' <= c <= '9' || c == '+' || c == '/'
  }

  predicate DigitsOnly(s: string) {
    forall i :: 0 <= i < |s| ==> IsDigit(s[i])
  }

  /** How many padding signs end the text, two at most. */
  function Pads(s: string): (n: nat)
    ensures n <= |s|
  {
    if s == "" || s[|s| - 1] != '=' then 0 else if |s| == 1 || s[|s| - 2] != '=' then 1 else 2
  }

  /** Whole groups of four: digits, then none, one or two padding signs. */
  predicate Padded(s: string) {
    |s| % 4 == 0 && DigitsOnly(s[..|s| - Pads(s)])
  }

  lemma DigitsOnlyJoin(a: string, b: string)
    ensures DigitsOnly(a + b) <==> DigitsOnly(a) && DigitsOnly(b)
  {
    assert forall i :: 0 <= i < |b| ==> (a + b)[|a| + i] == b[i];
    assert forall i :: 0 <= i < |a| ==> (a + b)[i] == a[i];
  }

  lemma PaddedTail(s: string)
    requires |s| > 4
    ensures Padded(s) <==> DigitsOnly(s[..4]) && Padded(s[4..])
  {
    if |s| % 4 == 0 {
      var tail := s[4..];
      assert Pads(s) == Pads(tail);
      assert s[..|s| - Pads(s)] == s[..4] + tail[..|tail| - Pads(tail)];
      DigitsOnlyJoin(s[..4], tail[..|tail| - Pads(tail)]);
    }
  }

  /** The only group may be padded. */
  lemma LastGroupAccepted(s: string)
    requires |s| == 4
    ensures DecodeGroups(s).Some? <==> Padded(s)
  {
    assert s[4..] == "";
    var digits := s[..4 - Pads(s)];
    assert DigitsOnly(digits) <==> forall i :: 0 <= i < 4 - Pads(s) ==> IsDigit(s[i]);
  }

  lemma FullGroupAccepted(s: string)
    requires |s| > 4
    ensures DecodeGroups(s).Some? <==> DigitsOnly(s[..4]) && DecodeGroups(s[4..]).Some?
  {
    assert DigitsOnly(s[..4]) <==> IsDigit(s[0]) && IsDigit(s[1]) && IsDigit(s[2]) && IsDigit(s[3]);
  }

  lemma {:induction false} GroupsAccepted(s: string)
    ensures DecodeGroups(s).Some? <==> Padded(s)
  {
    if |s| > 4 {
      FullGroupAccepted(s);
      GroupsAccepted(s[4..]);
      PaddedTail(s);
    } else if |s| == 4 {
      LastGroupAccepted(s);
    }
  }

  /** A text decodes if and only if, line breaks aside, it is a padded sequence of digits. */
  lemma AcceptedIff(s: string)
    ensures Decode(s).Some? <==> Padded(WithoutLineBreaks(s))
  {
    GroupsAccepted(WithoutLineBreaks(s));
  }
}
