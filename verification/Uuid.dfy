/** UUIDs as 128-bit numbers, most significant octet first (section 4 of RFC 9562),
    with the text form that is printed and the four forms that are accepted. */
module Uuid {
  import opened Wrappers

  const LIMIT := 0x1_0000_0000_0000_0000_0000_0000_0000_0000

  type Id = n: int | 0 <= n < LIMIT

  function Pow16(k: nat): (p: nat)
    ensures p > 0
  {
    if k == 0 then 1 else 16 * Pow16(k - 1)
  }

  lemma ThirtyTwoDigits()
    ensures Pow16(32) == LIMIT
  {
    assert Pow16(8) == 0x1_0000_0000;
    assert Pow16(16) == 0x1_0000_0000_0000_0000;
    assert Pow16(24) == 0x1_0000_0000_0000_0000_0000_0000;
  }

  function HexDigit(v: int): char
    requires 0 <= v < 16
  {
    if v < 10 then ('0' as int + v) as char else ('a' as int + v - 10) as char
  }

  function HexValue(c: char): (r: Option<int>)
    ensures r.Some? ==> 0 <= r.value < 16
  {
    if '0' <= c <= '9' then Some(c as int - '0' as int)
    else if 'a' <= c <= 'f' then Some(c as int - 'a' as int + 10)
    else if 'A' <= c <= 'F' then Some(c as int - 'A' as int + 10)
    else None
  }

  function Hex(n: nat, digits: nat): (s: string)
    ensures |s| == digits
  {
    if digits == 0 then "" else Hex(n / 16, digits - 1) + [HexDigit(n % 16)]
  }

  function ParseHex(s: string): (r: Option<nat>)
    ensures r.Some? ==> r.value < Pow16(|s|)
  {
    if s == "" then Some(0)
    else
      var high :- ParseHex(s[..|s| - 1]);
      var low :- HexValue(s[|s| - 1]);
      Some(16 * high + low)
  }

  function Text(id: Id): (s: string)
    ensures |s| == 36
  {
    Grouped(Hex(id, 32))
  }

  function Grouped(h: string): (s: string)
    requires |h| == 32
    ensures |s| == 36
  {
    h[..8] + "-" + h[8..12] + "-" + h[12..16] + "-" + h[16..20] + "-" + h[20..]
  }

  function Ungrouped(s: string): (h: string)
    requires |s| == 36
    ensures |h| == 32
  {
    s[..8] + s[9..13] + s[14..18] + s[19..23] + s[24..]
  }

  /** 8-4-4-4-12 hexadecimal digits, in either case. */
  function ParseGroups(s: string): Option<Id>
    requires |s| == 36
  {
    if s[8] != '-' || s[13] != '-' || s[18] != '-' || s[23] != '-' then None
    else
      ThirtyTwoDigits();
      ParseHex(Ungrouped(s))
  }

  predicate IsUrnPrefix(s: string)
    requires |s| == 9
  {
    && s[0] in "uU" && s[1] in "rR" && s[2] in "nN" && s[3] == ':'
    && s[4] in "uU" && s[5] in "uU" && s[6] in "iI" && s[7] in "dD" && s[8] == ':'
  }

  /** The plain form, the URN form, a form inside any pair of brackets, and bare digits. */
  function Parse(s: string): Option<Id> {
    if |s| == 36 then ParseGroups(s)
    else if |s| == 45 then
      if IsUrnPrefix(s[..9]) then ParseGroups(s[9..]) else None
    else if |s| == 38 then ParseGroups(s[1..37])
    else if |s| == 32 then
      ThirtyTwoDigits();
      ParseHex(s)
    else None
  }

  lemma {:induction false} ParseUndoesHex(n: nat, digits: nat)
    requires n < Pow16(digits)
    ensures ParseHex(Hex(n, digits)) == Some(n)
  {
    if digits > 0 {
      ParseUndoesHex(n / 16, digits - 1);
      var s := Hex(n, digits);
      assert s[..|s| - 1] == Hex(n / 16, digits - 1);
      assert HexValue(HexDigit(n % 16)) == Some(n % 16);
    }
  }

  lemma UngroupedUndoesGrouped(h: string)
    requires |h| == 32
    ensures var s := Grouped(h); s[8] == s[13] == s[18] == s[23] == '-' && Ungrouped(s) == h
  {
    var s := Grouped(h);
    assert s[..8] == h[..8];
    assert s[9..13] == h[8..12];
    assert s[14..18] == h[12..16];
    assert s[19..23] == h[16..20];
    assert s[24..] == h[20..];
    assert Ungrouped(s) == h;
  }

  lemma ParseUndoesText(id: Id)
    ensures ParseGroups(Text(id)) == Some(id)
  {
    ThirtyTwoDigits();
    ParseUndoesHex(id, 32);
    UngroupedUndoesGrouped(Hex(id, 32));
  }

  lemma ParseSkipsWrapping(s: string)
    requires |s| == 36
    ensures Parse(s) == ParseGroups(s)
    ensures Parse("urn:uuid:" + s) == ParseGroups(s)
    ensures Parse("{" + s + "}") == ParseGroups(s)
  {
    var urn := "urn:uuid:" + s;
    assert urn[..9] == "urn:uuid:" && urn[9..] == s;
    var braced := "{" + s + "}";
    assert braced[1..37] == s;
  }

  /** Parsing the printed text, in any accepted wrapping, gives the same identifier back. */
  lemma RoundTrip(id: Id)
    ensures Parse(Text(id)) == Some(id)
    ensures Parse("urn:uuid:" + Text(id)) == Some(id)
    ensures Parse("{" + Text(id) + "}") == Some(id)
    ensures Parse(Hex(id, 32)) == Some(id)
  {
    ParseUndoesText(id);
    ParseSkipsWrapping(Text(id));
    ThirtyTwoDigits();
    ParseUndoesHex(id, 32);
  }

  lemma TextIsInjective(a: Id, b: Id)
    requires Text(a) == Text(b)
    ensures a == b
  {
    RoundTrip(a);
    RoundTrip(b);
  }

  predicate TextChar(c: char) {
    '0' <= c <= '9' || 'a' <= c <= 'f' || c == '-'
  }

  predicate AllTextChars(s: string) {
    forall i :: 0 <= i < |s| ==> TextChar(s[i])
  }

  lemma {:induction false} HexChars(n: nat, digits: nat)
    ensures AllTextChars(Hex(n, digits))
  {
    if digits > 0 {
      HexChars(n / 16, digits - 1);
      assert TextChar(HexDigit(n % 16));
      assert Hex(n, digits) == Hex(n / 16, digits - 1) + [HexDigit(n % 16)];
    }
  }

  lemma TextChars(id: Id)
    ensures AllTextChars(Text(id))
  {
    HexChars(id, 32);
  }

  // ---- the digits of the text, by themselves --------------------------------------------------

  const HEX_DIGITS: string := "0123456789abcdef"
  const HEX_CAPITALS: string := "0123456789ABCDEF"

  /** The hexadecimal digit of a number at a place, counted from the lowest. */
  function HexAt(n: nat, place: nat): char {
    HEX_DIGITS[n / Pow16(place) % 16]
  }

  lemma HexDigitsInOrder(v: int)
    requires 0 <= v < 16
    ensures HexDigit(v) == HEX_DIGITS[v]
    ensures HexValue(HEX_DIGITS[v]) == Some(v) == HexValue(HEX_CAPITALS[v])
  {
  }

  lemma HexValueIff(c: char)
    ensures HexValue(c).Some? <==> c in HEX_DIGITS || c in HEX_CAPITALS
  {
    if HexValue(c).Some? {
      assert c == HEX_DIGITS[HexValue(c).value] || c == HEX_CAPITALS[HexValue(c).value];
    }
  }

  lemma DivideTwice(n: nat, p: nat)
    requires p > 0
    ensures n / 16 / p == n / (16 * p)
  {
    var q, r := n / (16 * p), n % (16 * p);
    assert n == 16 * p * q + r;
    assert n == 16 * (p * q) + r;
    assert n / 16 == p * q + r / 16;
    assert 16 * (r / 16) <= r < 16 * p;
    QuotientIs(n / 16, p, q, r / 16);
  }

  lemma QuotientIs(n: int, p: nat, q: int, r: int)
    requires p > 0 && 0 <= r < p && n == p * q + r
    ensures n / p == q
  {
    var k := n / p;
    assert n == p * k + n % p;
    if k > q {
      assert p * k == p * q + p * (k - q);
      Multiple(p, k - q);
    } else if k < q {
      assert p * q == p * k + p * (q - k);
      Multiple(p, q - k);
    }
  }

  lemma Multiple(p: int, m: int)
    requires p > 0 && m > 0
    ensures p * m >= p
  {
    assert p * m == p + p * (m - 1);
    assert p * (m - 1) >= 0;
  }

  lemma {:induction false} HexDigitAt(n: nat, digits: nat, i: nat)
    requires i < digits
    ensures Hex(n, digits)[i] == HexAt(n, digits - 1 - i)
  {
    HexDigitsInOrder(n % 16);
    if i < digits - 1 {
      HexDigitAt(n / 16, digits - 1, i);
      DivideTwice(n, Pow16(digits - 2 - i));
    }
  }

  /** How many dashes stand before a digit of the text. */
  function DashesBefore(i: nat): nat {
    if i < 8 then 0 else if i < 12 then 1 else if i < 16 then 2 else if i < 20 then 3 else 4
  }

  /** The text is the number's 32 hexadecimal digits, highest first and in small letters, with
      dashes after the 8th, 12th, 16th and 20th. */
  lemma TextDigits(id: Id, i: nat)
    requires i < 32
    ensures Text(id)[i + DashesBefore(i)] == HexAt(id, 31 - i)
    ensures Text(id)[8] == Text(id)[13] == Text(id)[18] == Text(id)[23] == '-'
  {
    HexDigitAt(id, 32, i);
    UngroupedUndoesGrouped(Hex(id, 32));
    GroupedAt(Hex(id, 32), i);
  }

  lemma GroupedAt(h: string, i: nat)
    requires |h| == 32 && i < 32
    ensures Grouped(h)[i + DashesBefore(i)] == h[i]
  {
  }

  // ---- which texts are refused ----------------------------------------------------------------

  predicate AllHex(s: string) {
    forall i :: 0 <= i < |s| ==> s[i] in HEX_DIGITS || s[i] in HEX_CAPITALS
  }

  /** 8-4-4-4-12 hexadecimal digits with dashes between. */
  predicate Dashed(s: string) {
    && |s| == 36 && s[8] == s[13] == s[18] == s[23] == '-'
    && AllHex(s[..8]) && AllHex(s[9..13]) && AllHex(s[14..18]) && AllHex(s[19..23]) && AllHex(s[24..])
  }

  lemma {:induction false} HexAccepted(s: string)
    ensures ParseHex(s).Some? <==> AllHex(s)
  {
    if s != "" {
      HexAccepted(s[..|s| - 1]);
      HexValueIff(s[|s| - 1]);
      assert s == s[..|s| - 1] + [s[|s| - 1]];
    }
  }

  lemma AllHexJoin(a: string, b: string)
    ensures AllHex(a + b) <==> AllHex(a) && AllHex(b)
  {
    assert forall i :: 0 <= i < |b| ==> (a + b)[|a| + i] == b[i];
    assert forall i :: 0 <= i < |a| ==> (a + b)[i] == a[i];
  }

  lemma GroupsAccepted(s: string)
    requires |s| == 36
    ensures ParseGroups(s).Some? <==> Dashed(s)
  {
    HexAccepted(Ungrouped(s));
    AllHexJoin(s[..8], s[9..13]);
    AllHexJoin(s[..8] + s[9..13], s[14..18]);
    AllHexJoin(s[..8] + s[9..13] + s[14..18], s[19..23]);
    AllHexJoin(s[..8] + s[9..13] + s[14..18] + s[19..23], s[24..]);
  }

  /** An identifier is accepted plain, behind a URN prefix, inside any two characters, or as
      bare digits, and in no other form. */
  lemma AcceptedIff(s: string)
    ensures Parse(s).Some? <==>
            Dashed(s)
            || (|s| == 45 && IsUrnPrefix(s[..9]) && Dashed(s[9..]))
            || (|s| == 38 && Dashed(s[1..37]))
            || (|s| == 32 && AllHex(s))
  {
    if |s| == 36 {
      GroupsAccepted(s);
    } else if |s| == 45 {
      GroupsAccepted(s[9..]);
    } else if |s| == 38 {
      GroupsAccepted(s[1..37]);
    } else if |s| == 32 {
      HexAccepted(s);
    }
  }
}
