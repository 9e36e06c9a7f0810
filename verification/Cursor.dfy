/** The opaque page cursor: printed creation time, a bar, the printed id, all in base64. */
module Cursor {
  import opened Wrappers
  import opened Calendar
  import Base64
  import Timestamp
  import Uuid

  datatype Error = InvalidEncoding | Malformed | MalformedTimestamp | MalformedId

  predicate Ascii(s: string) {
    forall i :: 0 <= i < |s| ==> s[i] as int < 128
  }

  function Bytes(s: string): (b: seq<Base64.Byte>)
    requires Ascii(s)
    ensures |b| == |s|
  {
    seq(|s|, i requires 0 <= i < |s| => s[i] as int)
  }

  function Text(b: seq<Base64.Byte>): (s: string)
    ensures |s| == |b|
  {
    seq(|b|, i requires 0 <= i < |b| => b[i] as char)
  }

  /** The two parts around the first bar. */
  function SplitAtBar(s: string): Option<(string, string)> {
    if s == "" then None
    else if s[0] == '|' then Some(("", s[1..]))
    else
      var (before, after) :- SplitAtBar(s[1..]);
      Some(([s[0]] + before, after))
  }

  function RawText(createdAt: Nanos, id: Uuid.Id): string {
    Timestamp.Format(createdAt) + "|" + Uuid.Text(id)
  }

  function Encode(createdAt: Nanos, id: Uuid.Id): string {
    RawTextChars(createdAt, id);
    Base64.Encode(Bytes(RawText(createdAt, id)))
  }

  function Decode(cursor: string): Result<(Nanos, Uuid.Id), Error> {
    match Base64.Decode(cursor)
    case None => Failure(InvalidEncoding)
    case Some(bytes) =>
      match SplitAtBar(Text(bytes))
      case None => Failure(Malformed)
      case Some((before, after)) =>
        match Timestamp.Parse(before)
        case None => Failure(MalformedTimestamp)
        case Some(createdAt) =>
          match Uuid.Parse(after)
          case None => Failure(MalformedId)
          case Some(id) => Success((createdAt, id))
  }

  predicate RawChar(c: char) {
    Timestamp.TextChar(c) || Uuid.TextChar(c) || c == '|'
  }

  lemma RawTextChars(createdAt: Nanos, id: Uuid.Id)
    ensures forall i :: 0 <= i < |RawText(createdAt, id)| ==> RawChar(RawText(createdAt, id)[i])
    ensures Ascii(RawText(createdAt, id))
  {
    var before, after := Timestamp.Format(createdAt), Uuid.Text(id);
    Timestamp.TextChars(createdAt);
    Uuid.TextChars(id);
    var s := before + "|" + after;
    forall i | 0 <= i < |s|
      ensures RawChar(s[i])
    {
      assert i < |before| ==> s[i] == before[i] && Timestamp.TextChar(before[i]);
      assert i > |before| ==> s[i] == after[i - |before| - 1] && Uuid.TextChar(after[i - |before| - 1]);
    }
  }

  lemma {:induction false} SplitAtFirstBar(before: string, after: string)
    requires forall i :: 0 <= i < |before| ==> before[i] != '|'
    ensures SplitAtBar(before + "|" + after) == Some((before, after))
  {
    var s := before + "|" + after;
    if before == "" {
      assert s[1..] == after;
    } else {
      SplitAtFirstBar(before[1..], after);
      assert s[1..] == before[1..] + "|" + after;
      assert before == [before[0]] + before[1..];
    }
  }

  lemma BytesOfText(s: string)
    requires Ascii(s)
    ensures Text(Bytes(s)) == s
  {
  }

  /** A cursor decodes to exactly the pair it was made from when the year has four digits;
      otherwise its timestamp is rejected. */
  lemma RoundTrip(createdAt: Nanos, id: Uuid.Id)
    ensures Decode(Encode(createdAt, id)) == Success((createdAt, id)) <==> Timestamp.FourDigitYear(createdAt)
    ensures !Timestamp.FourDigitYear(createdAt) ==> Decode(Encode(createdAt, id)) == Failure(MalformedTimestamp)
  {
    var before, after := Timestamp.Format(createdAt), Uuid.Text(id);
    var raw := RawText(createdAt, id);
    RawTextChars(createdAt, id);
    Base64.RoundTrip(Bytes(raw));
    BytesOfText(raw);
    Timestamp.TextChars(createdAt);
    assert forall i :: 0 <= i < |before| ==> Timestamp.TextChar(before[i]) && before[i] != '|';
    SplitAtFirstBar(before, after);
    Timestamp.RoundTrip(createdAt);
    Uuid.RoundTrip(id);
  }

  lemma RawCharBits(c: char)
    requires RawChar(c)
    ensures c as int < 128 && c as int % 64 < 62
  {
  }

  lemma RawTextBits(s: string)
    requires Ascii(s) && forall i :: 0 <= i < |s| ==> RawChar(s[i])
    ensures Base64.AllUrlSafe(Base64.Encode(Bytes(s)))
  {
    var bytes := Bytes(s);
    forall i | 0 <= i < |bytes|
      ensures bytes[i] < 128 && bytes[i] % 64 < 62
    {
      RawCharBits(s[i]);
    }
    Base64.UrlSafeEncoding(bytes);
  }

  /** Every cursor is made of letters, digits and the padding sign only, so it reads the
      same under both base64 alphabets and needs no escaping in a query value. */
  lemma UrlSafe(createdAt: Nanos, id: Uuid.Id)
    ensures Base64.AllUrlSafe(Encode(createdAt, id))
    ensures Encode(createdAt, id) != ""
  {
    RawTextChars(createdAt, id);
    RawTextBits(RawText(createdAt, id));
    Base64.EncodedLength(Bytes(RawText(createdAt, id)));
  }

  /** What a client that sends a returned cursor relies on. */
  lemma Resumable(cursor: string, createdAt: Nanos, id: Uuid.Id)
    requires cursor == Encode(createdAt, id) && Timestamp.FourDigitYear(createdAt)
    ensures cursor != "" && Decode(cursor) == Success((createdAt, id))
  {
    UrlSafe(createdAt, id);
    RoundTrip(createdAt, id);
  }

  /** What a cursor carries is the printed time, one bar and the printed id. */
  lemma CarriedText(createdAt: Nanos, id: Uuid.Id)
    ensures var bytes := Base64.Decode(Encode(createdAt, id));
            bytes.Some? && Text(bytes.value) == Timestamp.Format(createdAt) + "|" + Uuid.Text(id)
  {
    RawTextChars(createdAt, id);
    Base64.RoundTrip(Bytes(RawText(createdAt, id)));
    BytesOfText(RawText(createdAt, id));
  }

  // ---- which cursors are refused --------------------------------------------------------------

  predicate NoBar(s: string) {
    forall i :: 0 <= i < |s| ==> s[i] != '|'
  }

  lemma {:induction false} SplitsAtFirstBar(s: string)
    ensures SplitAtBar(s).None? <==> NoBar(s)
    ensures SplitAtBar(s).Some? ==>
              var (before, after) := SplitAtBar(s).value; s == before + "|" + after && NoBar(before)
  {
    if s != "" {
      assert s == [s[0]] + s[1..];
      if s[0] != '|' {
        SplitsAtFirstBar(s[1..]);
        assert NoBar(s) <==> NoBar(s[1..]) by {
          assert forall i :: 0 <= i < |s[1..]| ==> s[1..][i] == s[i + 1];
        }
      }
    }
  }

  /** The text carried by a cursor, if it is base64 at all. */
  function Carried(cursor: string): Option<string> {
    match Base64.Decode(cursor)
    case None => None
    case Some(bytes) => Some(Text(bytes))
  }

  /** The text is the written form of a time, a bar, and an accepted form of an id. */
  ghost predicate Readable(text: string, createdAt: Nanos, id: Uuid.Id) {
    exists before, after ::
      && text == before + "|" + after && NoBar(before)
      && Timestamp.Parse(before) == Some(createdAt) && Uuid.Parse(after) == Some(id)
  }

  /** Each error is met by exactly these cursors: text that is not padded base64, text without
      a bar, and text whose part before the first bar is no timestamp or after it no id. */
  lemma Refusals(cursor: string)
    ensures Decode(cursor) == Failure(InvalidEncoding) <==> !Base64.Padded(Base64.WithoutLineBreaks(cursor))
    ensures Decode(cursor) == Failure(Malformed) <==> Carried(cursor).Some? && NoBar(Carried(cursor).value)
    ensures Decode(cursor) == Failure(MalformedTimestamp) <==>
            exists before, after :: Carried(cursor) == Some(before + "|" + after) && NoBar(before)
                                    && Timestamp.Parse(before).None?
    ensures Decode(cursor) == Failure(MalformedId) <==>
            exists before, after :: Carried(cursor) == Some(before + "|" + after) && NoBar(before)
                                    && Timestamp.Parse(before).Some? && Uuid.Parse(after).None?
  {
    Base64.AcceptedIff(cursor);
    if Carried(cursor).Some? {
      var text := Carried(cursor).value;
      SplitsAtFirstBar(text);
      forall before, after | text == before + "|" + after && NoBar(before)
        ensures SplitAtBar(text) == Some((before, after))
      {
        SplitAtFirstBar(before, after);
      }
    }
  }

  /** A cursor is accepted for a key if and only if it carries that key in a readable form. */
  lemma AcceptedIff(cursor: string, createdAt: Nanos, id: Uuid.Id)
    ensures Decode(cursor) == Success((createdAt, id)) <==>
            Carried(cursor).Some? && Readable(Carried(cursor).value, createdAt, id)
  {
    if Carried(cursor).Some? {
      var text := Carried(cursor).value;
      SplitsAtFirstBar(text);
      forall before, after | text == before + "|" + after && NoBar(before)
        ensures SplitAtBar(text) == Some((before, after))
      {
        SplitAtFirstBar(before, after);
      }
    }
  }
}
