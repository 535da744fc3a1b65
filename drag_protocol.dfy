/** The drag-and-drop payload: on drag start a case card writes the pair
    (caseId, sourceGroupId) into the transfer data as JSON text; on drop the
    group container reads it back, and any text that does not decode is a
    silent no-op. The encoder produces exactly the text JSON.stringify gives
    for the object `{caseId, sourceGroupId}`; the decoder reads that object
    shape back and fails closed on anything else. */
module DragProtocol {
  import opened Types

  datatype DragPayload = DragPayload(caseId: string, sourceGroupId: string)

  /** The text before the case id, including the id's opening quote. */
  const CaseIdKey := "{\"caseId\":\""
  /** The text between the closing quote of the case id and the opening quote
      of the source group id. */
  const SourceKey := ",\"sourceGroupId\":\""
  /** The text after the closing quote of the source group id. */
  const ObjectEnd := "}"

  // ---------------------------------------------------------------------
  // Encoding (JSON.stringify)

  /** Lower-case hexadecimal digit. */
  function HexDigit(n: nat): (d: char)
    requires n < 16
    ensures d as int >= 48
  {
    if n < 10 then (48 + n) as char else (87 + n) as char
  }

  /** How JSON.stringify writes one character inside a string literal: quote
      and backslash are escaped, the five control characters with a short
      escape use it, the other control characters become \u00XX, and every
      other character stands for itself. */
  function EscapeChar(c: char): (r: string)
    ensures |r| >= 1
  {
    if c == '"' then "\\\""
    else if c == '\\' then "\\\\"
    else if c as int == 8 then "\\b"
    else if c == '\t' then "\\t"
    else if c == '\n' then "\\n"
    else if c as int == 12 then "\\f"
    else if c == '\r' then "\\r"
    else if (c as int) < 32 then "\\u00" + [HexDigit(c as int / 16), HexDigit(c as int % 16)]
    else [c]
  }

  /** No raw control character: what JSON requires inside a string literal. */
  predicate Printable(s: string)
  {
    forall i :: 0 <= i < |s| ==> s[i] as int >= 32
  }

  lemma PrintableConcat(a: string, b: string)
    requires Printable(a) && Printable(b)
    ensures Printable(a + b)
  {
    forall i | 0 <= i < |a + b| ensures (a + b)[i] as int >= 32 {
      if i >= |a| { assert (a + b)[i] == b[i - |a|]; }
    }
  }

  /** The body of a JSON string literal for `s` (without the quotes); it is
      never shorter than `s`. */
  function Escape(s: string): (r: string)
    ensures |r| >= |s|
  {
    if s == [] then [] else EscapeChar(s[0]) + Escape(s[1..])
  }

  /** An escaped character holds no raw control character. */
  lemma EscapeCharPrintable(c: char)
    ensures Printable(EscapeChar(c))
  {
  }

  /** An escaped string holds no raw control character. */
  lemma {:induction false} EscapePrintable(s: string)
    ensures Printable(Escape(s))
  {
    if s != [] {
      EscapeCharPrintable(s[0]);
      EscapePrintable(s[1..]);
      PrintableConcat(EscapeChar(s[0]), Escape(s[1..]));
    }
  }

  /** Two printable string bodies framed as the payload object: the text
      opens with the case id key, closes with a brace and stays printable. */
  lemma FramedPrintable(x: string, y: string)
    requires Printable(x) && Printable(y)
    ensures var r := CaseIdKey + (x + "\"" + (SourceKey + (y + "\"" + ObjectEnd)));
            CaseIdKey <= r && r[|r| - 1] == '}' && Printable(r)
  {
    var t1 := y + "\"";
    PrintableConcat(y, "\"");
    var t2 := t1 + ObjectEnd;
    PrintableConcat(t1, ObjectEnd);
    var t3 := SourceKey + t2;
    PrintableConcat(SourceKey, t2);
    var t4 := x + "\"";
    PrintableConcat(x, "\"");
    var t5 := t4 + t3;
    PrintableConcat(t4, t3);
    var r := CaseIdKey + t5;
    PrintableConcat(CaseIdKey, t5);
    assert r[..|CaseIdKey|] == CaseIdKey;
    assert r[|r| - 1] == t2[|t2| - 1];
  }

  /** The transfer text for a payload, as `handleDragStart` writes it: one
      JSON object, opening with the case id key and closing with a brace,
      with no raw control character anywhere. */
  function Encode(p: DragPayload): (r: string)
    ensures CaseIdKey <= r && r[|r| - 1] == '}'
    ensures Printable(r)
  {
    EscapePrintable(p.caseId);
    EscapePrintable(p.sourceGroupId);
    FramedPrintable(Escape(p.caseId), Escape(p.sourceGroupId));
    CaseIdKey + (Escape(p.caseId) + "\"" + (SourceKey + (Escape(p.sourceGroupId) + "\"" + ObjectEnd)))
  }

  // ---------------------------------------------------------------------
  // Decoding

  /** The value of a hexadecimal digit of either case. */
  function HexValue(c: char): (r: Option<nat>)
    ensures r.Some? ==> r.value < 16
  {
    if '0' <= c <= '9' then Some(c as int - 48)
    else if 'a' <= c <= 'f' then Some(c as int - 87)
    else if 'A' <= c <= 'F' then Some(c as int - 55)
    else None
  }

  /** One escape sequence, read after its backslash: the character it stands
      for and the text after it. A \u escape naming a surrogate code unit is
      rejected, since it is not a character on its own. */
  function Unescape(s: string): (r: Option<(char, string)>)
    ensures r.Some? ==> |r.value.1| < |s|
  {
    if s == [] then None
    else if s[0] == '"' || s[0] == '\\' || s[0] == '/' then Some((s[0], s[1..]))
    else if s[0] == 'b' then Some((8 as char, s[1..]))
    else if s[0] == 't' then Some(('\t', s[1..]))
    else if s[0] == 'n' then Some(('\n', s[1..]))
    else if s[0] == 'f' then Some((12 as char, s[1..]))
    else if s[0] == 'r' then Some(('\r', s[1..]))
    else if s[0] == 'u' && |s| >= 5 then
      match (HexValue(s[1]), HexValue(s[2]), HexValue(s[3]), HexValue(s[4]))
      case (Some(d1), Some(d2), Some(d3), Some(d4)) =>
        var v := ((d1 * 16 + d2) * 16 + d3) * 16 + d4;
        if 0xD800 <= v < 0xE000 then None else Some((v as char, s[5..]))
      case _ => None
    else None
  }

  /** Reads the body of a JSON string literal up to and including its closing
      quote: the decoded string and the text after the quote. Raw control
      characters and unknown escapes are errors, as in JSON. */
  function ParseString(s: string): (r: Option<(string, string)>)
    ensures r.Some? ==> |r.value.1| < |s|
    decreases |s|
  {
    if s == [] then None
    else if s[0] == '"' then Some(([], s[1..]))
    else if s[0] == '\\' then
      match Unescape(s[1..])
      case None => None
      case Some((c, rest)) =>
        match ParseString(rest)
        case None => None
        case Some((v, after)) => Some(([c] + v, after))
    else if (s[0] as int) < 32 then None
    else
      match ParseString(s[1..])
      case None => None
      case Some((v, after)) => Some(([s[0]] + v, after))
  }

  /** Reads the transfer text back; anything that is not the object written by
      Encode yields None, which the drop handler treats as a no-op. */
  function Decode(data: string): (r: Option<DragPayload>)
    ensures r.Some? ==> CaseIdKey <= data
  {
    if !(CaseIdKey <= data) then None
    else match ParseString(data[|CaseIdKey|..])
      case None => None
      case Some((cid, rest)) =>
        if !(SourceKey <= rest) then None
        else match ParseString(rest[|SourceKey|..])
          case None => None
          case Some((sid, tail)) =>
            if tail == ObjectEnd then Some(DragPayload(cid, sid)) else None
  }

  // ---------------------------------------------------------------------
  // Round trip

  lemma HexRoundTrip(n: nat)
    requires n < 16
    ensures HexValue(HexDigit(n)) == Some(n)
  {
  }

  /** A control character without a short escape reads back from its
      \u00XX form. */
  lemma UnescapeControl(c: char, t: string)
    requires (c as int) < 32
    ensures Unescape(['u', '0', '0', HexDigit(c as int / 16), HexDigit(c as int % 16)] + t) == Some((c, t))
  {
    var hi, lo := c as int / 16, c as int % 16;
    HexRoundTrip(hi);
    HexRoundTrip(lo);
    var s := ['u', '0', '0', HexDigit(hi), HexDigit(lo)] + t;
    assert s[5..] == t;
    assert ((0 * 16 + 0) * 16 + hi) * 16 + lo == c as int;
  }

  /** The \u00XX escape of a control character reads back as that character
      and continues with the text after it. */
  lemma ParseControlEscape(c: char, t: string)
    requires (c as int) < 32
    ensures ParseString("\\u00" + [HexDigit(c as int / 16), HexDigit(c as int % 16)] + t)
         == match ParseString(t)
            case None => None
            case Some((v, after)) => Some(([c] + v, after))
  {
    var u := ['u', '0', '0', HexDigit(c as int / 16), HexDigit(c as int % 16)] + t;
    UnescapeControl(c, t);
    assert ("\\u00" + [HexDigit(c as int / 16), HexDigit(c as int % 16)] + t)[1..] == u;
  }

  /** Reading one escaped character gives the character back and continues
      with the text after it. */
  lemma ParseEscapedChar(c: char, t: string)
    ensures ParseString(EscapeChar(c) + t)
         == match ParseString(t)
            case None => None
            case Some((v, after)) => Some(([c] + v, after))
  {
    var s := EscapeChar(c) + t;
    if (c as int) < 32 && c as int != 8 && c != '\t' && c != '\n' && c as int != 12 && c != '\r' {
      ParseControlEscape(c, t);
    } else if |EscapeChar(c)| == 2 {
      assert s[1..][1..] == t;
    } else {
      assert s[1..] == t;
    }
  }

  /** Parsing an escaped string followed by its closing quote gives the string
      back, and the text after the quote. */
  lemma {:induction false} ParseEscaped(x: string, rest: string)
    ensures ParseString(Escape(x) + "\"" + rest) == Some((x, rest))
  {
    if x == [] {
      assert Escape(x) + "\"" + rest == ['"'] + rest;
    } else {
      var t := Escape(x[1..]) + "\"" + rest;
      assert Escape(x) + "\"" + rest == EscapeChar(x[0]) + t;
      ParseEscaped(x[1..], rest);
      ParseEscapedChar(x[0], t);
      assert [x[0]] + x[1..] == x;
    }
  }

  /** A key followed by anything starts with the key, and dropping the key
      leaves the rest. */
  lemma AfterKey(key: string, x: string)
    ensures key <= key + x
    ensures (key + x)[|key|..] == x
  {
  }

  /** Decode reads the two string literals in order and requires the closing
      brace right after the second. */
  lemma DecodeParts(x: string, cid: string, y: string, sid: string)
    requires ParseString(x) == Some((cid, SourceKey + y))
    requires ParseString(y) == Some((sid, ObjectEnd))
    ensures Decode(CaseIdKey + x) == Some(DragPayload(cid, sid))
  {
    AfterKey(CaseIdKey, x);
    AfterKey(SourceKey, y);
  }

  /** What the drag start writes, the drop reads back unchanged. */
  lemma DecodeEncode(p: DragPayload)
    ensures Decode(Encode(p)) == Some(p)
  {
    var y := Escape(p.sourceGroupId) + "\"" + ObjectEnd;
    var x := Escape(p.caseId) + "\"" + (SourceKey + y);
    ParseEscaped(p.caseId, SourceKey + y);
    ParseEscaped(p.sourceGroupId, ObjectEnd);
    DecodeParts(x, p.caseId, y, p.sourceGroupId);
  }

  /** Empty transfer data, or text that does not open with the case id key
      (plain text dragged in from elsewhere), decodes to nothing. */
  lemma DecodeFailsClosed(data: string)
    requires |data| < |CaseIdKey| || data[..|CaseIdKey|] != CaseIdKey
    ensures Decode(data).None?
  {
  }
}
