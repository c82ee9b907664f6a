/**
  The request body both upload functions build: a `multipart/form-data`
  body (section 5.1.1 of RFC 2046 for the delimiters, section 4.2 of
  RFC 7578 for the per-part `Content-Disposition` header) holding at most
  one file part. The header text is turned into bytes with UTF-8 and the
  file's bytes are copied in between, unchanged. Field name and file name
  are written between double quotes without escaping, exactly as the app
  does.

  `ParseBody` is the receiving side: it reads such a body back, given the
  boundary announced in the request's `Content-Type` header. Like any
  reader that follows section 5.1.1 of RFC 2046, it ends the file's bytes
  at the FIRST delimiter (CRLF, `--`, boundary) after the part's header.
  So the bytes come back intact exactly when they hold no delimiter
  (`DelimiterFree`). The app does not check this; it relies on the
  boundary being random.
 */
module Multipart {
  import opened Wrappers
  import opened Utf8
  import opened SeqRegroup

  const CRLF: string := "\r\n"
  const Quote: byte := 0x22
  const CR: byte := 0x0D

  /** One file part: form field name, file name, media type and the file's bytes. */
  datatype FormFile = FormFile(field: string, filename: string, mimeType: string, content: seq<byte>)

  /** What a body carries: no part at all, or one file part. */
  datatype FormData = EmptyForm | SingleFile(file: FormFile)

  const DispositionStart: string := "Content-Disposition: form-data; name=\""
  const AfterField: string := "\"; filename=\""
  const EndQuote: string := "\""
  const TypeStart: string := "Content-Type: "

  /** The three header lines of a part, each ending in CRLF; the last is followed by an empty line. */
  function DelimiterLine(boundary: string): string {
    "--" + boundary + CRLF
  }

  function DispositionLine(f: FormFile): string {
    DispositionStart + f.field + AfterField + f.filename + EndQuote + CRLF
  }

  function TypeLine(f: FormFile): string {
    TypeStart + f.mimeType + CRLF + CRLF
  }

  /** The header lines, each converted to bytes and appended, then the file bytes and the line break that ends the part. */
  function EncodePart(boundary: string, f: FormFile): seq<byte> {
    Encode(DelimiterLine(boundary)) + Encode(DispositionLine(f)) + Encode(TypeLine(f)) + f.content + Encode(CRLF)
  }

  function ClosingDelimiter(boundary: string): string {
    "--" + boundary + "--" + CRLF
  }

  /** The body: the part when there is one, then the closing delimiter, which is always written. */
  function EncodeBody(boundary: string, part: Option<FormFile>): seq<byte> {
    (if part.Some? then EncodePart(boundary, part.value) else []) + Encode(ClosingDelimiter(boundary))
  }

  function PartHeader(boundary: string, f: FormFile): string {
    DelimiterLine(boundary) + DispositionLine(f) + TypeLine(f)
  }

  // The same header, cut at the three places where caller-supplied text goes.

  function Opening(boundary: string): string {
    DelimiterLine(boundary) + DispositionStart
  }

  const AfterFilename: string := EndQuote + CRLF + TypeStart
  const AfterMimeType: string := CRLF + CRLF

  /** The field name and file name hold no '"' and the media type holds no CR, so each ends where the header text resumes. */
  predicate HeaderSafe(f: FormFile) {
    '"' !in f.field && '"' !in f.filename && '\r' !in f.mimeType
  }

  /** A part is its header, the file's bytes verbatim, and a line break. */
  lemma PartLayout(boundary: string, f: FormFile)
    ensures EncodePart(boundary, f) == Encode(PartHeader(boundary, f)) + f.content + Encode(CRLF)
  {
    var l1, l2, l3 := DelimiterLine(boundary), DispositionLine(f), TypeLine(f);
    EncodeConcat(l1 + l2, l3);
    EncodeConcat(l1, l2);
  }

  /** The header read line by line and read piece by piece is the same text. */
  lemma HeaderPieces(boundary: string, f: FormFile)
    ensures PartHeader(boundary, f)
         == Opening(boundary) + f.field + AfterField + f.filename + AfterFilename + f.mimeType + AfterMimeType
  {
    Reassociate(DelimiterLine(boundary), DispositionStart, f.field, AfterField, f.filename, EndQuote, CRLF,
                TypeStart, f.mimeType);
  }

  datatype Cut = Cut(before: seq<byte>, rest: seq<byte>)

  /** Splits `s` in front of the first `stop` byte. */
  function CutAt(s: seq<byte>, stop: byte): (r: Option<Cut>)
    ensures r.Some? ==> r.value.before + r.value.rest == s && stop !in r.value.before
    ensures r.Some? ==> |r.value.rest| > 0 && r.value.rest[0] == stop
    ensures r.None? ==> stop !in s
  {
    if s == [] then None
    else if s[0] == stop then Some(Cut([], s))
    else
      var c :- CutAt(s[1..], stop);
      Some(Cut([s[0]] + c.before, c.rest))
  }

  function StripPrefix(s: seq<byte>, p: seq<byte>): Option<seq<byte>> {
    if |p| <= |s| && s[..|p|] == p then Some(s[|p|..]) else None
  }

  /** A header value and what follows it. */
  datatype Token = Token(text: string, rest: seq<byte>)

  /** Reads text up to the first `stop` byte, which must open the fixed text `follow`. */
  function ReadUntil(s: seq<byte>, stop: byte, follow: seq<byte>): Option<Token> {
    var c :- CutAt(s, stop);
    var rest :- StripPrefix(c.rest, follow);
    var text :- Decode(c.before);
    Some(Token(text, rest))
  }

  /** Reads a body with at most one file part, given its boundary. */
  function ParseBody(boundary: string, body: seq<byte>): Option<FormData> {
    if body == Encode(ClosingDelimiter(boundary)) then Some(EmptyForm)
    else
      var f :- ParsePart(boundary, body);
      Some(SingleFile(f))
  }

  /** The header values of a part and the bytes after its header. */
  datatype Header = Header(field: string, filename: string, mimeType: string, rest: seq<byte>)

  /** Reads a part's header lines. */
  function ReadHeader(boundary: string, part: seq<byte>): Option<Header> {
    var afterOpening :- StripPrefix(part, Encode(Opening(boundary)));
    var field :- ReadUntil(afterOpening, Quote, Encode(AfterField));
    var filename :- ReadUntil(field.rest, Quote, Encode(AfterFilename));
    var mimeType :- ReadUntil(filename.rest, CR, Encode(AfterMimeType));
    Some(Header(field.text, filename.text, mimeType.text, mimeType.rest))
  }

  /** Reads a part: its header, then the file's bytes up to the first delimiter, which must be the closing one. */
  function ParsePart(boundary: string, part: seq<byte>): Option<FormFile> {
    var h :- ReadHeader(boundary, part);
    var content :- ReadContent(boundary, h.rest);
    Some(FormFile(h.field, h.filename, h.mimeType, content))
  }

  /** The delimiter that ends a part's content: a line break, two hyphens and the boundary. */
  function Delimiter(boundary: string): string {
    CRLF + "--" + boundary
  }

  const CloseSuffix: string := "--" + CRLF

  /** `d` occurs in `s` starting at position `i`. */
  predicate OccursAt(s: seq<byte>, d: seq<byte>, i: nat) {
    i + |d| <= |s| && s[i..i + |d|] == d
  }

  /** The first position at or after `from` where `d` occurs in `s`. */
  function FirstOccurrence(s: seq<byte>, d: seq<byte>, from: nat): (r: Option<nat>)
    requires from <= |s|
    ensures r.Some? ==> from <= r.value <= |s| && OccursAt(s, d, r.value)
    ensures r.Some? ==> forall i | from <= i < r.value :: !OccursAt(s, d, i)
    ensures r.None? ==> forall i | from <= i <= |s| :: !OccursAt(s, d, i)
    decreases |s| - from
  {
    if OccursAt(s, d, from) then Some(from)
    else if from == |s| then None
    else FirstOccurrence(s, d, from + 1)
  }

  /** The file's bytes run up to the first delimiter; what follows must be exactly the close delimiter's tail and nothing else. */
  function ReadContent(boundary: string, s: seq<byte>): Option<seq<byte>> {
    var k :- FirstOccurrence(s, Encode(Delimiter(boundary)), 0);
    if s[k..] == Encode(Delimiter(boundary)) + Encode(CloseSuffix) then Some(s[..k]) else None
  }

  /**
    No delimiter starts inside `content`, counting one that would run on into
    the delimiter written after it: the condition section 5.1.1 of RFC 2046
    puts on encapsulated data.
   */
  predicate DelimiterFree(boundary: string, content: seq<byte>) {
    var d := Encode(Delimiter(boundary));
    forall i | 0 <= i < |content| :: !OccursAt(content + d, d, i)
  }

  lemma StripPrefixOf(p: seq<byte>, t: seq<byte>)
    ensures StripPrefix(p + t, p) == Some(t)
  {
    assert (p + t)[..|p|] == p;
    assert (p + t)[|p|..] == t;
  }

  /** Cutting at `stop` finds the first occurrence, wherever the rest of the sequence holds more. */
  lemma {:induction false} CutAtFirst(a: seq<byte>, b: seq<byte>, stop: byte)
    requires stop !in a && |b| > 0 && b[0] == stop
    ensures CutAt(a + b, stop) == Some(Cut(a, b))
    decreases |a|
  {
    if a == [] {
      assert a + b == b;
    } else {
      var s := a + b;
      assert s[0] == a[0] != stop;
      assert s[1..] == a[1..] + b;
      CutAtFirst(a[1..], b, stop);
      assert CutAt(s, stop) == Some(Cut([s[0]] + a[1..], b));
      assert [a[0]] + a[1..] == a;
    }
  }

  /** Text free of the stop character is read back whole, and reading resumes after the fixed text. */
  lemma ReadUntilOf(text: string, stopChar: char, follow: string, rest: seq<byte>)
    requires stopChar as int < 0x80 && stopChar !in text
    requires |follow| > 0 && follow[0] == stopChar
    ensures ReadUntil(Encode(text) + (Encode(follow) + rest), (stopChar as int) as byte, Encode(follow))
         == Some(Token(text, rest))
  {
    var stop := (stopChar as int) as byte;
    assert Encode(follow) == EncodeChar(stopChar) + Encode(follow[1..]);
    AsciiAbsent(text, stopChar);
    CutAtFirst(Encode(text), Encode(follow) + rest, stop);
    StripPrefixOf(Encode(follow), rest);
    DecodeEncode(text);
  }

  /**
    Reading a body back yields exactly what was written: no part for the bare
    closing delimiter, otherwise the one part with its bytes intact, provided
    its header values hold no '"' and its bytes hold no delimiter.
   */
  lemma ParseEncodeBody(boundary: string, part: Option<FormFile>)
    requires part.Some? ==> HeaderSafe(part.value) && DelimiterFree(boundary, part.value.content)
    ensures ParseBody(boundary, EncodeBody(boundary, part)) == Some(if part.Some? then SingleFile(part.value) else EmptyForm)
  {
    if part.Some? {
      var f := part.value;
      BodyLayout(boundary, f);
      ReadHeaderOf(boundary, f, f.content + (Encode(Delimiter(boundary)) + Encode(CloseSuffix)));
      ReadContentOf(boundary, f.content);
    }
  }

  /** A delimiter inside the file's bytes ends the part early, so the part read back is not the one written. */
  lemma EmbeddedDelimiterBreaksRoundTrip(boundary: string, f: FormFile)
    requires HeaderSafe(f) && !DelimiterFree(boundary, f.content)
    ensures ParseBody(boundary, EncodeBody(boundary, Some(f))) != Some(SingleFile(f))
  {
    BodyLayout(boundary, f);
    ReadHeaderOf(boundary, f, f.content + (Encode(Delimiter(boundary)) + Encode(CloseSuffix)));
    ReadContentRejects(boundary, f.content);
  }

  /** File bytes that are themselves the closing lines hold a delimiter at their very start. */
  lemma CloseInsideContent(boundary: string)
    ensures !DelimiterFree(boundary, Encode(CRLF) + Encode(ClosingDelimiter(boundary)))
  {
    var d, e := Encode(Delimiter(boundary)), Encode(CloseSuffix);
    ClosingTail(boundary);
    var content := d + e;
    assert (content + d)[0..|d|] == d;
    assert OccursAt(content + d, d, 0);
  }

  /** A body with a part is the part's header, the file's bytes, the delimiter and the close delimiter's tail, and is never the bare closing delimiter. */
  lemma BodyLayout(boundary: string, f: FormFile)
    ensures EncodeBody(boundary, Some(f))
         == Encode(PartHeader(boundary, f)) + (f.content + (Encode(Delimiter(boundary)) + Encode(CloseSuffix)))
    ensures EncodeBody(boundary, Some(f)) != Encode(ClosingDelimiter(boundary))
  {
    var header, c, k := Encode(PartHeader(boundary, f)), Encode(CRLF), Encode(ClosingDelimiter(boundary));
    PartLayout(boundary, f);
    ClosingTail(boundary);
    assert EncodeBody(boundary, Some(f)) == EncodePart(boundary, f) + k;
    Reassociate4(header, f.content, c, k);
  }

  /** The line break that ends a part and the closing delimiter are, together, the delimiter followed by `--` and a line break. */
  lemma ClosingTail(boundary: string)
    ensures Encode(CRLF) + Encode(ClosingDelimiter(boundary)) == Encode(Delimiter(boundary)) + Encode(CloseSuffix)
  {
    assert CRLF + ClosingDelimiter(boundary) == Delimiter(boundary) + CloseSuffix;
    EncodeConcat(CRLF, ClosingDelimiter(boundary));
    EncodeConcat(Delimiter(boundary), CloseSuffix);
  }

  /** Bytes free of delimiters are read up to the delimiter written after them. */
  lemma ReadContentOf(boundary: string, content: seq<byte>)
    requires DelimiterFree(boundary, content)
    ensures ReadContent(boundary, content + (Encode(Delimiter(boundary)) + Encode(CloseSuffix))) == Some(content)
  {
    var d, e := Encode(Delimiter(boundary)), Encode(CloseSuffix);
    var s := content + (d + e);
    EarlyOccurrences(content, d, e);
    assert OccursAt(s, d, |content|) by {
      assert s[|content|..|content| + |d|] == d;
    }
    assert s[|content|..] == d + e;
    assert s[..|content|] == content;
  }

  /** Bytes holding a delimiter are cut short at the first one. */
  lemma ReadContentRejects(boundary: string, content: seq<byte>)
    requires !DelimiterFree(boundary, content)
    ensures ReadContent(boundary, content + (Encode(Delimiter(boundary)) + Encode(CloseSuffix))) != Some(content)
  {
    var d, e := Encode(Delimiter(boundary)), Encode(CloseSuffix);
    var s := content + (d + e);
    var i :| 0 <= i < |content| && OccursAt(content + d, d, i);
    EarlyOccurrences(content, d, e);
    assert OccursAt(s, d, i);
  }

  /** Before the end of `c`, `d` occurs in `c + (d + e)` exactly where it occurs in `c + d`. */
  lemma EarlyOccurrences(c: seq<byte>, d: seq<byte>, e: seq<byte>)
    ensures forall i | 0 <= i < |c| :: OccursAt(c + (d + e), d, i) <==> OccursAt(c + d, d, i)
  {
    var s := c + (d + e);
    assert s[..|c| + |d|] == c + d;
    forall i | 0 <= i < |c|
      ensures OccursAt(s, d, i) <==> OccursAt(c + d, d, i)
    {
      assert s[i..i + |d|] == s[..|c| + |d|][i..i + |d|];
    }
  }

  /** The header written for `f` is read back as `f`'s values, and reading resumes right after it. */
  lemma ReadHeaderOf(boundary: string, f: FormFile, tail: seq<byte>)
    requires HeaderSafe(f)
    ensures ReadHeader(boundary, Encode(PartHeader(boundary, f)) + tail) == Some(Header(f.field, f.filename, f.mimeType, tail))
  {
    var o, ef, af, en, an, em, am :=
      Encode(Opening(boundary)), Encode(f.field), Encode(AfterField), Encode(f.filename),
      Encode(AfterFilename), Encode(f.mimeType), Encode(AfterMimeType);
    HeaderPieces(boundary, f);
    HeaderBytes(boundary, f);
    Regroup(o, ef, af, en, an, em, am, tail);
    var s2 := em + (am + tail);
    var s1 := en + (an + s2);
    var s0 := ef + (af + s1);
    var whole := Encode(PartHeader(boundary, f)) + tail;
    assert whole == o + s0;
    StripPrefixOf(o, s0);
    ReadHeaderValues(f, s1, s2, tail);
    var field := ReadUntil(s0, Quote, af);
    assert field == Some(Token(f.field, s1));
    var filename := ReadUntil(s1, Quote, an);
    assert filename == Some(Token(f.filename, s2));
    var mimeType := ReadUntil(s2, CR, am);
    assert mimeType == Some(Token(f.mimeType, tail));
  }

  lemma ReadHeaderValues(f: FormFile, s1: seq<byte>, s2: seq<byte>, tail: seq<byte>)
    requires HeaderSafe(f)
    ensures ReadUntil(Encode(f.field) + (Encode(AfterField) + s1), Quote, Encode(AfterField)) == Some(Token(f.field, s1))
    ensures ReadUntil(Encode(f.filename) + (Encode(AfterFilename) + s2), Quote, Encode(AfterFilename)) == Some(Token(f.filename, s2))
    ensures ReadUntil(Encode(f.mimeType) + (Encode(AfterMimeType) + tail), CR, Encode(AfterMimeType)) == Some(Token(f.mimeType, tail))
  {
    ReadUntilOf(f.field, '"', AfterField, s1);
    ReadUntilOf(f.filename, '"', AfterFilename, s2);
    ReadUntilOf(f.mimeType, '\r', AfterMimeType, tail);
  }

  /** The header's bytes are the bytes of its seven pieces, in order. */
  lemma HeaderBytes(boundary: string, f: FormFile)
    ensures Encode(Opening(boundary) + f.field + AfterField + f.filename + AfterFilename + f.mimeType + AfterMimeType)
         == Encode(Opening(boundary)) + Encode(f.field) + Encode(AfterField) + Encode(f.filename)
          + Encode(AfterFilename) + Encode(f.mimeType) + Encode(AfterMimeType)
  {
    var o, fl, af, fn, an, mt, am :=
      Opening(boundary), f.field, AfterField, f.filename, AfterFilename, f.mimeType, AfterMimeType;
    EncodeConcat(o + fl + af + fn + an + mt, am);
    EncodeConcat(o + fl + af + fn + an, mt);
    EncodeConcat(o + fl + af + fn, an);
    EncodeConcat(o + fl + af, fn);
    EncodeConcat(o + fl, af);
    EncodeConcat(o, fl);
  }
}
