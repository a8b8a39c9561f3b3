/** The multipart/form-data body `send_telegram_request` builds when a
    request carries files (core/views/tg_group.py), in the format of
    RFC 7578 with the delimiter syntax of section 5.1.1 of RFC 2046.

    The boundary is a parameter; `GeneratedBoundary` is the one the code
    derives from sixteen random bytes. */
module Multipart {
  import opened Utf8

  /** A file field: field name, file name, raw content and content type. */
  datatype FilePart = FilePart(fieldName: string, fileName: string, content: bytes, contentType: string)

  const CRLF := "\r\n"

  /** `b'\r\n'`, the line break after a file's bytes. */
  const CrlfBytes: bytes := [13, 10]

  function DelimiterLine(boundary: string): string {
    "--" + boundary + CRLF
  }

  function CloseDelimiter(boundary: string): string {
    "--" + boundary + "--" + CRLF
  }

  function FieldHeader(name: string): string {
    "Content-Disposition: form-data; name=\"" + name + "\"" + CRLF + CRLF
  }

  function FileDisposition(f: FilePart): string {
    "Content-Disposition: form-data; name=\"" + f.fieldName + "\"; filename=\"" + f.fileName + "\"" + CRLF
  }

  function ContentTypeLines(f: FilePart): string {
    "Content-Type: " + f.contentType + CRLF + CRLF
  }

  function FileHeader(f: FilePart): string {
    FileDisposition(f) + ContentTypeLines(f)
  }

  /** A text field's part: the delimiter line, the disposition header,
      a blank line, the value and a line break, as one text. */
  function FieldText(boundary: string, name: string, value: string): string {
    DelimiterLine(boundary) + FieldHeader(name) + value + CRLF
  }

  /** A field's part as bytes, one encoded line group at a time, as the
      code appends it. */
  function FieldBytes(boundary: string, field: (string, string)): bytes {
    Encode(DelimiterLine(boundary)) + Encode(FieldHeader(field.0)) + Encode(field.1 + CRLF)
  }

  /** A file's part: the delimiter line, the two headers, a blank line,
      the raw bytes and a line break. */
  function FileBytes(boundary: string, f: FilePart): bytes {
    Encode(DelimiterLine(boundary)) + Encode(FileDisposition(f)) + Encode(ContentTypeLines(f)) + f.content + CrlfBytes
  }

  function FieldEncoder(boundary: string): ((string, string)) -> bytes {
    field => FieldBytes(boundary, field)
  }

  function FileEncoder(boundary: string): FilePart -> bytes {
    f => FileBytes(boundary, f)
  }

  /** The encodings of `xs`, one per element. */
  function Map<T>(xs: seq<T>, encode: T -> bytes): (ps: seq<bytes>)
    ensures |ps| == |xs| && forall i :: 0 <= i < |xs| ==> ps[i] == encode(xs[i])
  {
    seq(|xs|, i requires 0 <= i < |xs| => encode(xs[i]))
  }

  /** The encodings of `xs` one after another. */
  function ConcatMap<T>(xs: seq<T>, encode: T -> bytes): bytes
    decreases |xs|
  {
    if xs == [] then [] else ConcatMap(xs[..|xs| - 1], encode) + encode(xs[|xs| - 1])
  }

  /** The parts of the body, text fields first, each in the given order. */
  function Parts(boundary: string, fields: seq<(string, string)>, files: seq<FilePart>): (ps: seq<bytes>)
    ensures |ps| == |fields| + |files|
    ensures forall i :: 0 <= i < |fields| ==> ps[i] == FieldBytes(boundary, fields[i])
    ensures forall i :: 0 <= i < |files| ==> ps[|fields| + i] == FileBytes(boundary, files[i])
  {
    var a, b := Map(fields, FieldEncoder(boundary)), Map(files, FileEncoder(boundary));
    assert forall i :: 0 <= i < |files| ==> (a + b)[|fields| + i] == b[i];
    a + b
  }

  function Flatten(ps: seq<bytes>): bytes
    decreases |ps|
  {
    if ps == [] then [] else Flatten(ps[..|ps| - 1]) + ps[|ps| - 1]
  }

  function FieldsBytes(boundary: string, fields: seq<(string, string)>): bytes {
    ConcatMap(fields, FieldEncoder(boundary))
  }

  function FilesBytes(boundary: string, files: seq<FilePart>): bytes {
    ConcatMap(files, FileEncoder(boundary))
  }

  /** The whole body: the field parts, the file parts, then the close
      delimiter. */
  function Body(boundary: string, fields: seq<(string, string)>, files: seq<FilePart>): bytes {
    FieldsBytes(boundary, fields) + FilesBytes(boundary, files) + Encode(CloseDelimiter(boundary))
  }

  // ---------------------------------------------------------------------
  // Shape of the body

  lemma {:induction false} FlattenAppend(ps: seq<bytes>, qs: seq<bytes>)
    ensures Flatten(ps + qs) == Flatten(ps) + Flatten(qs)
    decreases |qs|
  {
    if qs == [] {
      assert ps + qs == ps;
    } else {
      var qs' := qs[..|qs| - 1];
      assert (ps + qs)[..|ps + qs| - 1] == ps + qs';
      FlattenAppend(ps, qs');
    }
  }

  /** Encoding a field's lines one group at a time gives the encoding
      of its whole text. */
  lemma FieldBytesIsText(boundary: string, name: string, value: string)
    ensures FieldBytes(boundary, (name, value)) == Encode(FieldText(boundary, name, value))
  {
    var a, b, c := DelimiterLine(boundary), FieldHeader(name), value + CRLF;
    assert FieldText(boundary, name, value) == a + b + c;
    EncodeAppend(a, b);
    EncodeAppend(a + b, c);
  }

  /** The same for a file's header lines. */
  lemma FileBytesIsText(boundary: string, f: FilePart)
    ensures FileBytes(boundary, f) == Encode(DelimiterLine(boundary) + FileHeader(f)) + f.content + CrlfBytes
  {
    var a, b, c := DelimiterLine(boundary), FileDisposition(f), ContentTypeLines(f);
    assert a + FileHeader(f) == (a + b) + c;
    EncodeAppend(a, b);
    EncodeAppend(a + b, c);
  }

  ghost predicate Opens<T>(open: seq<T>, s: seq<T>) {
    |open| <= |s| && s[..|open|] == open
  }

  lemma OpensThree<T>(a: seq<T>, b: seq<T>, c: seq<T>)
    ensures Opens(a, a + b + c)
  {
    assert (a + b + c)[..|a|] == a;
  }

  lemma OpensFive<T>(a: seq<T>, b: seq<T>, c: seq<T>, d: seq<T>, e: seq<T>)
    ensures Opens(a, a + b + c + d + e)
  {
    assert (a + b + c + d + e)[..|a|] == a;
  }

  /** Every field part and every file part opens with the delimiter
      line. */
  lemma EncodersOpenWithDelimiter(boundary: string)
    ensures forall field :: Opens(Encode(DelimiterLine(boundary)), FieldEncoder(boundary)(field))
    ensures forall f :: Opens(Encode(DelimiterLine(boundary)), FileEncoder(boundary)(f))
  {
    var open := Encode(DelimiterLine(boundary));
    forall field: (string, string) ensures Opens(open, FieldEncoder(boundary)(field)) {
      OpensThree(open, Encode(FieldHeader(field.0)), Encode(field.1 + CRLF));
    }
    forall f: FilePart ensures Opens(open, FileEncoder(boundary)(f)) {
      OpensFive(open, Encode(FileDisposition(f)), Encode(ContentTypeLines(f)), f.content, CrlfBytes);
    }
  }

  /** Every part opens with the delimiter line. */
  lemma PartsOpenWithDelimiter(boundary: string, fields: seq<(string, string)>, files: seq<FilePart>)
    ensures var ps, open := Parts(boundary, fields, files), Encode(DelimiterLine(boundary));
      forall i :: 0 <= i < |ps| ==> Opens(open, ps[i])
  {
    EncodersOpenWithDelimiter(boundary);
    var ps := Parts(boundary, fields, files);
    forall i | 0 <= i < |ps| ensures Opens(Encode(DelimiterLine(boundary)), ps[i]) {
      if i < |fields| {
        assert ps[i] == FieldEncoder(boundary)(fields[i]);
      } else {
        assert ps[i] == FileEncoder(boundary)(files[i - |fields|]);
      }
    }
  }

  /** A non-empty run of encodings that each open with `open` opens with
      it too. */
  lemma {:induction false} ConcatMapOpens<T>(xs: seq<T>, encode: T -> bytes, open: bytes)
    requires xs != []
    requires forall x :: Opens(open, encode(x))
    ensures Opens(open, ConcatMap(xs, encode))
    decreases |xs|
  {
    var init, last := ConcatMap(xs[..|xs| - 1], encode), encode(xs[|xs| - 1]);
    if |xs| == 1 {
      assert ConcatMap(xs, encode) == [] + last;
    } else {
      ConcatMapOpens(xs[..|xs| - 1], encode, open);
      assert (init + last)[..|open|] == init[..|open|];
    }
  }

  lemma {:induction false} FlattenMap<T>(xs: seq<T>, encode: T -> bytes)
    ensures Flatten(Map(xs, encode)) == ConcatMap(xs, encode)
    decreases |xs|
  {
    if xs != [] {
      var xs' := xs[..|xs| - 1];
      assert Map(xs, encode)[..|xs| - 1] == Map(xs', encode);
      FlattenMap(xs', encode);
    }
  }

  /** The body is its parts one after another, then the close delimiter. */
  lemma BodyIsParts(boundary: string, fields: seq<(string, string)>, files: seq<FilePart>)
    ensures Body(boundary, fields, files) == Flatten(Parts(boundary, fields, files)) + Encode(CloseDelimiter(boundary))
  {
    var a, b := Map(fields, FieldEncoder(boundary)), Map(files, FileEncoder(boundary));
    FlattenAppend(a, b);
    FlattenMap(fields, FieldEncoder(boundary));
    FlattenMap(files, FileEncoder(boundary));
  }

  lemma EndsWith<T>(a: seq<T>, b: seq<T>)
    ensures |b| <= |a + b| && (a + b)[|a + b| - |b|..] == b
  {
  }

  lemma StartsWith<T>(p: seq<T>, a: seq<T>, rest: seq<T>)
    requires Opens(p, a)
    ensures Opens(p, a + rest)
  {
    assert (a + rest)[..|p|] == a[..|p|];
  }

  /** Three pieces `a + b + c`, where each of `a` and `b` (when flagged)
      opens with `open` and (when not) is empty. */
  lemma ConcatShape<T>(a: seq<T>, b: seq<T>, c: seq<T>, open: seq<T>, pa: bool, pb: bool)
    requires pa ==> Opens(open, a)
    requires pb ==> Opens(open, b)
    requires !pa ==> a == []
    requires !pb ==> b == []
    ensures |c| <= |a + b + c| && (a + b + c)[|a + b + c| - |c|..] == c
    ensures !pa && !pb ==> a + b + c == c
    ensures pa || pb ==> Opens(open, a + b + c)
  {
    EndsWith(a + b, c);
    if pa {
      StartsWith(open, a, b + c);
      assert a + b + c == a + (b + c);
    } else if pb {
      StartsWith(open, b, c);
      assert a + b + c == b + c;
    } else {
      assert a + b + c == c;
    }
  }

  /** The body ends with the close delimiter; it opens with a delimiter
      line when there is any field or file, and is only the close
      delimiter otherwise. */
  lemma BodyShape(boundary: string, fields: seq<(string, string)>, files: seq<FilePart>)
    ensures var body := Body(boundary, fields, files);
      var close, open := Encode(CloseDelimiter(boundary)), Encode(DelimiterLine(boundary));
      && |close| <= |body| && body[|body| - |close|..] == close
      && (fields == [] && files == [] ==> body == close)
      && (fields != [] || files != [] ==> Opens(open, body))
  {
    var open := Encode(DelimiterLine(boundary));
    EncodersOpenWithDelimiter(boundary);
    if fields != [] {
      ConcatMapOpens(fields, FieldEncoder(boundary), open);
    }
    if files != [] {
      ConcatMapOpens(files, FileEncoder(boundary), open);
    }
    ConcatShape(FieldsBytes(boundary, fields), FilesBytes(boundary, files), Encode(CloseDelimiter(boundary)),
      Encode(DelimiterLine(boundary)), fields != [], files != []);
  }

  // ---------------------------------------------------------------------
  // The boundary

  /** `bchars` of section 5.1.1 of RFC 2046. */
  predicate IsBoundaryChar(c: char) {
    ('0' <= c <= '9') || ('a' <= c <= 'z') || ('A' <= c <= 'Z')
    || c in "'()+_,-./:=? "
  }

  /** A boundary of 1 to 70 boundary characters that does not end in a space. */
  predicate ValidBoundary(b: string) {
    1 <= |b| <= 70 && (forall i :: 0 <= i < |b| ==> IsBoundaryChar(b[i])) && b[|b| - 1] != ' '
  }

  function HexDigit(d: nat): (c: char)
    requires d < 16
    ensures '0' <= c <= '9' || 'a' <= c <= 'f'
  {
    if d < 10 then ('0' as int + d) as char else ('a' as int + d - 10) as char
  }

  /** `''.join('%02x' % b for b in bs)`: two lowercase hex digits a byte. */
  function Hex(bs: bytes): (s: string)
    ensures |s| == 2 * |bs|
    ensures forall i :: 0 <= i < |s| ==> '0' <= s[i] <= '9' || 'a' <= s[i] <= 'f'
    decreases |bs|
  {
    if bs == [] then ""
    else Hex(bs[..|bs| - 1]) + [HexDigit(bs[|bs| - 1] as nat / 16), HexDigit(bs[|bs| - 1] as nat % 16)]
  }

  const BoundaryPrefix := "----WebKitFormBoundary"

  function GeneratedBoundary(random: bytes): string {
    BoundaryPrefix + Hex(random)
  }

  lemma BoundaryCharIsAscii(c: char)
    requires IsBoundaryChar(c)
    ensures c as int < 0x80
  {
  }

  /** The delimiter lines of a valid boundary are one byte a character. */
  lemma BoundaryLinesLength(b: string)
    requires ValidBoundary(b)
    ensures |Encode(DelimiterLine(b))| == |b| + 4 && |Encode(CloseDelimiter(b))| == |b| + 6
  {
    forall i | 0 <= i < |b| ensures b[i] as int < 0x80 {
      BoundaryCharIsAscii(b[i]);
    }
    var open, close := DelimiterLine(b), CloseDelimiter(b);
    assert forall i :: 0 <= i < |open| ==> open[i] as int < 0x80 by {
      forall i | 0 <= i < |open| ensures open[i] as int < 0x80 {
        if 2 <= i < 2 + |b| {
          assert open[i] == b[i - 2];
        }
      }
    }
    assert forall i :: 0 <= i < |close| ==> close[i] as int < 0x80 by {
      forall i | 0 <= i < |close| ensures close[i] as int < 0x80 {
        if 2 <= i < 2 + |b| {
          assert close[i] == b[i - 2];
        }
      }
    }
    EncodeAscii(open);
    EncodeAscii(close);
  }

  lemma PrefixIsBoundaryText()
    ensures forall i :: 0 <= i < |BoundaryPrefix| ==> IsBoundaryChar(BoundaryPrefix[i])
  {
  }

  /** Sixteen random bytes give a 54-character boundary that section 5.1.1
      of RFC 2046 accepts, and its delimiter lines are one byte a
      character. */
  lemma GeneratedBoundaryValid(random: bytes)
    requires |random| == 16
    ensures var b := GeneratedBoundary(random);
      && |b| == 54 && ValidBoundary(b)
      && |Encode(DelimiterLine(b))| == 58 && |Encode(CloseDelimiter(b))| == 60
  {
    var b, h := GeneratedBoundary(random), Hex(random);
    PrefixIsBoundaryText();
    forall i | 0 <= i < |b| ensures IsBoundaryChar(b[i]) {
      if i >= |BoundaryPrefix| {
        assert b[i] == h[i - |BoundaryPrefix|];
      } else {
        assert b[i] == BoundaryPrefix[i];
      }
    }
    assert b[|b| - 1] == h[|h| - 1];
    BoundaryLinesLength(b);
  }

  // ---------------------------------------------------------------------
  // The builder

  lemma Regroup3<T>(a: seq<T>, b: seq<T>, c: seq<T>, d: seq<T>)
    ensures a + b + c + d == a + (b + c + d)
  {
  }

  lemma Regroup5<T>(a: seq<T>, b: seq<T>, c: seq<T>, d: seq<T>, e: seq<T>, f: seq<T>)
    ensures a + b + c + d + e + f == a + (b + c + d + e + f)
  {
  }

  /** One text field's `body += ...` lines. */
  method AppendField(body: bytes, boundary: string, key: string, value: string) returns (body': bytes)
    ensures body' == body + FieldBytes(boundary, (key, value))
  {
    body' := body + Encode(DelimiterLine(boundary));
    body' := body' + Encode(FieldHeader(key));
    body' := body' + Encode(value + CRLF);
    Regroup3(body, Encode(DelimiterLine(boundary)), Encode(FieldHeader(key)), Encode(value + CRLF));
  }

  /** One file's `body += ...` lines. */
  method AppendFile(body: bytes, boundary: string, f: FilePart) returns (body': bytes)
    ensures body' == body + FileBytes(boundary, f)
  {
    body' := body + Encode(DelimiterLine(boundary));
    body' := body' + Encode(FileDisposition(f));
    body' := body' + Encode(ContentTypeLines(f));
    body' := body' + f.content;
    body' := body' + CrlfBytes;
    Regroup5(body, Encode(DelimiterLine(boundary)), Encode(FileDisposition(f)), Encode(ContentTypeLines(f)),
             f.content, CrlfBytes);
  }

  /** The text-field loop. */
  method AppendFields(body: bytes, boundary: string, fields: seq<(string, string)>) returns (body': bytes)
    ensures body' == body + FieldsBytes(boundary, fields)
  {
    body' := body;
    for i := 0 to |fields|
      invariant body' == body + FieldsBytes(boundary, fields[..i])
    {
      var (key, value) := fields[i];
      body' := AppendField(body', boundary, key, value);
      assert fields[..i + 1][..i] == fields[..i];
    }
    assert fields[..|fields|] == fields;
  }

  /** The file loop. */
  method AppendFiles(body: bytes, boundary: string, files: seq<FilePart>) returns (body': bytes)
    ensures body' == body + FilesBytes(boundary, files)
  {
    body' := body;
    for j := 0 to |files|
      invariant body' == body + FilesBytes(boundary, files[..j])
    {
      body' := AppendFile(body', boundary, files[j]);
      assert files[..j + 1][..j] == files[..j];
    }
    assert files[..|files|] == files;
  }

  /** The body as the code builds it: the fields, the files, the close
      delimiter, appended in that order. */
  method BuildBody(boundary: string, fields: seq<(string, string)>, files: seq<FilePart>) returns (body: bytes)
    ensures body == Body(boundary, fields, files)
  {
    body := AppendFields([], boundary, fields);
    body := AppendFiles(body, boundary, files);
    body := body + Encode(CloseDelimiter(boundary));
    assert [] + FieldsBytes(boundary, fields) == FieldsBytes(boundary, fields);
  }
}
