/** The body of an email, as printed by the notification service and as read by a standard parser. */
module Mime {
  import opened Wrappers
  import opened Bytes

  const CRLF := "\r\n"
  const LINE_LENGTH := 76

  // ---------- Base64 (section 4 of RFC 4648) ----------

  function Symbol(v: nat): char
    requires v < 64
  {
    if v < 26 then ('A' as int + v) as char
    else if v < 52 then ('a' as int + (v - 26)) as char
    else if v < 62 then ('0' as int + (v - 52)) as char
    else if v == 62 then '+' else '/'
  }

  function Value(c: char): (v: Option<nat>)
    ensures v.Some? ==> v.value < 64
  {
    if 'A' <= c <= 'Z' then Some(c as int - 'A' as int)
    else if 'a' <= c <= 'z' then Some(c as int - 'a' as int + 26)
    else if '0' <= c <= '9' then Some(c as int - '0' as int + 52)
    else if c == '+' then Some(62) else if c == '/' then Some(63) else None
  }

  lemma ValueSymbol(v: nat)
    requires v < 64
    ensures Value(Symbol(v)) == Some(v) && Symbol(v) != '='
  {
  }

  predicate IsBase64(c: char) {
    Value(c).Some? || c == '='
  }

  function Encode(data: bytes): string {
    if data == [] then ""
    else if |data| == 1 then
      var a: int := data[0];
      [Symbol(a / 4), Symbol(a % 4 * 16), '=', '=']
    else if |data| == 2 then
      var a: int, b: int := data[0], data[1];
      [Symbol(a / 4), Symbol(a % 4 * 16 + b / 16), Symbol(b % 16 * 4), '=']
    else
      var a: int, b: int, c: int := data[0], data[1], data[2];
      [Symbol(a / 4), Symbol(a % 4 * 16 + b / 16), Symbol(b % 16 * 4 + c / 64), Symbol(c % 64)] + Encode(data[3..])
  }

  /** Padding is allowed in the last four characters only. */
  function Decode(text: string): Option<bytes> {
    if text == "" then Some([])
    else if |text| < 4 then None
    else
      var group, rest := Group(text[0], text[1], text[2], text[3], |text| == 4), Decode(text[4..]);
      if group.None? || rest.None? then None else Some(group.value + rest.value)
  }

  /** Four characters; last says whether they may be padded. */
  function Group(c0: char, c1: char, c2: char, c3: char, last: bool): Option<bytes> {
    if Value(c0).None? || Value(c1).None? then None
    else
      var a := Value(c0).value * 4 + Value(c1).value / 16;
      if c2 == '=' then
        if c3 == '=' && last then Some([a]) else None
      else if Value(c2).None? then None
      else
        var b := Value(c1).value % 16 * 16 + Value(c2).value / 4;
        if c3 == '=' then
          if last then Some([a, b]) else None
        else if Value(c3).None? then None
        else Some([a, b, Value(c2).value % 4 * 64 + Value(c3).value])
  }

  lemma DecodeOne(a: byte)
    ensures Decode(Encode([a])) == Some([a])
  {
    ValueSymbol(a / 4);
    ValueSymbol(a % 4 * 16);
    assert Encode([a])[4..] == "" && [a] + [] == [a];
  }

  lemma DecodeTwo(a: byte, b: byte)
    ensures Decode(Encode([a, b])) == Some([a, b])
  {
    var x: int, y: int := a, b;
    var text := Encode([a, b]);
    var v0, v1, v2 := x / 4, x % 4 * 16 + y / 16, y % 16 * 4;
    ValueSymbol(v0);
    ValueSymbol(v1);
    ValueSymbol(v2);
    assert text == [Symbol(v0), Symbol(v1), Symbol(v2), '='];
    assert v0 * 4 + v1 / 16 == x && v1 % 16 * 16 + v2 / 4 == y;
    assert text[4..] == "" && [a, b] + [] == [a, b];
  }

  /** Four symbols without padding give three bytes. */
  lemma {:induction false} DecodeChars(c0: char, c1: char, c2: char, c3: char, tail: string)
    requires Value(c0).Some? && Value(c1).Some? && Value(c2).Some? && Value(c3).Some?
    ensures Decode([c0, c1, c2, c3] + tail) ==
      if Decode(tail).None? then None
      else Some(Octets(Value(c0).value, Value(c1).value, Value(c2).value, Value(c3).value) + Decode(tail).value)
  {
    var text := [c0, c1, c2, c3] + tail;
    assert text[4..] == tail && text[0] == c0 && text[1] == c1 && text[2] == c2 && text[3] == c3;
    assert Group(c0, c1, c2, c3, |text| == 4) ==
      Some(Octets(Value(c0).value, Value(c1).value, Value(c2).value, Value(c3).value));
  }

  /** The three octets that four base64 digits stand for. */
  function Octets(v0: nat, v1: nat, v2: nat, v3: nat): bytes
    requires v0 < 64 && v1 < 64 && v2 < 64 && v3 < 64
  {
    [v0 * 4 + v1 / 16, v1 % 16 * 16 + v2 / 4, v2 % 4 * 64 + v3]
  }

  lemma OctetsBack(x: int, y: int, z: int)
    requires 0 <= x < 256 && 0 <= y < 256 && 0 <= z < 256
    ensures x % 4 * 16 + y / 16 < 64 && y % 16 * 4 + z / 64 < 64
    ensures Octets(x / 4, x % 4 * 16 + y / 16, y % 16 * 4 + z / 64, z % 64) == [x, y, z]
  {
    var v1, v2 := x % 4 * 16 + y / 16, y % 16 * 4 + z / 64;
    assert v1 / 16 == x % 4 && v1 % 16 == y / 16 && v2 / 4 == y % 16 && v2 % 4 == z / 64;
  }

  lemma {:induction false} DecodeQuad(v0: nat, v1: nat, v2: nat, v3: nat, tail: string)
    requires v0 < 64 && v1 < 64 && v2 < 64 && v3 < 64
    ensures Decode([Symbol(v0), Symbol(v1), Symbol(v2), Symbol(v3)] + tail) ==
      if Decode(tail).None? then None else Some(Octets(v0, v1, v2, v3) + Decode(tail).value)
  {
    ValueSymbol(v0);
    ValueSymbol(v1);
    ValueSymbol(v2);
    ValueSymbol(v3);
    DecodeChars(Symbol(v0), Symbol(v1), Symbol(v2), Symbol(v3), tail);
  }

  lemma {:induction false} EncodeStep(a: byte, b: byte, c: byte, rest: bytes)
    ensures
      var x: int, y: int, z: int := a, b, c;
      x % 4 * 16 + y / 16 < 64 && y % 16 * 4 + z / 64 < 64 && Encode([a, b, c] + rest) ==
        [Symbol(x / 4), Symbol(x % 4 * 16 + y / 16), Symbol(y % 16 * 4 + z / 64), Symbol(z % 64)] + Encode(rest)
  {
    var data := [a, b, c] + rest;
    assert data[3..] == rest && data[0] == a && data[1] == b && data[2] == c;
  }

  lemma {:induction false} DecodeThree(a: byte, b: byte, c: byte, rest: bytes)
    requires Decode(Encode(rest)) == Some(rest)
    ensures Decode(Encode([a, b, c] + rest)) == Some([a, b, c] + rest)
  {
    var x: int, y: int, z: int := a, b, c;
    OctetsBack(x, y, z);
    EncodeStep(a, b, c, rest);
    DecodeQuad(x / 4, x % 4 * 16 + y / 16, y % 16 * 4 + z / 64, z % 64, Encode(rest));
  }

  /** Decoding undoes encoding. */
  lemma {:induction false} DecodeEncode(data: bytes)
    ensures Decode(Encode(data)) == Some(data)
  {
    if |data| == 1 {
      DecodeOne(data[0]);
      assert data == [data[0]];
    } else if |data| == 2 {
      DecodeTwo(data[0], data[1]);
      assert data == [data[0], data[1]];
    } else if |data| > 2 {
      var rest := data[3..];
      assert data == [data[0], data[1], data[2]] + rest;
      DecodeEncode(rest);
      DecodeThree(data[0], data[1], data[2], rest);
    }
  }

  lemma {:induction false} EncodeAlphabet(data: bytes)
    ensures forall c | c in Encode(data) :: IsBase64(c)
  {
    if |data| > 2 {
      EncodeAlphabet(data[3..]);
    }
  }

  /** The alphabet of table 1 of RFC 4648. */
  lemma StandardAlphabet(v: nat)
    requires v < 64
    ensures v < 26 ==> Symbol(v) == "ABCDEFGHIJKLMNOPQRSTUVWXYZ"[v]
    ensures 26 <= v < 52 ==> Symbol(v) == "abcdefghijklmnopqrstuvwxyz"[v - 26]
    ensures 52 <= v < 62 ==> Symbol(v) == "0123456789"[v - 52]
    ensures v == 62 ==> Symbol(v) == '+'
    ensures v == 63 ==> Symbol(v) == '/'
  {
  }

  /** The number that base64 digits stand for. */
  function Number(text: string): Option<nat> {
    if text == "" then Some(0)
    else
      var init, last := Number(text[..|text| - 1]), Value(text[|text| - 1]);
      if init.None? || last.None? then None else Some(init.value * 64 + last.value)
  }

  lemma NumberNext(text: string, n: nat, v: nat)
    requires Number(text) == Some(n) && v < 64
    ensures Number(text + [Symbol(v)]) == Some(n * 64 + v)
  {
    ValueSymbol(v);
    assert (text + [Symbol(v)])[..|text|] == text;
  }

  lemma NumberTwo(v0: nat, v1: nat)
    requires v0 < 64 && v1 < 64
    ensures Number([Symbol(v0), Symbol(v1)]) == Some(v0 * 64 + v1)
  {
    NumberNext("", 0, v0);
    assert "" + [Symbol(v0)] == [Symbol(v0)] && [Symbol(v0)] + [Symbol(v1)] == [Symbol(v0), Symbol(v1)];
    NumberNext([Symbol(v0)], v0, v1);
  }

  lemma NumberThree(v0: nat, v1: nat, v2: nat)
    requires v0 < 64 && v1 < 64 && v2 < 64
    ensures Number([Symbol(v0), Symbol(v1), Symbol(v2)]) == Some((v0 * 64 + v1) * 64 + v2)
  {
    NumberTwo(v0, v1);
    NumberNext([Symbol(v0), Symbol(v1)], v0 * 64 + v1, v2);
    assert [Symbol(v0), Symbol(v1)] + [Symbol(v2)] == [Symbol(v0), Symbol(v1), Symbol(v2)];
  }

  lemma NumberFour(v0: nat, v1: nat, v2: nat, v3: nat)
    requires v0 < 64 && v1 < 64 && v2 < 64 && v3 < 64
    ensures Number([Symbol(v0), Symbol(v1), Symbol(v2), Symbol(v3)]) == Some(((v0 * 64 + v1) * 64 + v2) * 64 + v3)
  {
    NumberThree(v0, v1, v2);
    NumberNext([Symbol(v0), Symbol(v1), Symbol(v2)], (v0 * 64 + v1) * 64 + v2, v3);
    assert [Symbol(v0), Symbol(v1), Symbol(v2)] + [Symbol(v3)] == [Symbol(v0), Symbol(v1), Symbol(v2), Symbol(v3)];
  }

  lemma BigEndianThree(a: byte, b: byte, c: byte)
    ensures var x: int, y: int := a, b; BigEndian([a]) == a && BigEndian([a, b]) == x * 256 + y
    ensures var x: int, y: int, z: int := a, b, c; BigEndian([a, b, c]) == (x * 256 + y) * 256 + z
  {
    assert [a, b, c][..2] == [a, b] && [a, b][..1] == [a] && [a][..0] == [];
  }

  /** Three bytes become the four digits of the number that they are, most significant first. */
  lemma EncodeThree(a: byte, b: byte, c: byte)
    ensures |Encode([a, b, c])| == 4 && Number(Encode([a, b, c])) == Some(BigEndian([a, b, c]))
  {
    var x: int, y: int, z: int := a, b, c;
    var v1, v2 := x % 4 * 16 + y / 16, y % 16 * 4 + z / 64;
    NumberFour(x / 4, v1, v2, z % 64);
    BigEndianThree(a, b, c);
    assert Encode([a, b, c]) == [Symbol(x / 4), Symbol(v1), Symbol(v2), Symbol(z % 64)];
    assert x / 4 * 64 + v1 == x * 16 + y / 16 && y / 16 * 64 + v2 == y * 4 + z / 64;
  }

  /** Two bytes, filled up with two zero bits, become three digits, and one with four bits two digits;
      the digits that are missing are written as padding. */
  lemma EncodeTwo(a: byte, b: byte)
    ensures
      var text := Encode([a, b]);
      |text| == 4 && Number(text[..3]) == Some(BigEndian([a, b]) * 4) && text[3] == '='
  {
    var x: int, y: int := a, b;
    var v1 := x % 4 * 16 + y / 16;
    NumberThree(x / 4, v1, y % 16 * 4);
    BigEndianThree(a, b, 0);
    assert Encode([a, b])[..3] == [Symbol(x / 4), Symbol(v1), Symbol(y % 16 * 4)];
    assert x / 4 * 64 + v1 == x * 16 + y / 16;
  }

  lemma EncodeOne(a: byte)
    ensures
      var text := Encode([a]);
      |text| == 4 && Number(text[..2]) == Some(BigEndian([a]) * 16) && text[2..] == "=="
  {
    var x: int := a;
    NumberTwo(x / 4, x % 4 * 16);
    BigEndianThree(a, 0, 0);
    assert Encode([a])[..2] == [Symbol(x / 4), Symbol(x % 4 * 16)];
  }

  /** And the text of more than three bytes is that of the first three and that of the rest. */
  lemma EncodeByThrees(data: bytes, rest: bytes)
    requires |data| == 3
    ensures Encode(data + rest) == Encode(data) + Encode(rest)
  {
    assert (data + rest)[3..] == rest && data[3..] == [];
    assert Encode(data) + Encode(rest) == Encode(data)[..4] + Encode(rest);
  }

  // ---------- Lines ----------

  /** Every line with its CRLF. */
  function Join(lines: seq<string>): string {
    if lines == [] then "" else lines[0] + CRLF + Join(lines[1..])
  }

  lemma {:induction false} JoinAppend(a: seq<string>, b: seq<string>)
    ensures Join(a + b) == Join(a) + Join(b)
  {
    if a == [] {
      assert a + b == b;
    } else {
      JoinAppend(a[1..], b);
      assert (a + b)[1..] == a[1..] + b;
    }
  }

  /** What lies between the CRLFs. */
  function SplitLines(text: string): (lines: seq<string>)
    ensures lines != []
  {
    if |text| == 0 then [""]
    else if |text| >= 2 && text[0] == '\r' && text[1] == '\n' then [""] + SplitLines(text[2..])
    else
      var rest := SplitLines(text[1..]);
      [[text[0]] + rest[0]] + rest[1..]
  }

  predicate OneLine(line: string) {
    '\r' !in line
  }

  lemma {:induction false} SplitFirst(line: string, rest: string)
    requires OneLine(line)
    ensures SplitLines(line + CRLF + rest) == [line] + SplitLines(rest)
  {
    var text := line + CRLF + rest;
    if line == "" {
      assert text[2..] == rest;
    } else {
      SplitFirst(line[1..], rest);
      assert text[1..] == line[1..] + CRLF + rest;
      assert [line[0]] + line[1..] == line;
    }
  }

  lemma {:induction false} SplitJoin(lines: seq<string>)
    requires forall i | 0 <= i < |lines| :: OneLine(lines[i])
    ensures SplitLines(Join(lines)) == lines + [""]
  {
    if lines != [] {
      SplitJoin(lines[1..]);
      SplitFirst(lines[0], Join(lines[1..]));
      assert lines == [lines[0]] + lines[1..];
    }
  }

  // ---------- mimeBase64 ----------

  /** The encoded text cut into lines. */
  function EncodedLines(data: bytes): seq<string> {
    Chunks(Encode(data), LINE_LENGTH)
  }

  lemma NextLine(encoded: string, i: nat)
    requires i < |encoded|
    ensures
      var end := Min(i + LINE_LENGTH, |encoded|);
      Join(Chunks(encoded[i..], LINE_LENGTH)) == encoded[i..end] + CRLF + Join(Chunks(encoded[end..], LINE_LENGTH))
  {
    var end := Min(i + LINE_LENGTH, |encoded|);
    assert encoded[i..][..end - i] == encoded[i..end] && encoded[i..][end - i..] == encoded[end..];
    var rest := Chunks(encoded[end..], LINE_LENGTH);
    assert Chunks(encoded[i..], LINE_LENGTH) == [encoded[i..end]] + rest;
    assert ([encoded[i..end]] + rest)[1..] == rest;
  }

  /** The text has the lines of what is before i. */
  ghost predicate Written(text: string, encoded: string, i: nat)
    requires i <= |encoded|
  {
    text + Join(Chunks(encoded[i..], LINE_LENGTH)) == Join(Chunks(encoded, LINE_LENGTH))
  }

  lemma WrittenNext(text: string, encoded: string, i: nat)
    requires i < |encoded| && Written(text, encoded, i)
    ensures
      var end := Min(i + LINE_LENGTH, |encoded|);
      Written(text + encoded[i..end] + CRLF, encoded, end)
  {
    var end := Min(i + LINE_LENGTH, |encoded|);
    var rest := Join(Chunks(encoded[end..], LINE_LENGTH));
    NextLine(encoded, i);
    assert text + (encoded[i..end] + CRLF + rest) == text + encoded[i..end] + CRLF + rest;
  }

  method MimeBase64(data: bytes) returns (text: string)
    ensures text == Join(EncodedLines(data))
  {
    var encoded := Encode(data);
    assert encoded[0..] == encoded;
    text := "";
    var i := 0;
    while i < |encoded|
      invariant 0 <= i && Written(text, encoded, Min(i, |encoded|))
    {
      var end := i + LINE_LENGTH;
      if end > |encoded| { end := |encoded|; }
      WrittenNext(text, encoded, i);
      text := text + encoded[i..end];
      text := text + CRLF;
      i := i + LINE_LENGTH;
    }
    assert encoded[|encoded|..] == "" && text + "" == text;
  }

  lemma {:induction false} PieceAlphabet(pieces: seq<string>, i: nat)
    requires i < |pieces| && forall c | c in Flatten(pieces) :: IsBase64(c)
    ensures forall c | c in pieces[i] :: IsBase64(c)
  {
    if i > 0 {
      PieceAlphabet(pieces[1..], i - 1);
    }
  }

  lemma EncodedLineAlphabet(data: bytes)
    ensures forall i | 0 <= i < |EncodedLines(data)| :: forall c | c in EncodedLines(data)[i] :: IsBase64(c)
    ensures forall i | 0 <= i < |EncodedLines(data)| :: OneLine(EncodedLines(data)[i])
  {
    EncodeAlphabet(data);
    ChunksCut(Encode(data), LINE_LENGTH);
    forall i | 0 <= i < |EncodedLines(data)| ensures forall c | c in EncodedLines(data)[i] :: IsBase64(c) {
      PieceAlphabet(EncodedLines(data), i);
    }
  }

  /** The lines of the printed text: all of 76 characters but the last, which is not longer and not
      empty. */
  lemma LineLengths(data: bytes)
    ensures
      var lines := SplitLines(Join(EncodedLines(data)));
      && lines[|lines| - 1] == ""
      && (forall i | 0 <= i < |lines| - 2 :: |lines[i]| == 76)
      && (|lines| >= 2 ==> 0 < |lines[|lines| - 2]| <= 76)
  {
    EncodedLineAlphabet(data);
    ChunksCut(Encode(data), LINE_LENGTH);
    SplitJoin(EncodedLines(data));
  }

  // ---------- The printer ----------

  function Decimal(n: nat): (digits: string)
    ensures digits != "" && forall c | c in digits :: '0' <= c <= '9'
  {
    var last := [('0' as int + n % 10) as char];
    if n < 10 then last else Decimal(n / 10) + last
  }

  /** The boundary is made from the time in nanoseconds. */
  function Boundary(nanos: nat): string {
    "tenzoshare_" + Decimal(nanos)
  }

  /** The number that decimal digits stand for. */
  function DecimalValue(digits: string): int {
    if digits == "" then 0
    else DecimalValue(digits[..|digits| - 1]) * 10 + (digits[|digits| - 1] as int - '0' as int)
  }

  lemma {:induction false} DecimalReads(n: nat)
    ensures DecimalValue(Decimal(n)) == n
  {
    var digits := Decimal(n);
    if n < 10 {
      assert digits[..0] == "";
    } else {
      DecimalReads(n / 10);
      assert digits[..|digits| - 1] == Decimal(n / 10);
    }
  }

  /** A fixed text and the time in decimal, so different times have different boundaries. */
  lemma BoundaryText(nanos: nat)
    ensures |Boundary(nanos)| > 11 && Boundary(nanos)[..11] == "tenzoshare_"
    ensures forall c | c in Boundary(nanos)[11..] :: '0' <= c <= '9'
    ensures DecimalValue(Boundary(nanos)[11..]) == nanos
  {
    DecimalReads(nanos);
    assert Boundary(nanos)[11..] == Decimal(nanos);
  }

  const PLAIN_TYPE := "Content-Type: text/plain; charset=UTF-8"
  const HTML_TYPE := "Content-Type: text/html; charset=UTF-8"
  const ENCODING := "Content-Transfer-Encoding: base64"

  /** The header lines of the two parts: their types, and the encoding that they share. */
  datatype Headers = Headers(plainType: string, htmlType: string, encoding: string) {
    ghost predicate Valid() {
      IsHeader(plainType) && IsHeader(htmlType) && IsHeader(encoding)
    }
  }

  const HEADERS := Headers(PLAIN_TYPE, HTML_TYPE, ENCODING)

  predicate IsHeader(line: string) {
    OneLine(line) && line != "" && line[0] == 'C'
  }

  /** The lines of a part after its delimiter line; the empty line after the text ends it. */
  function PartLines(contentType: string, encoding: string, data: bytes): seq<string> {
    [contentType, encoding, ""] + EncodedLines(data) + [""]
  }

  function BodyLines(h: Headers, boundary: string, plain: bytes, html: bytes): seq<string> {
    ["--" + boundary] + PartLines(h.plainType, h.encoding, plain)
      + ["--" + boundary] + PartLines(h.htmlType, h.encoding, html) + ["--" + boundary + "--"]
  }

  lemma JoinNext(lines: seq<string>, line: string)
    ensures Join(lines + [line]) == Join(lines) + line + CRLF
  {
    JoinAppend(lines, [line]);
    assert Join([line]) == line + CRLF + Join([]);
  }

  /** fmt.Fprintf with one line. */
  method WriteLine(buf: string, ghost lines: seq<string>, line: string) returns (buf': string)
    requires buf == Join(lines)
    ensures buf' == Join(lines + [line])
  {
    buf' := buf + line;
    buf' := buf' + CRLF;
    JoinNext(lines, line);
  }

  /** The headers and the text of a part. */
  method WritePart(buf: string, ghost lines: seq<string>, contentType: string, encoding: string, data: bytes)
      returns (buf': string)
    requires buf == Join(lines)
    ensures buf' == Join(lines + [contentType, encoding, ""] + EncodedLines(data))
  {
    buf' := WriteLine(buf, lines, contentType);
    buf' := WriteLine(buf', lines + [contentType], encoding);
    buf' := WriteLine(buf', lines + [contentType] + [encoding], "");
    assert lines + [contentType] + [encoding] + [""] == lines + [contentType, encoding, ""];
    var text := MimeBase64(data);
    buf' := buf' + text;
    JoinAppend(lines + [contentType, encoding, ""], EncodedLines(data));
  }

  /** The end of buildMIME: from the content headers of a plain message, or from the first delimiter
      of one that has both forms. */
  method BuildBody(h: Headers, nanos: nat, plain: bytes, html: bytes) returns (buf: string)
    ensures html == [] ==> buf == Join([h.plainType, h.encoding, ""] + EncodedLines(plain))
    ensures html != [] ==> buf == Join(BodyLines(h, Boundary(nanos), plain, html))
  {
    if html == [] {
      buf := WritePart("", [], h.plainType, h.encoding, plain);
      assert [] + [h.plainType, h.encoding, ""] == [h.plainType, h.encoding, ""];
      return;
    }
    var boundary := Boundary(nanos);
    buf := BuildAlternatives(h, boundary, plain, html);
  }

  /** A delimiter line and the part that it opens. */
  method BuildPart(buf: string, ghost lines: seq<string>, boundary: string, contentType: string, encoding: string,
                   data: bytes)
      returns (buf': string)
    requires buf == Join(lines)
    ensures buf' == Join(lines + ["--" + boundary] + PartLines(contentType, encoding, data))
  {
    buf' := WriteLine(buf, lines, "--" + boundary);
    ghost var begun := lines + ["--" + boundary];
    buf' := WritePart(buf', begun, contentType, encoding, data);
    buf' := WriteLine(buf', begun + [contentType, encoding, ""] + EncodedLines(data), "");
    assert begun + [contentType, encoding, ""] + EncodedLines(data) + [""] ==
      begun + PartLines(contentType, encoding, data);
  }

  method BuildAlternatives(h: Headers, boundary: string, plain: bytes, html: bytes) returns (buf: string)
    ensures buf == Join(BodyLines(h, boundary, plain, html))
  {
    buf := BuildPart("", [], boundary, h.plainType, h.encoding, plain);
    ghost var lines := ["--" + boundary] + PartLines(h.plainType, h.encoding, plain);
    assert [] + ["--" + boundary] == ["--" + boundary];
    buf := BuildPart(buf, lines, boundary, h.htmlType, h.encoding, html);
    buf := WriteLine(buf, lines + ["--" + boundary] + PartLines(h.htmlType, h.encoding, html), "--" + boundary + "--");
  }

  // ---------- A parser (section 5.1.1 of RFC 2046) ----------

  /** A delimiter line: the boundary after two hyphens, whatever follows. */
  predicate IsDelimiter(boundary: string, line: string) {
    "--" + boundary <= line
  }

  predicate IsClose(boundary: string, line: string) {
    "--" + boundary + "--" <= line
  }

  function FirstDelimiter(boundary: string, lines: seq<string>): (k: nat)
    ensures k <= |lines|
  {
    if lines == [] || IsDelimiter(boundary, lines[0]) then 0 else 1 + FirstDelimiter(boundary, lines[1..])
  }

  /** The parts that follow a delimiter line, up to the close delimiter. */
  function SplitParts(boundary: string, lines: seq<string>): Option<seq<seq<string>>>
    decreases |lines|
  {
    var k := FirstDelimiter(boundary, lines);
    if k == |lines| then None
    else if IsClose(boundary, lines[k]) then Some([lines[..k]])
    else
      var rest := SplitParts(boundary, lines[k + 1..]);
      if rest.None? then None else Some([lines[..k]] + rest.value)
  }

  datatype Part = Part(headers: seq<string>, content: bytes)

  function FirstEmpty(lines: seq<string>): (k: nat)
    ensures k <= |lines|
  {
    if lines == [] || lines[0] == "" then 0 else 1 + FirstEmpty(lines[1..])
  }

  /** Headers up to the empty line; the rest is base64, with its line breaks removed. */
  function ReadPart(lines: seq<string>): Option<Part> {
    var k := FirstEmpty(lines);
    if k == |lines| then None
    else
      var content := Decode(Flatten(lines[k + 1..]));
      if content.None? then None else Some(Part(lines[..k], content.value))
  }

  function ReadParts(parts: seq<seq<string>>): Option<seq<Part>> {
    if parts == [] then Some([])
    else
      var first, rest := ReadPart(parts[0]), ReadParts(parts[1..]);
      if first.None? || rest.None? then None else Some([first.value] + rest.value)
  }

  /** What comes before the first delimiter is ignored. */
  function Parse(boundary: string, body: string): Option<seq<Part>> {
    var lines := SplitLines(body);
    var k := FirstDelimiter(boundary, lines);
    if k == |lines| || IsClose(boundary, lines[k]) then None
    else
      var parts := SplitParts(boundary, lines[k + 1..]);
      if parts.None? then None else ReadParts(parts.value)
  }

  // ---------- Round trip ----------

  predicate Occurs(needle: string, text: string) {
    exists i, j :: 0 <= i <= j <= |text| && text[i..j] == needle
  }

  lemma {:induction false} JoinAlphabet(lines: seq<string>, c: char)
    requires c in Join(lines) && c != '\r' && c != '\n'
    ensures exists i :: 0 <= i < |lines| && c in lines[i]
  {
    if c !in lines[0] {
      JoinAlphabet(lines[1..], c);
      var i :| 0 <= i < |lines| - 1 && c in lines[1..][i];
      assert c in lines[i + 1];
    }
  }

  /** The boundary has a character that no encoded part has, so it cannot occur inside one. */
  lemma BoundaryAbsent(nanos: nat, data: bytes)
    ensures !Occurs(Boundary(nanos), Join(EncodedLines(data)))
  {
    var boundary, text := Boundary(nanos), Join(EncodedLines(data));
    if Occurs(boundary, text) {
      var i, j :| 0 <= i <= j <= |text| && text[i..j] == boundary;
      assert text[i + 10] == boundary[10] == '_';
      JoinAlphabet(EncodedLines(data), '_');
      EncodedLineAlphabet(data);
      assert false;
    }
  }

  lemma {:induction false} DelimiterAfter(boundary: string, part: seq<string>, rest: seq<string>)
    requires forall i | 0 <= i < |part| :: !IsDelimiter(boundary, part[i])
    requires rest != [] && IsDelimiter(boundary, rest[0])
    ensures FirstDelimiter(boundary, part + rest) == |part|
  {
    if part == [] {
      assert part + rest == rest;
    } else {
      assert (part + rest)[1..] == part[1..] + rest;
      DelimiterAfter(boundary, part[1..], rest);
    }
  }

  lemma PartNotDelimiter(boundary: string, contentType: string, encoding: string, data: bytes)
    requires IsHeader(contentType) && IsHeader(encoding)
    ensures forall i | 0 <= i < |PartLines(contentType, encoding, data)| ::
      !IsDelimiter(boundary, PartLines(contentType, encoding, data)[i])
  {
    var lines := PartLines(contentType, encoding, data);
    EncodedLineAlphabet(data);
    forall i | 0 <= i < |lines| ensures !IsDelimiter(boundary, lines[i]) {
      if 3 <= i < |lines| - 1 && lines[i] != "" {
        assert lines[i] == EncodedLines(data)[i - 3];
        assert IsBase64(lines[i][0]);
      }
      assert lines[i] != "" ==> lines[i][0] != '-';
      assert ("--" + boundary)[0] == '-';
    }
  }

  lemma FlattenSnocEmpty(lines: seq<string>)
    ensures Flatten(lines + [""]) == Flatten(lines)
  {
    FlattenAppend(lines, [""]);
    assert Flatten([""]) == "" + Flatten([]);
  }

  /** A part gives back its header lines and its bytes. */
  lemma ReadBack(contentType: string, encoding: string, data: bytes)
    requires IsHeader(contentType) && IsHeader(encoding)
    ensures ReadPart(PartLines(contentType, encoding, data)) == Some(Part([contentType, encoding], data))
  {
    var lines := PartLines(contentType, encoding, data);
    assert lines[1..][0] == encoding && lines[1..][1..][0] == "";
    assert FirstEmpty(lines[1..][1..]) == 0;
    assert FirstEmpty(lines[1..]) == 1;
    assert FirstEmpty(lines) == 2;
    assert lines[3..] == EncodedLines(data) + [""];
    FlattenSnocEmpty(EncodedLines(data));
    ChunksCut(Encode(data), LINE_LENGTH);
    DecodeEncode(data);
    assert lines[..2] == [contentType, encoding];
  }

  /** The next part ends at the next delimiter line. */
  lemma SplitNext(boundary: string, part: seq<string>, delimiter: string, rest: seq<string>)
    requires forall i | 0 <= i < |part| :: !IsDelimiter(boundary, part[i])
    requires IsDelimiter(boundary, delimiter)
    ensures SplitParts(boundary, part + [delimiter] + rest) ==
      if IsClose(boundary, delimiter) then Some([part])
      else if SplitParts(boundary, rest).None? then None
      else Some([part] + SplitParts(boundary, rest).value)
  {
    var lines := part + [delimiter] + rest;
    DelimiterAfter(boundary, part, [delimiter] + rest);
    assert lines == part + ([delimiter] + rest);
    assert lines[..|part|] == part && lines[|part| + 1..] == rest;
  }

  lemma ReadTwo(first: seq<string>, second: seq<string>)
    requires ReadPart(first).Some? && ReadPart(second).Some?
    ensures ReadParts([first, second]) == Some([ReadPart(first).value, ReadPart(second).value])
  {
    assert [first, second][1..] == [second] && [second][1..] == [];
    assert [ReadPart(second).value] + [] == [ReadPart(second).value];
    assert [ReadPart(first).value] + [ReadPart(second).value] == [ReadPart(first).value, ReadPart(second).value];
    assert ReadParts([second]) == Some([ReadPart(second).value]);
  }

  lemma DelimiterLines(boundary: string)
    ensures IsDelimiter(boundary, "--" + boundary) && !IsClose(boundary, "--" + boundary)
    ensures IsDelimiter(boundary, "--" + boundary + "--") && IsClose(boundary, "--" + boundary + "--")
  {
  }

  /** The parser finds the two parts between the delimiter lines. */
  lemma SplitBack(boundary: string, first: seq<string>, second: seq<string>, delimiter: string, closing: string,
                  tail: seq<string>)
    requires forall i | 0 <= i < |first| :: !IsDelimiter(boundary, first[i])
    requires forall i | 0 <= i < |second| :: !IsDelimiter(boundary, second[i])
    requires IsDelimiter(boundary, delimiter) && !IsClose(boundary, delimiter)
    requires IsDelimiter(boundary, closing) && IsClose(boundary, closing)
    ensures SplitParts(boundary, first + [delimiter] + (second + [closing] + tail)) == Some([first, second])
  {
    SplitNext(boundary, second, closing, tail);
    SplitNext(boundary, first, delimiter, second + [closing] + tail);
    assert [first] + [second] == [first, second];
  }

  lemma BodyOneLine(h: Headers, boundary: string, plain: bytes, html: bytes)
    requires h.Valid() && OneLine(boundary)
    ensures SplitLines(Join(BodyLines(h, boundary, plain, html))) == BodyLines(h, boundary, plain, html) + [""]
  {
    var lines := BodyLines(h, boundary, plain, html);
    EncodedLineAlphabet(plain);
    EncodedLineAlphabet(html);
    forall i | 0 <= i < |lines| ensures OneLine(lines[i]) {
      assert lines[i] in lines;
    }
    SplitJoin(lines);
  }

  /** The parser gives back both bodies, in order, for any header lines and any boundary on one line. */
  lemma SplitBody(h: Headers, boundary: string, plain: bytes, html: bytes)
    requires h.Valid() && OneLine(boundary)
    ensures
      var lines := SplitLines(Join(BodyLines(h, boundary, plain, html)));
      var first, second := PartLines(h.plainType, h.encoding, plain), PartLines(h.htmlType, h.encoding, html);
      && lines != [] && FirstDelimiter(boundary, lines) == 0 && !IsClose(boundary, lines[0])
      && SplitParts(boundary, lines[1..]) == Some([first, second])
  {
    var first, second := PartLines(h.plainType, h.encoding, plain), PartLines(h.htmlType, h.encoding, html);
    BodyOneLine(h, boundary, plain, html);
    var rest := first + ["--" + boundary] + (second + ["--" + boundary + "--"] + [""]);
    var lines := ["--" + boundary] + rest;
    assert BodyLines(h, boundary, plain, html) + [""] == lines;
    DelimiterLines(boundary);
    assert FirstDelimiter(boundary, lines) == 0 && !IsClose(boundary, lines[0]) && lines[1..] == rest;
    PartNotDelimiter(boundary, h.plainType, h.encoding, plain);
    PartNotDelimiter(boundary, h.htmlType, h.encoding, html);
    SplitBack(boundary, first, second, "--" + boundary, "--" + boundary + "--", [""]);
  }

  lemma ParseBack(h: Headers, boundary: string, plain: bytes, html: bytes)
    requires h.Valid() && OneLine(boundary)
    ensures Parse(boundary, Join(BodyLines(h, boundary, plain, html))) ==
      Some([Part([h.plainType, h.encoding], plain), Part([h.htmlType, h.encoding], html)])
  {
    SplitBody(h, boundary, plain, html);
    ReadBack(h.plainType, h.encoding, plain);
    ReadBack(h.htmlType, h.encoding, html);
    ReadTwo(PartLines(h.plainType, h.encoding, plain), PartLines(h.htmlType, h.encoding, html));
  }

  lemma PlainTypeIsHeader()
    ensures IsHeader(PLAIN_TYPE)
  {
  }

  lemma HtmlTypeIsHeader()
    ensures IsHeader(HTML_TYPE)
  {
  }

  lemma EncodingIsHeader()
    ensures IsHeader(ENCODING)
  {
  }

  /** What the printer writes, the parser reads back: both bodies in order, for all bodies and at any
      time. */
  lemma MimeRoundTrip(nanos: nat, plain: bytes, html: bytes)
    ensures
      var encoding := "Content-Transfer-Encoding: base64";
      Parse(Boundary(nanos), Join(BodyLines(HEADERS, Boundary(nanos), plain, html))) == Some([
        Part(["Content-Type: text/plain; charset=UTF-8", encoding], plain),
        Part(["Content-Type: text/html; charset=UTF-8", encoding], html)])
  {
    PlainTypeIsHeader();
    HtmlTypeIsHeader();
    EncodingIsHeader();
    ParseBack(HEADERS, Boundary(nanos), plain, html);
  }

  /** A plain message is one part. */
  lemma PlainRoundTrip(h: Headers, plain: bytes)
    requires h.Valid()
    ensures ReadPart(SplitLines(Join([h.plainType, h.encoding, ""] + EncodedLines(plain)))) ==
      Some(Part([h.plainType, h.encoding], plain))
  {
    var lines := [h.plainType, h.encoding, ""] + EncodedLines(plain);
    EncodedLineAlphabet(plain);
    SplitJoin(lines);
    assert lines + [""] == PartLines(h.plainType, h.encoding, plain);
    ReadBack(h.plainType, h.encoding, plain);
  }
}
