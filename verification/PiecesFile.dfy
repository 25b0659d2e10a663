/** The pieces file: the writer, the validating reader, and the round trip between them. */
module PiecesFile {
  import opened Wrappers
  import opened MachineInts
  import opened Text
  import opened Pieces

  const HEADER: string := "index\toffset\tlength\tsha256"

  function ToLine(r: PieceRecord): string {
    Show(r.index) + "\t" + Show(r.offset) + "\t" + Show(r.length) + "\t" + r.sha256
  }

  function Lines(rs: seq<PieceRecord>): string {
    if rs == [] then "" else ToLine(rs[0]) + "\n" + Lines(rs[1..])
  }

  lemma {:induction false} LinesSnoc(rs: seq<PieceRecord>, r: PieceRecord)
    ensures Lines(rs + [r]) == Lines(rs) + ToLine(r) + "\n"
  {
    if rs == [] {
      assert (rs + [r])[1..] == [];
    } else {
      assert (rs + [r])[1..] == rs[1..] + [r];
      LinesSnoc(rs[1..], r);
    }
  }

  /** The pieces file being written: a header, and a line for each piece so far. */
  class PiecesWriter {
    var out: string
    var count: nat
    var nextOffset: nat
    ghost var written: seq<PieceRecord>

    ghost predicate Valid()
      reads this
    {
      && Chained(written, 0, 0)
      && out == HEADER + "\n" + Lines(written)
      && count == |written| && nextOffset == EndOf(written, 0)
    }

    constructor ()
      ensures Valid() && written == []
    {
      out := HEADER + "\n";
      count, nextOffset, written := 0, 0, [];
    }

    /** Append `piece` if it is the next one; anything else is refused and nothing is written. */
    method WritePiece(piece: PieceRecord) returns (ok: bool)
      requires Valid()
      modifies this
      ensures Valid()
      ensures ok <==> Chained(old(written) + [piece], 0, 0)
      ensures written == if ok then old(written) + [piece] else old(written)
      ensures !ok ==> out == old(out)
    {
      hide Lines, ToLine;
      ChainedSnoc(written, piece, 0, 0);
      if piece.index != count || piece.offset != nextOffset || piece.length == 0 {
        return false;
      }
      LinesSnoc(written, piece);
      out := out + ToLine(piece) + "\n";
      count := count + 1;
      nextOffset := piece.End();
      written := written + [piece];
      ok := true;
    }
  }

  /** Writing the records of a contiguous list succeeds and gives exactly their lines. */
  method WriteAll(rs: seq<PieceRecord>) returns (text: string)
    requires Chained(rs, 0, 0)
    ensures text == HEADER + "\n" + Lines(rs)
  {
    var writer := new PiecesWriter();
    for i := 0 to |rs|
      invariant writer.Valid() && writer.written == rs[..i]
    {
      assert rs[..i + 1] == rs[..i] + [rs[i]];
      ChainedPrefix(rs, 0, 0, i + 1);
      var ok := writer.WritePiece(rs[i]);
    }
    assert rs[..|rs|] == rs;
    text := writer.out;
  }

  lemma {:induction false} ChainedPrefix(rs: seq<PieceRecord>, index: nat, offset: nat, n: nat)
    requires Chained(rs, index, offset) && n <= |rs|
    ensures Chained(rs[..n], index, offset)
    decreases n
  {
    if n > 0 {
      ChainedPrefix(rs[1..], index + 1, rs[0].End(), n - 1);
      assert rs[..n][1..] == rs[1..][..n - 1];
    }
  }

  // ---- Reading ----

  datatype LineError =
    | NoHeader
    | EmptyFile
    | EmptyLine(line: nat)
    | FieldCount(line: nat, fields: nat)
    | BadNumber(line: nat, field: nat)
    | WrongIndex(line: nat, index: nat, expected: nat)
    | WrongOffset(line: nat, offset: nat, expected: nat)
    | ZeroLength(line: nat)
    | NotADigest(line: nat)
    | EndsBeyondU64(line: nat)

  /** The record on a line, given the line's number and what the record must continue. */
  function ParseLine(line: string, lineNo: nat, index: nat, offset: nat): (r: Result<PieceRecord, LineError>)
    ensures r.Ok? ==> && r.value.index == index && r.value.offset == offset && r.value.length > 0
                      && r.value.End() <= U64_MAX && IsDigest(r.value.sha256)
  {
    if line == "" then Err(EmptyLine(lineNo))
    else
      var fields := Split(line, '\t');
      if |fields| != 4 then Err(FieldCount(lineNo, |fields|))
      else if ParseU64(fields[0]).None? then Err(BadNumber(lineNo, 0))
      else if ParseU64(fields[1]).None? then Err(BadNumber(lineNo, 1))
      else if ParseU64(fields[2]).None? then Err(BadNumber(lineNo, 2))
      else
        var i, o, n := ParseU64(fields[0]).value, ParseU64(fields[1]).value, ParseU64(fields[2]).value;
        if i != index then Err(WrongIndex(lineNo, i, index))
        else if o != offset then Err(WrongOffset(lineNo, o, offset))
        else if n == 0 then Err(ZeroLength(lineNo))
        else if !Is64Hex(fields[3]) then Err(NotADigest(lineNo))
        else if o + n > U64_MAX then Err(EndsBeyondU64(lineNo))
        else
          LowerIsDigest(fields[3]);
          Ok(PieceRecord(i, o, n, Lower(fields[3])))
  }

  lemma LowerIsDigest(s: string)
    requires Is64Hex(s)
    ensures IsDigest(Lower(s))
  {
    forall c | c in Lower(s)
      ensures IsHexDigit(c) && LowerChar(c) == c
    {
      var i :| 0 <= i < |s| && Lower(s)[i] == c;
      assert IsHexDigit(s[i]);
    }
    assert Lower(Lower(s)) == Lower(s);
  }

  /** What a whole file gives: the pieces accepted, and the error that ended the reading, if any. */
  datatype Reading = Reading(pieces: seq<PieceRecord>, failure: Option<LineError>)

  function ReadAll(text: string, lineNo: nat, index: nat, offset: nat): Reading
    decreases |text|
  {
    if text == "" then Reading([], None)
    else
      var n := LineLength(text);
      match ParseLine(StripEol(text[..n]), lineNo + 1, index, offset)
      case Err(e) => Reading([], Some(e))
      case Ok(p) =>
        var rest := ReadAll(text[n..], lineNo + 1, index + 1, p.End());
        Reading([p] + rest.pieces, rest.failure)
  }

  /** The text after the header line, or why there is no header. */
  function AfterHeader(text: string): Result<string, LineError> {
    if text == "" then Err(EmptyFile)
    else if StripEol(text[..LineLength(text)]) == HEADER then Ok(text[LineLength(text)..])
    else Err(NoHeader)
  }

  /** What follows a header line in a text: the header, then a line end, or nothing more. */
  predicate HeaderThen(text: string, body: string) {
    || text == HEADER + "\n" + body || text == HEADER + "\r\n" + body
    || (body == "" && (text == HEADER || text == HEADER + "\r"))
  }

  lemma HeaderFound(text: string, body: string)
    requires AfterHeader(text) == Ok(body)
    ensures HeaderThen(text, body)
  {
    var n := LineLength(text);
    LineEnds(text);
    var first := text[..n];
    var eol := StripEolIs(first);
    hide StripEol, LineLength;
    assert text == first + body && first == HEADER + eol;
    if n < |text| {
      assert first[n - 1] == '\n';
    }
  }

  lemma HeaderIsPlain()
    ensures '\n' !in HEADER && HEADER != "" && HEADER[|HEADER| - 1] != '\r'
  {
  }

  lemma OnlyLine(line: string, cr: string)
    requires '\n' !in line && line != "" && line[|line| - 1] != '\r' && (cr == "" || cr == "\r")
    ensures var text, n := line + cr, LineLength(line + cr); n == |text| && StripEol(text[..n]) == line
  {
    var text := line + cr;
    NoBreak(text);
    assert text[..|text|] == text && text[..|line|] == line;
  }

  lemma HeaderIsFound(text: string, body: string)
    requires HeaderThen(text, body)
    ensures AfterHeader(text) == Ok(body)
  {
    HeaderIsPlain();
    if text == HEADER + "\n" + body {
      LineOfCopy(HEADER, false, body);
    } else if text == HEADER + "\r\n" + body {
      LineOfCopy(HEADER, true, body);
    } else {
      var cr := if text == HEADER then "" else "\r";
      assert text == HEADER + cr;
      OnlyLine(HEADER, cr);
      assert text[|text|..] == "" && text[0] == HEADER[0];
      hide StripEol, LineLength;
    }
  }

  /** Only a text whose first line is the header is read as a pieces file. */
  lemma HeaderIff(text: string, body: string)
    ensures AfterHeader(text) == Ok(body) <==> HeaderThen(text, body)
  {
    if AfterHeader(text) == Ok(body) {
      HeaderFound(text, body);
    }
    if HeaderThen(text, body) {
      HeaderIsFound(text, body);
    }
  }

  lemma {:induction false} NoBreak(text: string)
    requires '\n' !in text
    ensures LineLength(text) == |text|
  {
    if text != "" {
      NoBreak(text[1..]);
    }
  }

  function ReadFile(text: string): Result<seq<PieceRecord>, LineError> {
    match AfterHeader(text)
    case Err(e) => Err(e)
    case Ok(body) =>
      var reading := ReadAll(body, 1, 0, 0);
      if reading.failure.Some? then Err(reading.failure.value) else Ok(reading.pieces)
  }

  /** The pieces file being read, and what its next line must continue. `rest` is the text not read yet. */
  class PiecesReader {
    var rest: string
    var lineNo: nat
    var nextIndex: nat
    var nextOffset: nat

    /** What the reader still has to give. */
    function Remaining(): Reading
      reads this
    {
      ReadAll(rest, lineNo, nextIndex, nextOffset)
    }

    /** The text after a valid header, which AfterHeader finds. */
    constructor (body: string)
      ensures Remaining() == ReadAll(body, 1, 0, 0)
    {
      rest, lineNo, nextIndex, nextOffset := body, 1, 0, 0;
    }

    method NextLine() returns (line: Option<string>)
      modifies this
      ensures lineNo == old(lineNo) + 1 && nextIndex == old(nextIndex) && nextOffset == old(nextOffset)
      ensures old(rest) == "" ==> line == None && rest == ""
      ensures old(rest) != "" ==>
                var n := LineLength(old(rest));
                line == Some(StripEol(old(rest)[..n])) && rest == old(rest)[n..]
    {
      lineNo := lineNo + 1;
      if rest == "" {
        return None;
      }
      var n := LineLength(rest);
      line := Some(StripEol(rest[..n]));
      rest := rest[n..];
    }

    /** The next piece of what remains; nothing at the end of the file. */
    method NextPiece() returns (r: Result<Option<PieceRecord>, LineError>)
      modifies this
      ensures match r
              case Err(e) => old(Remaining()) == Reading([], Some(e))
              case Ok(None) => old(Remaining()) == Reading([], None)
              case Ok(Some(p)) => old(Remaining()) == Reading([p] + Remaining().pieces, Remaining().failure)
    {
      var line := NextLine();
      match line {
        case None =>
          r := Ok(None);
        case Some(l) =>
          match ParseLine(l, lineNo, nextIndex, nextOffset) {
            case Err(e) =>
              r := Err(e);
            case Ok(p) =>
              nextIndex := nextIndex + 1;
              nextOffset := p.End();
              r := Ok(Some(p));
          }
      }
    }
  }

  // ---- What the reader accepts, and the round trip ----

  /** Records as a pieces file can hold them. */
  predicate Writable(rs: seq<PieceRecord>) {
    && Chained(rs, 0, 0) && EndOf(rs, 0) <= U64_MAX
    && forall r :: r in rs ==> IsDigest(r.sha256)
  }

  lemma {:induction false} ReadAllChained(text: string, lineNo: nat, index: nat, offset: nat)
    requires offset <= U64_MAX
    ensures var rs := ReadAll(text, lineNo, index, offset).pieces;
            && Chained(rs, index, offset) && EndOf(rs, offset) <= U64_MAX
            && forall r :: r in rs ==> IsDigest(r.sha256)
    decreases |text|
  {
    hide ParseLine, StripEol, LineLength, IsDigest;
    if text != "" {
      var n := LineLength(text);
      var parsed := ParseLine(StripEol(text[..n]), lineNo + 1, index, offset);
      if parsed.Ok? {
        var p := parsed.value;
        ReadAllChained(text[n..], lineNo + 1, index + 1, p.End());
        var rest := ReadAll(text[n..], lineNo + 1, index + 1, p.End()).pieces;
        assert ([p] + rest)[1..] == rest;
      }
    }
  }

  /** Everything accepted is numbered from 0, contiguous from offset 0, not empty, and ends in u64. */
  lemma AcceptedIsWritable(text: string)
    ensures ReadFile(text).Ok? ==> Writable(ReadFile(text).value)
  {
    if AfterHeader(text).Ok? {
      ReadAllChained(AfterHeader(text).value, 1, 0, 0);
    }
  }

  /** How one line of a copy may differ from what was written: the case of the digest, the line end. */
  datatype Variant = Variant(digest: string, crlf: bool)

  predicate VariantOf(v: Variant, r: PieceRecord) {
    Is64Hex(v.digest) && Lower(v.digest) == r.sha256
  }

  function Eol(crlf: bool): string {
    if crlf then "\r\n" else "\n"
  }

  function CopyLines(rs: seq<PieceRecord>, vs: seq<Variant>): string
    requires |rs| == |vs|
  {
    if rs == [] then ""
    else ToLine(rs[0].(sha256 := vs[0].digest)) + Eol(vs[0].crlf) + CopyLines(rs[1..], vs[1..])
  }

  lemma LineOfCopy(line: string, crlf: bool, rest: string)
    requires '\n' !in line && line != "" && line[|line| - 1] != '\r'
    ensures var text := line + Eol(crlf) + rest;
            var n := LineLength(text);
            StripEol(text[..n]) == line && text[n..] == rest
  {
    var body := if crlf then line + "\r" else line;
    var text := line + Eol(crlf) + rest;
    assert text == body + "\n" + rest;
    LineLengthOf(body, rest);
    assert text[..|body| + 1] == body + "\n";
    assert (body + "\n")[..|body|] == body;
    if crlf {
      assert body[..|line|] == line;
    }
  }

  lemma ToLineParses(r: PieceRecord, digest: string, lineNo: nat)
    requires Is64Hex(digest) && Lower(digest) == r.sha256 && r.index <= U64_MAX && r.length > 0 && r.End() <= U64_MAX
    ensures var line := ToLine(r.(sha256 := digest));
            && ParseLine(line, lineNo, r.index, r.offset) == Ok(r)
            && '\n' !in line && line != "" && line[|line| - 1] != '\r'
  {
    hide Show, Split, Value;
    var a, b, c := Show(r.index), Show(r.offset), Show(r.length);
    var line := ToLine(r.(sha256 := digest));
    ParseOfShow(r.index);
    ParseOfShow(r.offset);
    ParseOfShow(r.length);
    NoBreaks(a);
    NoBreaks(b);
    NoBreaks(c);
    assert digest[63] in digest;
    FourFields(a, b, c, digest);
    assert line == a + "\t" + (b + "\t" + (c + "\t" + digest));
    assert line[|line| - 1] == digest[63];
  }

  lemma FourFields(a: string, b: string, c: string, d: string)
    requires '\t' !in a && '\t' !in b && '\t' !in c && '\t' !in d
    ensures Split(a + "\t" + (b + "\t" + (c + "\t" + d)), '\t') == [a, b, c, d]
  {
    hide Split;
    SplitOne(d, '\t');
    SplitFirst(c, '\t', d);
    SplitFirst(b, '\t', c + "\t" + d);
    SplitFirst(a, '\t', b + "\t" + (c + "\t" + d));
  }

  /** A line has the index, the offset, the length and the digest, in this order. */
  lemma LineFields(r: PieceRecord)
    requires '\t' !in r.sha256
    ensures Split(ToLine(r), '\t') == [Show(r.index), Show(r.offset), Show(r.length), r.sha256]
  {
    hide Show, Split;
    var a, b, c := Show(r.index), Show(r.offset), Show(r.length);
    NoBreaks(a);
    NoBreaks(b);
    NoBreaks(c);
    FourFields(a, b, c, r.sha256);
    assert ToLine(r) == a + "\t" + (b + "\t" + (c + "\t" + r.sha256));
  }

  /** Decimal digits that give the number, leading zeros allowed. */
  predicate IsNumeral(s: string, n: nat) {
    s != [] && AllDigits(s) && Value(s) == n
  }

  /** The line consists of the numerals of index, offset and length, and 64 hexadecimal digits. */
  ghost predicate IsLineOf(line: string, index: nat, offset: nat, length: nat, digest: string) {
    exists a, b, c :: IsNumeral(a, index) && IsNumeral(b, offset) && IsNumeral(c, length)
                      && line == a + "\t" + (b + "\t" + (c + "\t" + digest))
  }

  lemma ParsedFields(line: string, lineNo: nat, index: u64, offset: u64, r: PieceRecord)
    ensures ParseLine(line, lineNo, index, offset) == Ok(r) <==>
            var f := Split(line, '\t');
            && r.index == index && r.offset == offset && r.length > 0 && r.End() <= U64_MAX
            && |f| == 4 && IsNumeral(f[0], index) && IsNumeral(f[1], offset) && IsNumeral(f[2], r.length)
            && Is64Hex(f[3]) && r.sha256 == Lower(f[3])
  {
    hide Value, Lower;
    if line == "" {
      assert Split(line, '\t') == [""];
    }
  }

  lemma FieldsJoin(line: string)
    requires |Split(line, '\t')| == 4
    ensures var f := Split(line, '\t'); line == f[0] + "\t" + (f[1] + "\t" + (f[2] + "\t" + f[3]))
  {
    SplitJoins(line, '\t');
    hide Split;
    JoinFour(Split(line, '\t'));
  }

  lemma NumeralFields(line: string, a: string, b: string, c: string, digest: string)
    requires AllDigits(a) && AllDigits(b) && AllDigits(c) && Is64Hex(digest)
    requires line == a + "\t" + (b + "\t" + (c + "\t" + digest))
    ensures Split(line, '\t') == [a, b, c, digest]
  {
    hide Split;
    NoBreaks(a);
    NoBreaks(b);
    NoBreaks(c);
    FourFields(a, b, c, digest);
  }

  /** Exactly these lines are accepted: those of a record that continues the file, is not empty and ends in u64,
      the digest in any case. */
  lemma LineAcceptedIff(line: string, lineNo: nat, index: u64, offset: u64, r: PieceRecord)
    ensures ParseLine(line, lineNo, index, offset) == Ok(r) <==>
            && r.index == index && r.offset == offset && r.length > 0 && r.End() <= U64_MAX
            && exists digest :: Is64Hex(digest) && r.sha256 == Lower(digest)
                                && IsLineOf(line, index, offset, r.length, digest)
  {
    ParsedFields(line, lineNo, index, offset, r);
    hide ParseLine, Split, Value, Lower, Is64Hex, AllDigits, IsNumeral, IsLineOf;
    var f := Split(line, '\t');
    if |f| == 4 && IsNumeral(f[0], index) && IsNumeral(f[1], offset) && IsNumeral(f[2], r.length) {
      FieldsAreLine(line, index, offset, r.length);
    }
    if digest :| Is64Hex(digest) && r.sha256 == Lower(digest) && IsLineOf(line, index, offset, r.length, digest) {
      LineHasFields(line, index, offset, r.length, digest);
    }
  }

  lemma FieldsAreLine(line: string, index: nat, offset: nat, length: nat)
    requires var f := Split(line, '\t');
             |f| == 4 && IsNumeral(f[0], index) && IsNumeral(f[1], offset) && IsNumeral(f[2], length)
    ensures IsLineOf(line, index, offset, length, Split(line, '\t')[3])
  {
    hide Split, IsNumeral;
    FieldsJoin(line);
  }

  lemma LineHasFields(line: string, index: nat, offset: nat, length: nat, digest: string)
    requires Is64Hex(digest) && IsLineOf(line, index, offset, length, digest)
    ensures var f := Split(line, '\t');
            |f| == 4 && IsNumeral(f[0], index) && IsNumeral(f[1], offset) && IsNumeral(f[2], length) && f[3] == digest
  {
    hide Split, Value, Is64Hex, AllDigits;
    var a, b, c :| IsNumeral(a, index) && IsNumeral(b, offset) && IsNumeral(c, length)
                   && line == a + "\t" + (b + "\t" + (c + "\t" + digest));
    NumeralFields(line, a, b, c, digest);
  }

  lemma JoinFour(f: seq<string>)
    requires |f| == 4
    ensures Join(f, '\t') == f[0] + "\t" + (f[1] + "\t" + (f[2] + "\t" + f[3]))
  {
    var g := f[1..];
    var h := g[1..];
    assert g == [f[1], f[2], f[3]] && h == [f[2], f[3]] && h[1..] == [f[3]];
    assert Join(h, '\t') == f[2] + "\t" + f[3];
    assert Join(g, '\t') == f[1] + "\t" + Join(h, '\t');
  }

  /** The line the error is about, if it is about one. */
  function LineOfError(e: LineError): Option<nat> {
    if e.NoHeader? || e.EmptyFile? then None else Some(e.line)
  }

  lemma FailureHasLine(line: string, lineNo: nat, index: nat, offset: nat)
    ensures var r := ParseLine(line, lineNo, index, offset); r.Err? ==> LineOfError(r.error) == Some(lineNo)
  {
    hide Split, ParseU64, Is64Hex;
  }

  lemma {:induction false} FailureFollows(text: string, lineNo: nat, index: nat, offset: nat)
    ensures var reading := ReadAll(text, lineNo, index, offset);
            reading.failure.Some? ==> LineOfError(reading.failure.value) == Some(lineNo + 1 + |reading.pieces|)
    decreases |text|
  {
    hide ParseLine, StripEol, LineLength, LineOfError, IsDigest;
    if text != "" {
      var n := LineLength(text);
      var parsed := ParseLine(StripEol(text[..n]), lineNo + 1, index, offset);
      FailureHasLine(StripEol(text[..n]), lineNo + 1, index, offset);
      match parsed {
        case Err(e) =>
          assert ReadAll(text, lineNo, index, offset) == Reading([], Some(e));
        case Ok(p) =>
          var rest := ReadAll(text[n..], lineNo + 1, index + 1, p.End());
          assert ReadAll(text, lineNo, index, offset) == Reading([p] + rest.pieces, rest.failure);
          hide ReadAll, PieceRecord.End;
          FailureFollows(text[n..], lineNo + 1, index + 1, p.End());
      }
    }
  }

  /** A refusal names the first line that is not accepted: the one behind the header and the accepted pieces. */
  lemma RefusalNamesTheLine(text: string)
    requires AfterHeader(text).Ok? && ReadFile(text).Err?
    ensures LineOfError(ReadFile(text).error) == Some(2 + |ReadAll(AfterHeader(text).value, 1, 0, 0).pieces|)
  {
    FailureFollows(AfterHeader(text).value, 1, 0, 0);
  }

  lemma NoBreaks(s: string)
    requires AllDigits(s)
    ensures '\t' !in s && '\n' !in s
  {
  }

  lemma {:induction false} ReadCopyLines(rs: seq<PieceRecord>, vs: seq<Variant>, lineNo: nat, index: nat, offset: nat)
    requires Chained(rs, index, offset) && EndOf(rs, offset) <= U64_MAX && index <= offset
    requires |rs| == |vs| && forall i :: 0 <= i < |rs| ==> VariantOf(vs[i], rs[i])
    ensures ReadAll(CopyLines(rs, vs), lineNo, index, offset) == Reading(rs, None)
    decreases |rs|
  {
    hide ParseLine, ToLine, StripEol, LineLength;
    if rs != [] {
      EndGrows(rs[1..], offset + rs[0].length);
      var rest := CopyLines(rs[1..], vs[1..]);
      var line := ToLine(rs[0].(sha256 := vs[0].digest));
      ToLineParses(rs[0], vs[0].digest, lineNo + 1);
      LineOfCopy(line, vs[0].crlf, rest);
      ReadCopyLines(rs[1..], vs[1..], lineNo + 1, index + 1, rs[0].End());
      assert [rs[0]] + rs[1..] == rs;
    }
  }

  /** Reading what was written returns the same records, also from a copy with CRLF line ends or
      upper-case digests, line by line. */
  lemma ReadBack(rs: seq<PieceRecord>, vs: seq<Variant>, crlfHeader: bool)
    requires Writable(rs) && |rs| == |vs| && forall i :: 0 <= i < |rs| ==> VariantOf(vs[i], rs[i])
    ensures ReadFile(HEADER + Eol(crlfHeader) + CopyLines(rs, vs)) == Ok(rs)
  {
    LineOfCopy(HEADER, crlfHeader, CopyLines(rs, vs));
    ReadCopyLines(rs, vs, 1, 0, 0);
  }

  lemma {:induction false} PlainCopy(rs: seq<PieceRecord>, vs: seq<Variant>)
    requires |rs| == |vs| && forall i :: 0 <= i < |rs| ==> vs[i] == Variant(rs[i].sha256, false)
    ensures CopyLines(rs, vs) == Lines(rs)
    decreases |rs|
  {
    if rs != [] {
      PlainCopy(rs[1..], vs[1..]);
      assert rs[0].(sha256 := vs[0].digest) == rs[0];
    }
  }

  /** The file exactly as the writer left it. */
  lemma ReadBackWritten(rs: seq<PieceRecord>)
    requires Writable(rs)
    ensures ReadFile(HEADER + "\n" + Lines(rs)) == Ok(rs)
  {
    var vs := seq(|rs|, i requires 0 <= i < |rs| => Variant(rs[i].sha256, false));
    PlainCopy(rs, vs);
    forall i | 0 <= i < |rs|
      ensures VariantOf(vs[i], rs[i])
    {
      assert rs[i] in rs;
    }
    ReadBack(rs, vs, false);
  }
}
