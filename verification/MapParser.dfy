/** The text of a ddrescue mapfile. */
module MapParser {
  import opened Wrappers
  import opened MachineInts
  import opened Text
  import opened DdrescueMap

  // ---- Characters, fields and numbers ----

  /** White space as Unicode defines it. */
  predicate IsSpace(c: char) {
    var n := c as int;
    || 9 <= n <= 13 || n == 32 || n == 0x85 || n == 0xA0 || n == 0x1680
    || 0x2000 <= n <= 0x200A || n == 0x2028 || n == 0x2029 || n == 0x202F || n == 0x205F || n == 0x3000
  }

  function TrimStart(s: string): string {
    if s != [] && IsSpace(s[0]) then TrimStart(s[1..]) else s
  }

  function TrimEnd(s: string): string {
    if s != [] && IsSpace(s[|s| - 1]) then TrimEnd(s[..|s| - 1]) else s
  }

  function Trim(s: string): string {
    TrimEnd(TrimStart(s))
  }

  /** Length of the field at the start of the text. */
  function FieldLength(s: string): (n: nat)
    ensures n <= |s| && (s != [] && !IsSpace(s[0]) ==> n > 0)
  {
    if s == [] || IsSpace(s[0]) then 0 else 1 + FieldLength(s[1..])
  }

  function Fields(s: string): seq<string>
    decreases |s|
  {
    if s == [] then []
    else if IsSpace(s[0]) then Fields(s[1..])
    else [s[..FieldLength(s)]] + Fields(s[FieldLength(s)..])
  }

  function Checked(s: string, base: nat): Option<u64> {
    if s == [] || !DigitsIn(s, base) || ValueIn(s, base) > U64_MAX then None else Some(ValueIn(s, base))
  }

  /** A number of the map: the prefix `0x` or `0` chooses the base, and only digits may follow. */
  function ParseNumber(token: string): Option<u64> {
    var t := Trim(token);
    if |t| >= 2 && t[0] == '0' && (t[1] == 'x' || t[1] == 'X') then Checked(t[2..], 16)
    else if !DigitsIn(t, 10) then None
    else if |t| > 1 && t[0] == '0' then Checked(t[1..], 8)
    else Checked(t, 10)
  }

  const U32_MAX: nat := 0xFFFF_FFFF

  /** A decimal number of 32 bits, with or without a plus sign. */
  function ParseU32(s: string): Option<nat> {
    var digits := if s != [] && s[0] == '+' then s[1..] else s;
    if digits == [] || !DigitsIn(digits, 10) || ValueIn(digits, 10) > U32_MAX then None else Some(ValueIn(digits, 10))
  }

  function StatusFromChar(c: char): Option<BlockStatus> {
    match c
    case '?' => Some(NonTried)
    case '*' => Some(NonTrimmed)
    case '/' => Some(NonScraped)
    case '-' => Some(BadSector)
    case '+' => Some(Finished)
    case _ => None
  }

  function CharOf(s: BlockStatus): char {
    match s
    case NonTried => '?'
    case NonTrimmed => '*'
    case NonScraped => '/'
    case BadSector => '-'
    case Finished => '+'
  }

  // ---- Lines ----

  datatype Position = Position(pos: u64, status: char, pass: Option<nat>)

  datatype Mapfile = Mapfile(position: Position, blocks: seq<MapBlock>, comments: seq<string>)

  datatype Problem =
    | BadPositionLine
    | BadPosition
    | BadStatus
    | BadPass
    | BadBlockLine
    | BadBlockPosition
    | BadBlockSize
    | BadBlockStatus
    | EmptyBlock
    | BeyondU64
    | Overlapping
    | NoPositionLine

  datatype MapError = MapError(line: nat, problem: Problem)

  /** What the lines so far hold. */
  datatype Progress = Progress(position: Option<Position>, blocks: seq<MapBlock>, comments: seq<string>)

  function ParsePosition(fields: seq<string>): Result<Position, Problem> {
    if !(2 <= |fields| <= 3) then Err(BadPositionLine)
    else if ParseNumber(fields[0]).None? then Err(BadPosition)
    else if !(|fields[1]| == 1 && fields[1][0] in "?*/-FG+") then Err(BadStatus)
    else if |fields| == 2 then Ok(Position(ParseNumber(fields[0]).value, fields[1][0], None))
    else if ParseU32(fields[2]).None? then Err(BadPass)
    else Ok(Position(ParseNumber(fields[0]).value, fields[1][0], Some(ParseU32(fields[2]).value)))
  }

  /** A block that can follow the blocks ending at `end`. */
  function ParseBlock(fields: seq<string>, blocks: seq<MapBlock>): Result<MapBlock, Problem> {
    if |fields| != 3 then Err(BadBlockLine)
    else if ParseNumber(fields[0]).None? then Err(BadBlockPosition)
    else if ParseNumber(fields[1]).None? then Err(BadBlockSize)
    else if |fields[2]| != 1 || StatusFromChar(fields[2][0]).None? then Err(BadBlockStatus)
    else
      var pos, size := ParseNumber(fields[0]).value, ParseNumber(fields[1]).value;
      if size == 0 then Err(EmptyBlock)
      else if pos + size > U64_MAX then Err(BeyondU64)
      else if blocks != [] && pos < blocks[|blocks| - 1].End() then Err(Overlapping)
      else Ok(MapBlock(pos, size, StatusFromChar(fields[2][0]).value))
  }

  function ParseLine(raw: string, p: Progress): Result<Progress, Problem> {
    var line := Trim(raw);
    if line == [] then Ok(p)
    else if line[0] == '#' then Ok(p.(comments := p.comments + [Trim(line[1..])]))
    else if p.position.None? then
      match ParsePosition(Fields(line))
      case Err(e) => Err(e)
      case Ok(position) => Ok(p.(position := Some(position)))
    else
      match ParseBlock(Fields(line), p.blocks)
      case Err(e) => Err(e)
      case Ok(b) => Ok(p.(blocks := p.blocks + [b]))
  }

  function ParseLines(lines: seq<string>): Result<Progress, MapError> {
    if lines == [] then Ok(Progress(None, [], []))
    else
      match ParseLines(lines[..|lines| - 1])
      case Err(e) => Err(e)
      case Ok(p) =>
        match ParseLine(lines[|lines| - 1], p)
        case Err(problem) => Err(MapError(|lines|, problem))
        case Ok(q) => Ok(q)
  }

  function ParseText(text: string): Result<Mapfile, MapError> {
    match ParseLines(Split(text, '\n'))
    case Err(e) => Err(e)
    case Ok(p) =>
      if p.position.None? then Err(MapError(0, NoPositionLine))
      else Ok(Mapfile(p.position.value, p.blocks, p.comments))
  }

  /** Parse a mapfile line by line; a mistake in any line refuses the whole map. */
  method Parse(text: string) returns (r: Result<Mapfile, MapError>)
    ensures r == ParseText(text)
    ensures r.Ok? ==> WellFormed(r.value.blocks)
  {
    assert WellFormed([]);
    hide Split, ParseLine, WellFormed;
    var lines := Split(text, '\n');
    var p := Progress(None, [], []);
    for i := 0 to |lines|
      invariant ParseLines(lines[..i]) == Ok(p) && WellFormed(p.blocks)
    {
      assert lines[..i + 1][..i] == lines[..i];
      match ParseLine(lines[i], p) {
        case Err(problem) =>
          ParseLinesStops(lines, i + 1);
          return Err(MapError(i + 1, problem));
        case Ok(q) =>
          LineKeepsWellFormed(lines[i], p);
          p := q;
      }
    }
    assert lines[..|lines|] == lines;
    match p.position {
      case None => r := Err(MapError(0, NoPositionLine));
      case Some(position) => r := Ok(Mapfile(position, p.blocks, p.comments));
    }
  }

  lemma {:induction false} ParseLinesStops(lines: seq<string>, n: nat)
    requires n <= |lines| && ParseLines(lines[..n]).Err?
    ensures ParseLines(lines) == ParseLines(lines[..n])
    decreases |lines|
  {
    if n == |lines| {
      assert lines[..n] == lines;
    } else {
      var front := lines[..|lines| - 1];
      assert front[..n] == lines[..n];
      ParseLinesStops(front, n);
    }
  }

  /** Blocks are only ever added behind the last one. */
  lemma LineKeepsWellFormed(raw: string, p: Progress)
    requires WellFormed(p.blocks)
    ensures ParseLine(raw, p).Ok? ==> WellFormed(ParseLine(raw, p).value.blocks)
  {
    var line := Trim(raw);
    if line != [] && line[0] != '#' && p.position.Some? {
      var parsed := ParseBlock(Fields(line), p.blocks);
      if parsed.Ok? {
        AddBehind(p.blocks, parsed.value);
      }
    }
  }

  lemma AddBehind(bs: seq<MapBlock>, b: MapBlock)
    requires WellFormed(bs) && b.size > 0 && b.End() <= U64_MAX && (bs != [] ==> bs[|bs| - 1].End() <= b.pos)
    ensures WellFormed(bs + [b])
  {
  }

  // ---- The text as ddrescue writes it ----

  function DigitChar(d: nat): (c: char)
    requires d < 16
    ensures DigitIn(c) == d && !IsSpace(c)
  {
    if d < 10 then (d + '0' as int) as char else (d - 10 + 'A' as int) as char
  }

  predicate IsBase(base: nat) {
    base == 8 || base == 10 || base == 16
  }

  lemma Division(n: nat, base: nat)
    requires IsBase(base)
    ensures n / base * base + n % base == n && 0 <= n % base < base
    ensures n >= base ==> 0 < n / base < n
  {
  }

  function ShowIn(n: nat, base: nat): (s: string)
    requires IsBase(base)
    ensures s != [] && DigitsIn(s, base) && forall c :: c in s ==> !IsSpace(c)
    ensures n > 0 ==> s[0] != '0'
    decreases n
  {
    Division(n, base);
    if n < base then [DigitChar(n)] else ShowIn(n / base, base) + [DigitChar(n % base)]
  }

  lemma {:induction false} ValueOfShowIn(n: nat, base: nat)
    requires IsBase(base)
    ensures ValueIn(ShowIn(n, base), base) == n
    decreases n
  {
    Division(n, base);
    if n < base {
      OneDigit(DigitChar(n), base);
    } else {
      ValueOfShowIn(n / base, base);
      ValueSnoc(ShowIn(n / base, base), DigitChar(n % base), base);
    }
  }

  lemma OneDigit(c: char, base: nat)
    ensures ValueIn([c], base) == DigitIn(c)
  {
  }

  lemma TrimNothing(s: string)
    requires s != [] && !IsSpace(s[0]) && !IsSpace(s[|s| - 1])
    ensures Trim(s) == s
  {
  }

  /** The three ways to write a number all read back as the number, zeros in front included. */
  lemma NumberForms(n: u64, k: nat)
    ensures ParseNumber("0x" + (Zeros(k) + ShowIn(n, 16))) == Some(n)
    ensures ParseNumber("0X" + (Zeros(k) + ShowIn(n, 16))) == Some(n)
    ensures ParseNumber("0" + (Zeros(k) + ShowIn(n, 8))) == Some(n)
    ensures ParseNumber(ShowIn(n, 10)) == Some(n)
  {
    hide ShowIn, ValueIn;
    ValueOfShowIn(n, 16);
    ValueOfShowIn(n, 8);
    ValueOfShowIn(n, 10);
    var zeros := Zeros(k);
    LeadingZeros(k, ShowIn(n, 16), 16);
    LeadingZeros(k, ShowIn(n, 8), 8);
    Hexadecimal("0x", zeros + ShowIn(n, 16));
    Hexadecimal("0X", zeros + ShowIn(n, 16));
    Octal(zeros + ShowIn(n, 8));
    Decimal(n);
  }

  lemma Hexadecimal(prefix: string, digits: string)
    requires prefix == "0x" || prefix == "0X"
    requires digits != [] && DigitsIn(digits, 16) && forall c :: c in digits ==> !IsSpace(c)
    ensures ParseNumber(prefix + digits) == Checked(digits, 16)
  {
  }

  lemma Octal(digits: string)
    requires digits != [] && DigitsIn(digits, 8) && forall c :: c in digits ==> !IsSpace(c)
    ensures ParseNumber("0" + digits) == Checked(digits, 8)
  {
    var t := "0" + digits;
    TrimNothing(t);
    assert t[1..] == digits && digits[0] in digits;
    assert t[1] != 'x' && t[1] != 'X';
    assert DigitsIn(t, 10);
  }

  lemma Decimal(n: u64)
    ensures ParseNumber(ShowIn(n, 10)) == Some(n)
  {
    ValueOfShowIn(n, 10);
    var t := ShowIn(n, 10);
    TrimNothing(t);
    assert t[0] in t && t[|t| - 1] in t;
    assert |ShowIn(0, 10)| == 1;
    if |t| >= 2 {
      assert t[1] in t;
    }
  }

  /** At least eight hexadecimal digits. */
  function Hex8(n: nat): string {
    var digits := ShowIn(n, 16);
    "0x" + (Zeros(if |digits| < 8 then 8 - |digits| else 0) + digits)
  }

  lemma Hex8Reads(n: u64)
    ensures ParseNumber(Hex8(n)) == Some(n)
    ensures NoSpace(Hex8(n))
  {
    hide ParseNumber, ShowIn;
    var digits := ShowIn(n, 16);
    NumberForms(n, if |digits| < 8 then 8 - |digits| else 0);
  }

  function BlockLine(b: MapBlock): string {
    Hex8(b.pos) + "  " + Hex8(b.size) + "  " + [CharOf(b.status)]
  }

  function PositionLine(p: Position): string {
    Hex8(p.pos) + "     " + [p.status] + if p.pass.None? then "" else "               " + ShowIn(p.pass.value, 10)
  }

  predicate NoSpace(s: string) {
    s != [] && forall c :: c in s ==> !IsSpace(c)
  }

  predicate Blank(s: string) {
    forall c :: c in s ==> IsSpace(c)
  }

  lemma {:induction false} FieldFirst(a: string, rest: string)
    requires NoSpace(a) && (rest == [] || IsSpace(rest[0]))
    ensures Fields(a + rest) == [a] + Fields(rest)
  {
    FieldLengthOf(a, rest);
    assert a[0] in a;
    assert (a + rest)[..|a|] == a && (a + rest)[|a|..] == rest;
  }

  lemma {:induction false} FieldLengthOf(a: string, rest: string)
    requires (forall c :: c in a ==> !IsSpace(c)) && (rest == [] || IsSpace(rest[0]))
    ensures FieldLength(a + rest) == |a|
    decreases |a|
  {
    if a != [] {
      assert a[0] in a;
      FieldLengthOf(a[1..], rest);
      assert (a + rest)[1..] == a[1..] + rest;
    } else {
      assert a + rest == rest;
    }
  }

  lemma {:induction false} BlankSkipped(gap: string, rest: string)
    requires Blank(gap)
    ensures Fields(gap + rest) == Fields(rest)
    decreases |gap|
  {
    if gap == [] {
      assert gap + rest == rest;
    } else {
      assert gap[0] in gap;
      BlankSkipped(gap[1..], rest);
      assert (gap + rest)[1..] == gap[1..] + rest;
    }
  }

  /** A field, a gap, and the fields after it. */
  lemma FieldThen(a: string, gap: string, rest: string)
    requires NoSpace(a) && Blank(gap) && gap != []
    ensures Fields(a + gap + rest) == [a] + Fields(rest)
  {
    assert gap[0] in gap;
    assert a + gap + rest == a + (gap + rest);
    FieldFirst(a, gap + rest);
    BlankSkipped(gap, rest);
  }

  lemma LastField(a: string)
    requires NoSpace(a)
    ensures Fields(a) == [a]
  {
    assert a + [] == a;
    FieldFirst(a, []);
  }

  lemma BlockLineParses(b: MapBlock, blocks: seq<MapBlock>, p: Progress)
    requires WellFormed(blocks + [b]) && p.blocks == blocks && p.position.Some?
    ensures ParseLine(BlockLine(b), p) == Ok(p.(blocks := blocks + [b]))
  {
    hide Hex8, ParseNumber, Fields;
    var pos, size, c := Hex8(b.pos), Hex8(b.size), [CharOf(b.status)];
    var line := BlockLine(b);
    Hex8Reads(b.pos);
    Hex8Reads(b.size);
    Hex8Starts(b.pos);
    assert line == pos + "  " + (size + "  " + c);
    FieldThen(size, "  ", c);
    FieldThen(pos, "  ", size + "  " + c);
    LastField(c);
    assert Fields(line) == [pos, size, c];
    assert line[0] == '0' && line[|line| - 1] == CharOf(b.status);
    TrimNothing(line);
    assert (blocks + [b])[|blocks|] == b;
    assert blocks != [] ==> (blocks + [b])[|blocks| - 1].End() <= (blocks + [b])[|blocks|].pos;
  }

  lemma Hex8Starts(n: u64)
    ensures Hex8(n)[0] == '0'
  {
  }

  predicate ValidPosition(p: Position) {
    p.pos <= U64_MAX && p.status in "?*/-FG+" && (p.pass.Some? ==> p.pass.value <= U32_MAX)
  }

  lemma PositionLineParses(position: Position, p: Progress)
    requires ValidPosition(position) && p.position.None?
    ensures ParseLine(PositionLine(position), p) == Ok(p.(position := Some(position)))
  {
    hide Hex8, ParseNumber, Fields, ParseU32, ShowIn;
    var pos, c, line := Hex8(position.pos), [position.status], PositionLine(position);
    Hex8Reads(position.pos);
    Hex8Starts(position.pos);
    if position.pass.None? {
      assert line == pos + "     " + c;
      FieldThen(pos, "     ", c);
      LastField(c);
      assert line[0] == '0' && line[|line| - 1] == position.status;
    } else {
      var pass, gap := ShowIn(position.pass.value, 10), "               ";
      assert line == pos + "     " + (c + gap + pass);
      FieldThen(c, gap, pass);
      FieldThen(pos, "     ", c + gap + pass);
      LastField(pass);
      PassReads(position.pass.value);
      assert pass[|pass| - 1] in pass;
      assert line[0] == '0' && line[|line| - 1] == pass[|pass| - 1];
    }
    TrimNothing(line);
  }

  lemma PassReads(n: nat)
    requires n <= U32_MAX
    ensures ParseU32(ShowIn(n, 10)) == Some(n)
  {
    ValueOfShowIn(n, 10);
    assert ShowIn(n, 10)[0] in ShowIn(n, 10);
  }

  lemma CommentLineParses(c: string, p: Progress)
    requires Trim(c) == c
    ensures ParseLine("# " + c, p) == Ok(p.(comments := p.comments + [c]))
  {
    var line := "# " + c;
    if c == "" {
      assert line == "# " && line[..1] == "#" && !IsSpace('#') && IsSpace(' ');
      assert TrimEnd(line) == TrimEnd("#") == "#" && TrimStart(line) == line;
      assert "#"[1..] == "";
    } else {
      TrimmedEnds(c);
      assert line[|line| - 1] == c[|c| - 1];
      TrimNothing(line);
      assert line[1..] == " " + c;
      assert (" " + c)[1..] == c;
    }
  }

  lemma TrimmedEnds(c: string)
    requires Trim(c) == c && c != ""
    ensures !IsSpace(c[0]) && !IsSpace(c[|c| - 1])
  {
    TrimStartShorter(c);
    TrimEndShorter(TrimStart(c));
  }

  lemma {:induction false} TrimStartShorter(c: string)
    ensures |TrimStart(c)| <= |c| && (|TrimStart(c)| == |c| ==> TrimStart(c) == c && (c != "" ==> !IsSpace(c[0])))
  {
    if c != "" && IsSpace(c[0]) {
      TrimStartShorter(c[1..]);
    }
  }

  lemma {:induction false} TrimEndShorter(c: string)
    ensures |TrimEnd(c)| <= |c| && (|TrimEnd(c)| == |c| ==> TrimEnd(c) == c && (c != "" ==> !IsSpace(c[|c| - 1])))
  {
    if c != "" && IsSpace(c[|c| - 1]) {
      TrimEndShorter(c[..|c| - 1]);
    }
  }

  // ---- The round trip ----

  function CommentLines(cs: seq<string>): seq<string> {
    if cs == [] then [] else CommentLines(cs[..|cs| - 1]) + ["# " + cs[|cs| - 1]]
  }

  function BlockLines(bs: seq<MapBlock>): seq<string> {
    if bs == [] then [] else BlockLines(bs[..|bs| - 1]) + [BlockLine(bs[|bs| - 1])]
  }

  function MapLines(m: Mapfile): seq<string> {
    CommentLines(m.comments) + [PositionLine(m.position)] + BlockLines(m.blocks)
  }

  function JoinLines(lines: seq<string>): string {
    if lines == [] then "" else lines[0] + "\n" + JoinLines(lines[1..])
  }

  lemma {:induction false} SplitJoined(lines: seq<string>)
    requires forall l :: l in lines ==> '\n' !in l
    ensures Split(JoinLines(lines), '\n') == lines + [""]
  {
    if lines != [] {
      SplitJoined(lines[1..]);
      SplitFirst(lines[0], '\n', JoinLines(lines[1..]));
      assert lines == [lines[0]] + lines[1..];
    }
  }

  lemma ParseLinesSnoc(lines: seq<string>, l: string, p: Progress)
    requires ParseLines(lines) == Ok(p) && ParseLine(l, p).Ok?
    ensures ParseLines(lines + [l]) == Ok(ParseLine(l, p).value)
  {
  }

  lemma {:induction false} CommentLinesParse(cs: seq<string>)
    requires forall c :: c in cs ==> Trim(c) == c
    ensures ParseLines(CommentLines(cs)) == Ok(Progress(None, [], cs))
  {
    if cs != [] {
      var front, c := cs[..|cs| - 1], cs[|cs| - 1];
      assert cs == front + [c];
      CommentLinesParse(front);
      CommentLineParses(c, Progress(None, [], front));
      ParseLinesSnoc(CommentLines(front), "# " + c, Progress(None, [], front));
    }
  }

  lemma {:induction false} BlockLinesParse(before: seq<string>, bs: seq<MapBlock>, position: Position, cs: seq<string>)
    requires WellFormed(bs) && ParseLines(before) == Ok(Progress(Some(position), [], cs))
    ensures ParseLines(before + BlockLines(bs)) == Ok(Progress(Some(position), bs, cs))
    decreases |bs|
  {
    hide ParseLine, BlockLine, WellFormed;
    if bs == [] {
      assert before + BlockLines(bs) == before;
    } else {
      var front, b := bs[..|bs| - 1], bs[|bs| - 1];
      var p := Progress(Some(position), front, cs);
      assert bs == front + [b];
      FrontWellFormed(bs);
      BlockLinesParse(before, front, position, cs);
      BlockLineParses(b, front, p);
      ParseLinesSnoc(before + BlockLines(front), BlockLine(b), p);
      assert before + BlockLines(bs) == before + BlockLines(front) + [BlockLine(b)];
    }
  }

  lemma FrontWellFormed(bs: seq<MapBlock>)
    requires WellFormed(bs) && bs != []
    ensures WellFormed(bs[..|bs| - 1])
  {
  }

  lemma {:induction false} OneLineEach(m: Mapfile)
    requires forall c :: c in m.comments ==> '\n' !in c
    requires ValidPosition(m.position)
    ensures forall l :: l in MapLines(m) ==> '\n' !in l
  {
    CommentsOneLine(m.comments);
    BlocksOneLine(m.blocks);
    HexOneLine(m.position.pos);
    if m.position.pass.Some? {
      var pass := ShowIn(m.position.pass.value, 10);
      assert IsSpace('\n') && '\n' !in pass;
    }
  }

  lemma {:induction false} CommentsOneLine(cs: seq<string>)
    requires forall c :: c in cs ==> '\n' !in c
    ensures forall l :: l in CommentLines(cs) ==> '\n' !in l
  {
    if cs != [] {
      CommentsOneLine(cs[..|cs| - 1]);
      assert cs[|cs| - 1] in cs;
    }
  }

  lemma {:induction false} BlocksOneLine(bs: seq<MapBlock>)
    ensures forall l :: l in BlockLines(bs) ==> '\n' !in l
  {
    if bs != [] {
      BlocksOneLine(bs[..|bs| - 1]);
      HexOneLine(bs[|bs| - 1].pos);
      HexOneLine(bs[|bs| - 1].size);
    }
  }

  lemma HexOneLine(n: u64)
    ensures '\n' !in Hex8(n)
  {
  }

  /** Every well-formed map, written as ddrescue writes it, reads back as itself. */
  lemma MapRoundTrip(m: Mapfile)
    requires WellFormed(m.blocks) && ValidPosition(m.position)
    requires forall c :: c in m.comments ==> Trim(c) == c && '\n' !in c
    ensures ParseText(JoinLines(MapLines(m))) == Ok(m)
  {
    hide ParseLine, BlockLine, PositionLine, WellFormed, Trim;
    OneLineEach(m);
    SplitJoined(MapLines(m));
    CommentLinesParse(m.comments);
    var p := Progress(None, [], m.comments);
    PositionLineParses(m.position, p);
    var head := CommentLines(m.comments);
    ParseLinesSnoc(head, PositionLine(m.position), p);
    BlockLinesParse(head + [PositionLine(m.position)], m.blocks, m.position, m.comments);
    var whole := Progress(Some(m.position), m.blocks, m.comments);
    EmptyLineSkipped(whole);
    ParseLinesSnoc(MapLines(m), "", whole);
  }

  lemma EmptyLineSkipped(p: Progress)
    ensures ParseLine("", p) == Ok(p)
  {
  }
}
