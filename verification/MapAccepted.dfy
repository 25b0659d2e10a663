/** Which texts are mapfiles: said of the lines and fields themselves, not of the parser. */
module MapAccepted {
  import opened Wrappers
  import opened MachineInts
  import opened Text
  import opened DdrescueMap
  import opened MapParser

  // ---- Numbers ----

  /** A numeral with the base's digits only. */
  predicate IsNumeralIn(s: string, base: nat, n: nat) {
    s != [] && DigitsIn(s, base) && ValueIn(s, base) == n
  }

  /** A prefix and a numeral in a base. */
  predicate HasForm(t: string, prefix: string, base: nat, n: nat) {
    |prefix| <= |t| && t[..|prefix|] == prefix && IsNumeralIn(t[|prefix|..], base, n)
  }

  /** A number is `0x` or `0X` and hexadecimal digits, `0` and octal digits, or decimal digits that do not begin
      with 0 unless it is 0 itself; and within u64. */
  lemma NumberIff(token: string, n: nat)
    ensures ParseNumber(token) == Some(n) <==>
            var t := Trim(token);
            n <= U64_MAX
            && (|| HasForm(t, "0x", 16, n) || HasForm(t, "0X", 16, n) || HasForm(t, "0", 8, n)
                || (IsNumeralIn(t, 10, n) && (t[0] != '0' || |t| == 1)))
  {
    hide ValueIn;
    var t := Trim(token);
    if |t| >= 1 {
      assert t[..1] == [t[0]];
      assert t == [t[0]] + t[1..];
    }
    if |t| >= 2 {
      assert t[..2] == [t[0], t[1]];
      assert t[1] in t[1..] && t[1] in t;
    }
    if HasForm(t, "0", 8, n) {
      assert DigitsIn(t, 10);
    }
  }

  // ---- White space and fields ----

  lemma {:induction false} TrimStartIs(s: string) returns (gap: string)
    ensures s == gap + TrimStart(s) && Blank(gap) && (TrimStart(s) != [] ==> !IsSpace(TrimStart(s)[0]))
  {
    hide IsSpace;
    if s != [] && IsSpace(s[0]) {
      var rest := TrimStartIs(s[1..]);
      gap := [s[0]] + rest;
      assert s == [s[0]] + s[1..];
    } else {
      gap := [];
    }
  }

  lemma {:induction false} TrimEndIs(s: string) returns (gap: string)
    ensures s == TrimEnd(s) + gap && Blank(gap)
    ensures TrimEnd(s) != [] ==> !IsSpace(TrimEnd(s)[|TrimEnd(s)| - 1]) && TrimEnd(s)[0] == s[0]
  {
    hide IsSpace;
    if s != [] && IsSpace(s[|s| - 1]) {
      var n := |s| - 1;
      var rest := TrimEndIs(s[..n]);
      gap := rest + [s[n]];
      assert s == s[..n] + [s[n]];
    } else {
      gap := [];
    }
  }

  /** Trimming takes white space off both ends and nothing else. */
  lemma TrimIs(s: string) returns (before: string, after: string)
    ensures s == before + Trim(s) + after && Blank(before) && Blank(after)
    ensures Trim(s) != [] ==> !IsSpace(Trim(s)[0]) && !IsSpace(Trim(s)[|Trim(s)| - 1])
  {
    before := TrimStartIs(s);
    after := TrimEndIs(TrimStart(s));
  }

  function NonSpace(s: string): string {
    if s == [] then [] else (if IsSpace(s[0]) then [] else [s[0]]) + NonSpace(s[1..])
  }

  function Concat(fields: seq<string>): string {
    if fields == [] then [] else fields[0] + Concat(fields[1..])
  }

  lemma {:induction false} NonSpaceOfField(s: string)
    ensures var n := FieldLength(s);
            && NonSpace(s) == s[..n] + NonSpace(s[n..]) && (forall c :: c in s[..n] ==> !IsSpace(c))
            && (n < |s| ==> IsSpace(s[n]))
  {
    if s == [] || IsSpace(s[0]) {
      assert s[0..] == s && s[..0] == [];
    } else {
      var c, rest, m := s[0], s[1..], FieldLength(s[1..]);
      NonSpaceOfField(rest);
      assert NonSpace(s) == [c] + NonSpace(rest);
      hide IsSpace, FieldLength, NonSpace;
      assert s[..1 + m] == [c] + rest[..m] && s[1 + m..] == rest[m..];
      assert [c] + (rest[..m] + NonSpace(rest[m..])) == ([c] + rest[..m]) + NonSpace(rest[m..]);
    }
  }

  /** The fields hold all of a line but its white space, and each ends where white space, or the line's end, is. */
  lemma {:induction false} FieldsAre(s: string)
    ensures Concat(Fields(s)) == NonSpace(s)
    ensures forall f :: f in Fields(s) ==> NoSpace(f)
    decreases |s|
  {
    hide IsSpace;
    if s == [] {
    } else if IsSpace(s[0]) {
      FieldsAre(s[1..]);
    } else {
      var n := FieldLength(s);
      NonSpaceOfField(s);
      FieldsAre(s[n..]);
      assert ([s[..n]] + Fields(s[n..]))[1..] == Fields(s[n..]);
    }
  }

  // ---- Lines ----

  lemma CharIff(c: char, s: BlockStatus)
    ensures StatusFromChar(c) == Some(s) <==> c == CharOf(s)
  {
  }

  predicate IsPosition(fields: seq<string>, p: Position) {
    && 2 <= |fields| <= 3 && ParseNumber(fields[0]) == Some(p.pos)
    && fields[1] == [p.status] && p.status in "?*/-FG+"
    && (if |fields| == 2 then p.pass == None else p.pass.Some? && ParseU32(fields[2]) == p.pass)
  }

  predicate IsBlock(fields: seq<string>, b: MapBlock) {
    && |fields| == 3 && ParseNumber(fields[0]) == Some(b.pos) && ParseNumber(fields[1]) == Some(b.size)
    && fields[2] == [CharOf(b.status)]
  }

  lemma PositionIff(fields: seq<string>, p: Position)
    ensures ParsePosition(fields) == Ok(p) <==> IsPosition(fields, p)
  {
    hide ParseNumber, ParseU32;
  }

  lemma BlockIff(fields: seq<string>, blocks: seq<MapBlock>, b: MapBlock)
    requires WellFormed(blocks)
    ensures ParseBlock(fields, blocks) == Ok(b) <==> IsBlock(fields, b) && WellFormed(blocks + [b])
  {
    hide ParseNumber, StatusFromChar, CharOf, WellFormed;
    WellFormedSnoc(blocks, b);
    if |fields| == 3 && |fields[2]| == 1 {
      assert fields[2] == [fields[2][0]];
      CharIff(fields[2][0], b.status);
    }
  }

  lemma WellFormedSnoc(blocks: seq<MapBlock>, b: MapBlock)
    ensures WellFormed(blocks + [b]) <==>
            && WellFormed(blocks) && b.size > 0 && b.End() <= U64_MAX
            && (blocks != [] ==> blocks[|blocks| - 1].End() <= b.pos)
  {
    var all := blocks + [b];
    if WellFormed(all) {
      assert forall i :: 0 <= i < |blocks| ==> all[i] == blocks[i];
      assert all[|blocks|] == b;
    }
  }

  /** The fields of the lines that are neither blank nor comments. */
  function DataLines(lines: seq<string>): seq<seq<string>> {
    if lines == [] then []
    else
      var line := Trim(lines[|lines| - 1]);
      DataLines(lines[..|lines| - 1]) + if line != [] && line[0] != '#' then [Fields(line)] else []
  }

  /** The comments, without the mark and trimmed. */
  function CommentsOf(lines: seq<string>): seq<string> {
    if lines == [] then []
    else
      var line := Trim(lines[|lines| - 1]);
      CommentsOf(lines[..|lines| - 1]) + if line != [] && line[0] == '#' then [Trim(line[1..])] else []
  }

  /** The lines hold a map: first its position, then its blocks, ascending, disjoint, not empty and within u64;
      blank lines and comments anywhere. */
  ghost predicate Hold(lines: seq<string>, m: Mapfile) {
    var data := DataLines(lines);
    && |data| == |m.blocks| + 1 && IsPosition(data[0], m.position)
    && (forall i :: 0 <= i < |m.blocks| ==> IsBlock(data[i + 1], m.blocks[i]))
    && WellFormed(m.blocks) && m.comments == CommentsOf(lines)
  }

  /** The same of the lines so far, which may not have reached the position yet. */
  ghost predicate HoldSoFar(lines: seq<string>, p: Progress) {
    if p.position.None? then DataLines(lines) == [] && p.blocks == [] && p.comments == CommentsOf(lines)
    else Hold(lines, Mapfile(p.position.value, p.blocks, p.comments))
  }

  lemma HoldNext(lines: seq<string>, p: Progress, raw: string, q: Progress)
    requires HoldSoFar(lines, p) && ParseLine(raw, p) == Ok(q)
    ensures HoldSoFar(lines + [raw], q)
  {
    hide Trim, Fields, IsPosition, IsBlock, WellFormed, ParsePosition, ParseBlock;
    NextLine(lines, raw);
    var line, data := Trim(raw), DataLines(lines);
    if line != [] && line[0] != '#' {
      if p.position.None? {
        PositionIff(Fields(line), q.position.value);
        NoBlocks();
        assert DataLines(lines + [raw]) == [Fields(line)];
      } else {
        var b := q.blocks[|p.blocks|];
        BlockIff(Fields(line), p.blocks, b);
        var now := DataLines(lines + [raw]);
        assert now == data + [Fields(line)];
        forall i | 0 <= i < |q.blocks|
          ensures IsBlock(now[i + 1], q.blocks[i])
        {
          if i < |p.blocks| {
            assert now[i + 1] == data[i + 1] && q.blocks[i] == p.blocks[i];
          }
        }
      }
    }
  }

  lemma NoBlocks()
    ensures WellFormed([])
  {
  }

  lemma NextLine(lines: seq<string>, raw: string)
    ensures var line := Trim(raw);
            && DataLines(lines + [raw])
               == (if line != [] && line[0] != '#' then DataLines(lines) + [Fields(line)] else DataLines(lines))
            && CommentsOf(lines + [raw])
               == (if line != [] && line[0] == '#' then CommentsOf(lines) + [Trim(line[1..])] else CommentsOf(lines))
  {
    hide Trim, Fields;
    assert (lines + [raw])[..|lines|] == lines;
  }

  predicate IsData(raw: string) {
    Trim(raw) != [] && Trim(raw)[0] != '#'
  }

  lemma BeforePosition(lines: seq<string>, raw: string, q: Progress)
    requires HoldSoFar(lines + [raw], q) && IsData(raw) && q.blocks == []
    ensures var p := Progress(None, [], q.comments); HoldSoFar(lines, p) && ParseLine(raw, p) == Ok(q)
  {
    NextLine(lines, raw);
    hide Trim, Fields, IsPosition, ParsePosition, DataLines, CommentsOf;
    assert |DataLines(lines + [raw])| == 1;
    assert DataLines(lines) == [];
    PositionIff(Fields(Trim(raw)), q.position.value);
  }

  lemma BeforeBlock(lines: seq<string>, raw: string, q: Progress)
    requires HoldSoFar(lines + [raw], q) && IsData(raw) && q.blocks != []
    ensures var p := q.(blocks := q.blocks[..|q.blocks| - 1]); HoldSoFar(lines, p) && ParseLine(raw, p) == Ok(q)
  {
    NextLine(lines, raw);
    hide Trim, Fields, IsPosition, IsBlock, WellFormed, ParsePosition, ParseBlock, DataLines, CommentsOf;
    var data, now, n := DataLines(lines), DataLines(lines + [raw]), |q.blocks| - 1;
    var p := q.(blocks := q.blocks[..n]);
    assert q.blocks == p.blocks + [q.blocks[n]];
    WellFormedSnoc(p.blocks, q.blocks[n]);
    assert now[n + 1] == Fields(Trim(raw)) && now[0] == data[0];
    BlockIff(Fields(Trim(raw)), p.blocks, q.blocks[n]);
    forall i | 0 <= i < n
      ensures IsBlock(data[i + 1], p.blocks[i])
    {
      assert now[i + 1] == data[i + 1] && q.blocks[i] == p.blocks[i];
    }
  }

  /** What holds of the lines and one more held of the lines. */
  lemma HoldBefore(lines: seq<string>, raw: string, q: Progress) returns (p: Progress)
    requires HoldSoFar(lines + [raw], q)
    ensures HoldSoFar(lines, p) && ParseLine(raw, p) == Ok(q)
  {
    NextLine(lines, raw);
    if !IsData(raw) {
      hide Trim, Fields, IsPosition, IsBlock, WellFormed, DataLines, CommentsOf;
      p := q.(comments := CommentsOf(lines));
    } else if q.blocks == [] {
      BeforePosition(lines, raw, q);
      hide *;
      p := Progress(None, [], q.comments);
    } else {
      BeforeBlock(lines, raw, q);
      hide *;
      p := q.(blocks := q.blocks[..|q.blocks| - 1]);
    }
  }

  lemma {:induction false} LinesIff(lines: seq<string>, p: Progress)
    ensures ParseLines(lines) == Ok(p) <==> HoldSoFar(lines, p)
  {
    hide ParseLine, HoldSoFar;
    if lines == [] {
      NothingHeld(p);
    } else {
      var front, raw := lines[..|lines| - 1], lines[|lines| - 1];
      assert lines == front + [raw];
      if ParseLines(lines) == Ok(p) {
        var before := ParseLines(front).value;
        LinesIff(front, before);
        HoldNext(front, before, raw, p);
      }
      if HoldSoFar(lines, p) {
        var before := HoldBefore(front, raw, p);
        LinesIff(front, before);
      }
    }
  }

  lemma NothingHeld(p: Progress)
    ensures HoldSoFar([], p) <==> p == Progress(None, [], [])
  {
  }

  /** A text is accepted as a map exactly when its lines hold that map. */
  lemma AcceptedIff(text: string, m: Mapfile)
    ensures ParseText(text) == Ok(m) <==> Hold(Split(text, '\n'), m)
  {
    var lines := Split(text, '\n');
    LinesIff(lines, Progress(Some(m.position), m.blocks, m.comments));
    hide Split, ParseLines, Hold;
  }

  lemma {:induction false} RefusalNamesLine(lines: seq<string>)
    requires ParseLines(lines).Err?
    ensures var n := ParseLines(lines).error.line;
            1 <= n <= |lines| && ParseLines(lines[..n - 1]).Ok? && ParseLines(lines[..n]).Err?
  {
    hide ParseLine;
    var last := |lines| - 1;
    assert lines[..|lines|] == lines;
    if ParseLines(lines[..last]).Err? {
      RefusalNamesLine(lines[..last]);
      var n := ParseLines(lines).error.line;
      assert lines[..last][..n] == lines[..n] && lines[..last][..n - 1] == lines[..n - 1];
    }
  }

  /** The lines can be the beginning of a map. */
  ghost predicate BeginsMap(lines: seq<string>) {
    exists p :: HoldSoFar(lines, p)
  }

  lemma BeginsIff(lines: seq<string>)
    ensures ParseLines(lines).Ok? <==> BeginsMap(lines)
  {
    hide ParseLines, HoldSoFar;
    if ParseLines(lines).Ok? {
      LinesIff(lines, ParseLines(lines).value);
    }
    if p :| HoldSoFar(lines, p) {
      LinesIff(lines, p);
    }
  }

  /** A refusal names the first line with which the lines are no longer the beginning of a map, or, as line 0, that
      there is no position in them. */
  lemma RefusalIs(text: string)
    requires ParseText(text).Err?
    ensures var n, lines := ParseText(text).error.line, Split(text, '\n');
            if n == 0 then ParseLines(lines).Ok? && DataLines(lines) == []
            else n <= |lines| && BeginsMap(lines[..n - 1]) && !BeginsMap(lines[..n])
  {
    var lines := Split(text, '\n');
    hide Split;
    match ParseLines(lines) {
      case Ok(p) =>
        LinesIff(lines, p);
      case Err(e) =>
        RefusalNamesLine(lines);
        BeginsIff(lines[..e.line - 1]);
        BeginsIff(lines[..e.line]);
    }
  }
}
