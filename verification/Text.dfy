/** Lines, fields and decimal numbers as the text formats use them. */
module Text {
  import opened Wrappers
  import opened MachineInts

  predicate IsDigit(c: char) {
    '0' <= c <= '9'
  }

  predicate AllDigits(s: string) {
    forall c :: c in s ==> IsDigit(c)
  }

  function DigitValue(c: char): nat
    requires IsDigit(c)
  {
    c as int - '0' as int
  }

  function Digit(d: nat): (c: char)
    requires d < 10
    ensures IsDigit(c) && DigitValue(c) == d
  {
    (d + '0' as int) as char
  }

  function Value(s: string): nat
    requires AllDigits(s)
  {
    if s == [] then 0 else Value(s[..|s| - 1]) * 10 + DigitValue(s[|s| - 1])
  }

  /** The value of a digit in bases up to 16; 16 and more for other characters. */
  function DigitIn(c: char): nat {
    if '0' <= c <= '9' then c as int - '0' as int
    else if 'a' <= c <= 'f' then c as int - 'a' as int + 10
    else if 'A' <= c <= 'F' then c as int - 'A' as int + 10
    else 16
  }

  predicate DigitsIn(s: string, base: nat) {
    forall c :: c in s ==> DigitIn(c) < base
  }

  /** The value of a numeral in a base up to 16. */
  function ValueIn(s: string, base: nat): nat {
    if s == [] then 0 else ValueIn(s[..|s| - 1], base) * base + DigitIn(s[|s| - 1])
  }

  lemma ValueSnoc(s: string, c: char, base: nat)
    ensures ValueIn(s + [c], base) == ValueIn(s, base) * base + DigitIn(c)
  {
  }

  lemma {:induction false} DecimalValue(s: string)
    requires AllDigits(s)
    ensures Value(s) == ValueIn(s, 10)
  {
    if s != [] {
      assert s[|s| - 1] in s;
      DecimalValue(s[..|s| - 1]);
    }
  }

  function Zeros(n: nat): (z: string)
    ensures |z| == n && forall c :: c in z ==> c == '0'
  {
    seq(n, i => '0')
  }

  /** Zeros in front of a numeral do not change its value. */
  lemma {:induction false} LeadingZeros(k: nat, s: string, base: nat)
    ensures ValueIn(Zeros(k) + s, base) == ValueIn(s, base)
    decreases |s|, k
  {
    if s != [] {
      var front, last := s[..|s| - 1], s[|s| - 1];
      LeadingZeros(k, front, base);
      ValueSnoc(Zeros(k) + front, last, base);
      assert Zeros(k) + s == (Zeros(k) + front) + [last];
    } else if k > 0 {
      LeadingZeros(k - 1, [], base);
      ValueSnoc(Zeros(k - 1), '0', base);
      assert Zeros(k - 1) + [] == Zeros(k - 1) && Zeros(k) + [] == Zeros(k - 1) + ['0'];
      assert 0 * base == 0;
    } else {
      assert Zeros(0) + s == s;
    }
  }

  /** A number in decimal, without leading zeros. */
  function Show(n: nat): (s: string)
    ensures s != [] && AllDigits(s)
  {
    if n < 10 then [Digit(n)] else Show(n / 10) + [Digit(n % 10)]
  }

  lemma {:induction false} ValueOfShow(n: nat)
    ensures Value(Show(n)) == n
  {
    if n < 10 {
      assert Show(n)[..0] == [];
    } else {
      ValueOfShow(n / 10);
      assert Show(n)[..|Show(n)| - 1] == Show(n / 10);
    }
  }

  /** Digits only, and within the range. */
  function ParseU64(s: string): Option<u64> {
    if s == [] || !AllDigits(s) || Value(s) > U64_MAX then None else Some(Value(s))
  }

  lemma ParseOfShow(n: u64)
    ensures ParseU64(Show(n)) == Some(n)
  {
    ValueOfShow(n);
  }

  function LowerChar(c: char): char {
    if 'A' <= c <= 'Z' then (c as int + 32) as char else c
  }

  /** In ASCII lower case. */
  function Lower(s: string): (r: string)
    ensures |r| == |s|
  {
    seq(|s|, i requires 0 <= i < |s| => LowerChar(s[i]))
  }

  /** The fields between separators; one field more than separators. */
  function Split(s: string, sep: char): (r: seq<string>)
    ensures |r| >= 1
  {
    if s == [] then [[]]
    else
      var rest := Split(s[1..], sep);
      if s[0] == sep then [[]] + rest else [[s[0]] + rest[0]] + rest[1..]
  }

  lemma {:induction false} SplitOne(a: string, sep: char)
    requires sep !in a
    ensures Split(a, sep) == [a]
  {
    if a != [] {
      SplitOne(a[1..], sep);
      assert [a[0]] + a[1..] == a;
    }
  }

  lemma {:induction false} SplitFirst(a: string, sep: char, b: string)
    requires sep !in a
    ensures Split(a + [sep] + b, sep) == [a] + Split(b, sep)
  {
    var s := a + [sep] + b;
    if a == [] {
      assert s[1..] == b;
    } else {
      SplitFirst(a[1..], sep, b);
      assert s[1..] == a[1..] + [sep] + b;
      assert [a[0]] + a[1..] == a;
    }
  }

  /** Fields with a separator between them. */
  function Join(fields: seq<string>, sep: char): string {
    if fields == [] then [] else if |fields| == 1 then fields[0] else fields[0] + [sep] + Join(fields[1..], sep)
  }

  /** Splitting takes a text apart at every separator and loses nothing. */
  lemma {:induction false} SplitJoins(s: string, sep: char)
    ensures Join(Split(s, sep), sep) == s
    ensures forall f :: f in Split(s, sep) ==> sep !in f
  {
    if s != [] {
      var rest := Split(s[1..], sep);
      SplitJoins(s[1..], sep);
      assert s == [s[0]] + s[1..];
      assert rest == [rest[0]] + rest[1..];
      if s[0] == sep {
        assert Split(s, sep)[1..] == rest;
      } else {
        assert Split(s, sep)[1..] == rest[1..];
      }
    }
  }

  /** Length of the first line with its line end (or of the text without one). */
  function LineLength(text: string): (n: nat)
    ensures n <= |text| && (text != [] ==> n > 0)
  {
    if text == [] then 0 else if text[0] == '\n' then 1 else 1 + LineLength(text[1..])
  }

  lemma {:induction false} LineLengthOf(line: string, rest: string)
    requires '\n' !in line
    ensures LineLength(line + "\n" + rest) == |line| + 1
  {
    var text := line + "\n" + rest;
    if line != [] {
      LineLengthOf(line[1..], rest);
      assert text[1..] == line[1..] + "\n" + rest;
    }
  }

  /** A line ends with the first line feed, or with the text. */
  lemma {:induction false} LineEnds(text: string)
    ensures var n := LineLength(text);
            && (n < |text| ==> n > 0 && text[n - 1] == '\n')
            && forall i :: 0 <= i < n - 1 ==> text[i] != '\n'
  {
    if text != [] && text[0] != '\n' {
      LineEnds(text[1..]);
    }
  }

  /** A line without its line end: one `\n`, and one `\r` before it. */
  function StripEol(raw: string): string {
    var l := if raw != [] && raw[|raw| - 1] == '\n' then raw[..|raw| - 1] else raw;
    if l != [] && l[|l| - 1] == '\r' then l[..|l| - 1] else l
  }

  predicate IsEol(s: string) {
    s == "" || s == "\n" || s == "\r\n" || s == "\r"
  }

  /** Nothing but a line end is taken off, and no `\r` and `\n` are left where they would be one. */
  lemma StripEolIs(raw: string) returns (eol: string)
    ensures raw == StripEol(raw) + eol && IsEol(eol)
    ensures eol == "" ==> raw == "" || (raw[|raw| - 1] != '\n' && raw[|raw| - 1] != '\r')
  {
    var n := |StripEol(raw)|;
    assert StripEol(raw) == raw[..n];
    eol := raw[n..];
    if |eol| == 1 {
      assert eol == [raw[n]];
    } else if |eol| == 2 {
      assert eol == [raw[n], raw[n + 1]];
    }
  }
}
