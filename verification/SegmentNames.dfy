/** Numbers and names of image segments: split RAW numbers and EWF extensions. */
module SegmentNames {
  import opened Wrappers
  import opened Text

  // ---- Split RAW numbers ----

  /** Three or more digits. */
  predicate IsSplitNumber(ext: string) {
    |ext| >= 3 && AllDigits(ext)
  }

  /** A number in decimal, filled up with zeros to at least `width` digits. */
  function Padded(n: nat, width: nat): string {
    var s := Show(n);
    if |s| < width then Zeros(width - |s|) + s else s
  }

  lemma PaddedValue(n: nat, width: nat)
    ensures AllDigits(Padded(n, width)) && Value(Padded(n, width)) == n && |Padded(n, width)| >= width
  {
    ValueOfShow(n);
    var s := Show(n);
    LeadingZeros(if |s| < width then width - |s| else 0, s, 10);
    DecimalValue(s);
    DecimalValue(Padded(n, width));
  }

  lemma LastDigit(p: nat, c: nat, q: nat, d: nat)
    requires c < 10 && d < 10 && p * 10 + c == q * 10 + d
    ensures p == q && c == d
  {
  }

  /** Digits of one length are told apart by their value. */
  lemma {:induction false} SameValueSameDigits(a: string, b: string)
    requires AllDigits(a) && AllDigits(b) && |a| == |b| && Value(a) == Value(b)
    ensures a == b
  {
    if a != [] {
      var n := |a| - 1;
      assert a[n] in a && b[n] in b;
      LastDigit(Value(a[..n]), DigitValue(a[n]), Value(b[..n]), DigitValue(b[n]));
      hide Value;
      SameValueSameDigits(a[..n], b[..n]);
      assert a == a[..n] + [a[n]] && b == b[..n] + [b[n]];
    }
  }

  function Pow10(k: nat): nat {
    if k == 0 then 1 else 10 * Pow10(k - 1)
  }

  lemma {:induction false} ValueBelow(s: string)
    requires AllDigits(s)
    ensures Value(s) < Pow10(|s|)
  {
    if s != [] {
      ValueBelow(s[..|s| - 1]);
      assert s[|s| - 1] in s;
    }
  }

  lemma {:induction false} ShowLength(n: nat, k: nat)
    requires n < Pow10(k) && k > 0
    ensures |Show(n)| <= k
    decreases k
  {
    if n >= 10 {
      assert k > 1 by {
        assert Pow10(1) == 10 * Pow10(0);
      }
      assert n / 10 < Pow10(k - 1);
      ShowLength(n / 10, k - 1);
    }
  }

  /** A number written with leading zeros is what its value shows in that width. */
  lemma PaddedOfValue(ext: string)
    requires AllDigits(ext) && ext != []
    ensures Padded(Value(ext), |ext|) == ext
  {
    ValueBelow(ext);
    ShowLength(Value(ext), |ext|);
    PaddedValue(Value(ext), |ext|);
    SameValueSameDigits(Padded(Value(ext), |ext|), ext);
  }

  // ---- EWF extensions ----

  predicate IsLetter(c: char) {
    'a' <= LowerChar(c) <= 'z'
  }

  /** The family (lower-case letters before the number) and the two characters of the number. */
  function Parts(ext: string): Option<(string, string)> {
    var b := Lower(ext);
    if |b| == 3 && b[0] in ['e', 's', 'l'] then Some((b[..1], b[1..]))
    else if |b| == 4 && b[0] in ['e', 'l'] && b[1] == 'x' then Some((b[..2], b[2..]))
    else None
  }

  /** Family and number of a segment extension: `E01` is 1, `E99` 99, `EAA` 100, `EZZ` 775. */
  function EwfNumber(ext: string): Option<(string, nat)> {
    match Parts(ext)
    case None => None
    case Some((family, rest)) =>
      var a, b := rest[0], rest[1];
      if IsDigit(a) && IsDigit(b) then
        var n := DigitValue(a) * 10 + DigitValue(b);
        if n > 0 then Some((family, n)) else None
      else if 'a' <= a <= 'z' && 'a' <= b <= 'z' then
        Some((family, 100 + (a as int - 'a' as int) * 26 + (b as int - 'a' as int)))
      else None
  }

  /** The families: EWF images, SMART images and logical evidence, and the second versions of the first and last. */
  const FAMILIES: seq<string> := ["e", "s", "l", "ex", "lx"]

  /** An extension has a number exactly when it is, in any case, a family and two digits other than 00, or two
      letters: 1 to 99, then 100 to 775. */
  lemma EwfNumberIff(ext: string, family: string, number: nat)
    ensures EwfNumber(ext) == Some((family, number)) <==>
            && family in FAMILIES && |ext| == |family| + 2 && Lower(ext)[..|family|] == family
            && var c, d := Lower(ext)[|family|], Lower(ext)[|family| + 1];
               IsTail(c, d) && TailValue(c, d) == number && number > 0
  {
    var b := Lower(ext);
    if |b| == 3 {
      assert b[..1] == [b[0]] && b[1..][0] == b[1] && b[1..][1] == b[2];
    } else if |b| == 4 {
      assert b[..2] == [b[0], b[1]] && b[2..][0] == b[2] && b[2..][1] == b[3];
    }
    assert forall f :: f in FAMILIES <==> f == "e" || f == "s" || f == "l" || f == "ex" || f == "lx";
  }

  /** What is before the number in the first segment's extension: a letter, then maybe an x. */
  predicate IsFirst(first: string) {
    || (|first| == 3 && IsLetter(first[0]) && first[1..] == "01")
    || (|first| == 4 && IsLetter(first[0]) && LowerChar(first[1]) == 'x' && first[2..] == "01")
  }

  function Letter(base: char, k: nat): char
    requires k < 26 && (base == 'A' || base == 'a')
  {
    (base as int + k) as char
  }

  /** libewf's name of a segment in the family of `first`. */
  function SegmentExtension(first: string, number: nat): Option<string> {
    if !IsFirst(first) || number == 0 then None
    else
      var lead, x := first[0], first[1..|first| - 2];
      if number <= 99 then Some([lead] + x + [Digit(number / 10), Digit(number % 10)])
      else
        var upper := 'A' <= lead <= 'Z';
        var base := if upper then 'A' else 'a';
        var n := number - 100;
        var up := lead as int + n / 26 / 26;
        if up > (if upper then 'Z' else 'z') as int then None
        else Some([up as char] + x + [Letter(base, n / 26 % 26), Letter(base, n % 26)])
  }

  lemma ExtensionShape(first: string, number: nat)
    requires SegmentExtension(first, number).Some?
    ensures var e := SegmentExtension(first, number).value;
            && |e| == |first| && (|e| == 3 || |e| == 4)
            && (|e| == 4 ==> LowerChar(e[1]) == 'x')
            && (number <= 99 ==>
                  e[0] == first[0] && e[|e| - 2] == Digit(number / 10) && e[|e| - 1] == Digit(number % 10))
            && (number > 99 ==> var n := number - 100;
                  && LowerChar(e[0]) as int == LowerChar(first[0]) as int + n / 26 / 26 <= 'z' as int
                  && LowerChar(e[|e| - 2]) as int == 'a' as int + n / 26 % 26
                  && LowerChar(e[|e| - 1]) as int == 'a' as int + n % 26)
  {
  }

  /** There are finitely many names in a family. */
  lemma ExtensionsEnd(first: string, number: nat)
    requires SegmentExtension(first, number).Some?
    ensures 0 < number < 17676
  {
  }

  lemma LowerAt(s: string, i: nat)
    requires i < |s|
    ensures Lower(s)[i] == LowerChar(s[i])
  {
  }

  /** The first 775 names of a family have its numbers 1 to 775. */
  lemma ExtensionIsNumbered(first: string, family: string, number: nat)
    requires EwfNumber(first) == Some((family, 1)) && 1 <= number <= 775
    ensures SegmentExtension(first, number).Some?
    ensures EwfNumber(SegmentExtension(first, number).value) == Some((family, number))
  {
    FirstIsFirst(first, family);
    var e := SegmentExtension(first, number).value;
    ExtensionShape(first, number);
    assert number > 99 ==> (number - 100) / 26 / 26 == 0;
    assert |family| == |first| - 2;
    assert Lower(e)[..|family|] == Lower(first)[..|family|];
    assert Parts(e) == Some((family, Lower(e)[|family|..]));
  }

  lemma FirstIsFirst(first: string, family: string)
    requires EwfNumber(first) == Some((family, 1))
    ensures IsFirst(first) && |family| == |first| - 2 && family == Lower(first)[..|family|]
  {
  }

  /** Every numbered extension is, up to case, the name of its number: with ExtensionIsNumbered, one name
      for each of 1 to 775. */
  lemma NumberIsNamed(first: string, ext: string, family: string, number: nat)
    requires EwfNumber(first) == Some((family, 1)) && EwfNumber(ext) == Some((family, number))
    ensures 1 <= number <= 775
    ensures Lower(SegmentExtension(first, number).value) == Lower(ext)
  {
    ExtensionIsNumberedRange(ext, family, number);
    ExtensionIsNumbered(first, family, number);
    SameNumberSameName(SegmentExtension(first, number).value, ext, family, number);
  }

  lemma ExtensionIsNumberedRange(ext: string, family: string, number: nat)
    requires EwfNumber(ext) == Some((family, number))
    ensures 1 <= number <= 775
  {
  }

  /** One family and number, one extension up to case. */
  lemma SameNumberSameName(a: string, b: string, family: string, number: nat)
    requires EwfNumber(a) == Some((family, number)) == EwfNumber(b)
    ensures Lower(a) == Lower(b)
  {
    var c, d := NumberTail(a);
    var e, f := NumberTail(b);
    hide EwfNumber, Lower, TailValue, IsTail;
    TailTells(c, d, e, f);
  }

  /** A numbered extension is its family and the two characters of its number. */
  lemma NumberTail(ext: string) returns (c: char, d: char)
    requires EwfNumber(ext).Some?
    ensures var (family, number) := EwfNumber(ext).value;
            Lower(ext) == family + [c, d] && IsTail(c, d) && TailValue(c, d) == number
  {
    var (family, rest) := Parts(ext).value;
    c, d := rest[0], rest[1];
    assert |rest| == 2 && Lower(ext) == family + rest by {
      hide Lower;
    }
    assert rest == [c, d];
  }

  /** libewf's names in one family differ, even up to case. */
  lemma NamesDiffer(first: string, m: nat, n: nat)
    requires SegmentExtension(first, m).Some? && SegmentExtension(first, n).Some?
    requires Lower(SegmentExtension(first, m).value) == Lower(SegmentExtension(first, n).value)
    ensures m == n
  {
    FamiliesMeetIff(first, m, first, n);
    hide SegmentExtension, Lower, LowerChar;
  }

  lemma Base26(x: nat)
    ensures x / 26 / 26 == x / 676
    ensures x % 676 == x / 26 % 26 * 26 + x % 26
  {
    var low := x / 26 % 26 * 26 + x % 26;
    assert x == 676 * (x / 26 / 26) + low && 0 <= low < 676;
  }

  /** The lead letter of a segment's name: it counts up every 676 segments from number 100 on. */
  function LeadOf(first: string, number: nat): int
    requires first != []
  {
    LowerChar(first[0]) as int + if number > 99 then (number - 100) / 676 else 0
  }

  /** What the rest of the name tells: the number itself up to 99, and then which of 676 pairs of letters. */
  function PlaceOf(number: nat): nat {
    if number > 99 then 100 + (number - 100) % 676 else number
  }

  /** Segment `m` of one family and `n` of another have one name. */
  predicate NamesMeet(a: string, m: nat, b: string, n: nat)
    requires a != [] && b != []
  {
    |a| == |b| && LeadOf(a, m) == LeadOf(b, n) && PlaceOf(m) == PlaceOf(n)
  }

  /** What the two characters of the number say. */
  function TailValue(c: char, d: char): int {
    if IsDigit(c) && IsDigit(d) then DigitValue(c) * 10 + DigitValue(d)
    else 100 + (c as int - 'a' as int) * 26 + (d as int - 'a' as int)
  }

  predicate IsTail(c: char, d: char) {
    (IsDigit(c) && IsDigit(d)) || ('a' <= c <= 'z' && 'a' <= d <= 'z')
  }

  lemma TailTells(c: char, d: char, e: char, f: char)
    requires IsTail(c, d) && IsTail(e, f)
    ensures TailValue(c, d) == TailValue(e, f) <==> c == e && d == f
  {
  }

  lemma TailOf(first: string, number: nat)
    requires SegmentExtension(first, number).Some?
    ensures var e := SegmentExtension(first, number).value;
            var c, d := LowerChar(e[|e| - 2]), LowerChar(e[|e| - 1]);
            && IsTail(c, d)
            && TailValue(c, d) == PlaceOf(number)
            && LowerChar(e[0]) as int == LeadOf(first, number)
  {
    ExtensionShape(first, number);
    if number > 99 {
      Base26(number - 100);
    }
  }

  /** When two families share a name, in any case. */
  lemma FamiliesMeetIff(a: string, m: nat, b: string, n: nat)
    requires SegmentExtension(a, m).Some? && SegmentExtension(b, n).Some?
    ensures Lower(SegmentExtension(a, m).value) == Lower(SegmentExtension(b, n).value) <==> NamesMeet(a, m, b, n)
  {
    ExtensionShape(a, m);
    ExtensionShape(b, n);
    var x, y := SegmentExtension(a, m).value, SegmentExtension(b, n).value;
    TailOf(a, m);
    TailOf(b, n);
    hide SegmentExtension, TailValue, IsTail, LowerChar, Digit, Lower, LeadOf, PlaceOf;
    if |a| == |b| {
      var k := |x| - 2;
      TailTells(LowerChar(x[k]), LowerChar(x[k + 1]), LowerChar(y[k]), LowerChar(y[k + 1]));
      SameLower(x, y);
    }
  }

  lemma SameLower(x: string, y: string)
    requires |x| == |y| && (|x| == 3 || |x| == 4) && (|x| == 4 ==> LowerChar(x[1]) == LowerChar(y[1]))
    ensures Lower(x) == Lower(y) <==>
            var k := |x| - 2;
            && LowerChar(x[0]) == LowerChar(y[0])
            && LowerChar(x[k]) == LowerChar(y[k]) && LowerChar(x[k + 1]) == LowerChar(y[k + 1])
  {
    forall i | 0 <= i < |x|
      ensures Lower(x)[i] == LowerChar(x[i]) && Lower(y)[i] == LowerChar(y[i])
    {
    }
  }

  /** Up to segment 775, the last `EZZ`, families have no name in common. */
  lemma FamiliesApart(a: string, m: nat, b: string, n: nat)
    requires SegmentExtension(a, m).Some? && SegmentExtension(b, n).Some? && IsFirst(a) && IsFirst(b)
    requires m <= 775 && n <= 775
    requires Lower(a) != Lower(b)
    ensures Lower(SegmentExtension(a, m).value) != Lower(SegmentExtension(b, n).value)
  {
    FamiliesMeetIff(a, m, b, n);
    LeadStays(a, m);
    LeadStays(b, n);
    if |a| == |b| {
      FirstsDiffer(a, b);
    }
    hide SegmentExtension, Lower, LowerChar, LeadOf, PlaceOf, IsFirst;
  }

  lemma LeadStays(first: string, number: nat)
    requires first != [] && number <= 775
    ensures LeadOf(first, number) == LowerChar(first[0]) as int
  {
  }

  lemma FirstsDiffer(a: string, b: string)
    requires IsFirst(a) && IsFirst(b) && |a| == |b|
    ensures LowerChar(a[0]) == LowerChar(b[0]) ==> Lower(a) == Lower(b)
  {
    SameLower(a, b);
  }

  /** Beyond that they are not kept apart: the names of one that go past the letter of the other are the
      other's names. */
  lemma FamiliesMeet()
    ensures SegmentExtension("e01", 9564) == SegmentExtension("s01", 100) == Some("saa")
    ensures EwfNumber("saa") == Some(("s", 100))
  {
    assert (9564 - 100) / 26 / 26 == 14 && (9564 - 100) / 26 % 26 == 0 && (9564 - 100) % 26 == 0;
    assert "e01"[1..] == "01" == "s01"[1..] && "e01"[1..1] == [] == "s01"[1..1];
    assert ['s'] + [] + ['a', 'a'] == "saa";
    assert Lower("saa") == "saa" && "saa"[..1] == "s" && "saa"[1..] == "aa";
  }
}
