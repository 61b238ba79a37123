/**
 The text side of a date: the "DD.MM.YYYY" shape test (a regular expression),
 String.prototype.split on '.', Number() on a run of ASCII digits, and the
 fixed-width rendering that shows a pattern string is determined by its fields.
 */
module DateText {
  import opened Dates

  /** What `\d` matches in a JavaScript regular expression: an ASCII digit. */
  predicate IsDigit(c: char) {
    '0' <= c <= '9'
  }

  /** The digit a character stands for, read without checking that it is one. */
  function CharValue(c: char): int {
    (c as int) - ('0' as int)
  }

  /** The value of an ASCII digit. */
  function DigitValue(c: char): (n: nat)
    requires IsDigit(c)
    ensures n < 10
  {
    CharValue(c)
  }

  function DigitChar(n: nat): (c: char)
    requires n < 10
    ensures IsDigit(c) && DigitValue(c) == n
  {
    (('0' as int) + n) as char
  }

  predicate AllDigits(t: string) {
    forall i :: 0 <= i < |t| ==> IsDigit(t[i])
  }

  /** One element of an anchored regular expression without alternation: `\d{n}` or a literal character. */
  datatype Atom = DigitRun(count: nat) | Literal(c: char)

  /** The component's date pattern /^\d{2}\.\d{2}\.\d{4}$/. */
  const DatePattern: seq<Atom> := [DigitRun(2), Literal('.'), DigitRun(2), Literal('.'), DigitRun(4)]

  /** How many characters a match of the atoms consumes. */
  function PatternLength(p: seq<Atom>): nat
    decreases |p|
  {
    if |p| == 0 then 0
    else (match p[0] case DigitRun(n) => n case Literal(_) => 1) + PatternLength(p[1..])
  }

  /** RegExp.prototype.test of an anchored (`^...$`) sequence of atoms against s; a match spans all of s. */
  function Test(p: seq<Atom>, s: string): (r: bool)
    ensures r ==> |s| == PatternLength(p)
    decreases |p|
  {
    if |p| == 0 then |s| == 0
    else match p[0]
      case DigitRun(n) => n <= |s| && AllDigits(s[..n]) && Test(p[1..], s[n..])
      case Literal(c) => 1 <= |s| && s[0] == c && Test(p[1..], s[1..])
  }

  predicate MatchesPattern(s: string) {
    Test(DatePattern, s)
  }

  /** Ten characters, dots at 2 and 5, ASCII digits elsewhere. */
  predicate HasDateShape(s: string) {
    && |s| == 10 && s[2] == '.' && s[5] == '.'
    && forall i :: 0 <= i < 10 && i != 2 && i != 5 ==> IsDigit(s[i])
  }

  /** The shape test accepts exactly the strings of date shape. */
  lemma MatchesPatternIff(s: string)
    ensures MatchesPattern(s) <==> HasDateShape(s)
  {
    var p := DatePattern;
    assert p[1..][1..][1..][1..][1..] == [];
    if |s| == 10 {
      assert s[..2] == s[0..2] && s[2..][1..][..2] == s[3..5];
      assert s[2..][1..][2..][1..][..4] == s[6..10];
      assert s[2..][1..][2..][1..][4..] == [];
      if s[2] == '.' && s[5] == '.' && forall i :: 0 <= i < 10 && i != 2 && i != 5 ==> IsDigit(s[i]) {
        assert AllDigits(s[..2]);
        assert AllDigits(s[3..5]);
        assert AllDigits(s[6..10]);
      }
      if MatchesPattern(s) {
        forall i | 0 <= i < 10 && i != 2 && i != 5
          ensures IsDigit(s[i])
        {
          if i < 2 {
            assert s[i] == s[..2][i];
          } else if i < 5 {
            assert s[i] == s[3..5][i - 3];
          } else {
            assert s[i] == s[6..10][i - 6];
          }
        }
      }
    }
  }

  /** String.prototype.split with a one-character separator. */
  function Split(s: string, sep: char): (parts: seq<string>)
    ensures |parts| >= 1
  {
    if |s| == 0 then [""]
    else
      var rest := Split(s[1..], sep);
      if s[0] == sep then [""] + rest else [[s[0]] + rest[0]] + rest[1..]
  }

  lemma {:induction false} SplitWithoutSeparator(t: string, sep: char)
    requires sep !in t
    ensures Split(t, sep) == [t]
  {
    if |t| > 0 {
      SplitWithoutSeparator(t[1..], sep);
      assert [t[0]] + t[1..] == t;
    }
  }

  lemma {:induction false} SplitAtSeparator(t: string, sep: char, u: string)
    requires sep !in t
    ensures Split(t + [sep] + u, sep) == [t] + Split(u, sep)
  {
    var s := t + [sep] + u;
    if |t| == 0 {
      assert s[1..] == u;
    } else {
      assert s[1..] == t[1..] + [sep] + u;
      SplitAtSeparator(t[1..], sep, u);
      assert [t[0]] + t[1..] == t;
    }
  }

  /** A pattern string splits on '.' into its day, month and year texts. */
  lemma SplitPatternString(s: string)
    requires HasDateShape(s)
    ensures Split(s, '.') == [s[..2], s[3..5], s[6..]]
    ensures AllDigits(s[..2]) && AllDigits(s[3..5]) && AllDigits(s[6..])
  {
    assert s == s[..2] + ['.'] + (s[3..5] + ['.'] + s[6..]);
    SplitAtSeparator(s[..2], '.', s[3..5] + ['.'] + s[6..]);
    SplitAtSeparator(s[3..5], '.', s[6..]);
    SplitWithoutSeparator(s[6..], '.');
    forall i | 0 <= i < 2 ensures IsDigit(s[..2][i]) && IsDigit(s[3..5][i]) {
      assert s[..2][i] == s[i] && s[3..5][i] == s[i + 3];
    }
    forall i | 0 <= i < 4 ensures IsDigit(s[6..][i]) {
      assert s[6..][i] == s[i + 6];
    }
  }

  function Pow10(n: nat): (p: nat)
    ensures p >= 1
  {
    if n == 0 then 1 else 10 * Pow10(n - 1)
  }

  /** Number() applied to a run of ASCII digits: its decimal value ("" gives 0). */
  function Number(t: string): (n: nat)
    requires AllDigits(t)
    ensures n < Pow10(|t|)
  {
    if |t| == 0 then 0
    else
      assert AllDigits(t[..|t| - 1]);
      Number(t[..|t| - 1]) * 10 + DigitValue(t[|t| - 1])
  }

  /** `dateStr.split('.').map(Number)` destructured as [day, month, year], on a pattern string. */
  function Fields(s: string): (f: Date)
    requires HasDateShape(s)
    ensures 0 <= f.day < 100 && 0 <= f.month < 100 && 0 <= f.year < 10000
  {
    SplitPatternString(s);
    var parts := Split(s, '.');
    Date(Number(parts[0]), Number(parts[1]), Number(parts[2]))
  }

  /** The fields of a ten-character text read straight off the digit positions 0-1, 3-4 and 6-9. */
  function FieldsAt(s: string): Date {
    if |s| != 10 then Date(0, 0, 0)
    else Date(CharValue(s[0]) * 10 + CharValue(s[1]),
              CharValue(s[3]) * 10 + CharValue(s[4]),
              ((CharValue(s[6]) * 10 + CharValue(s[7])) * 10 + CharValue(s[8])) * 10 + CharValue(s[9]))
  }

  lemma NumberOfTwoDigits(t: string)
    requires |t| == 2 && AllDigits(t)
    ensures Number(t) == CharValue(t[0]) * 10 + CharValue(t[1])
  {
    assert t[..1][..0] == "";
  }

  lemma NumberOfFourDigits(t: string)
    requires |t| == 4 && AllDigits(t)
    ensures Number(t) == ((CharValue(t[0]) * 10 + CharValue(t[1])) * 10 + CharValue(t[2])) * 10 + CharValue(t[3])
  {
    assert AllDigits(t[..2]);
    NumberOfTwoDigits(t[..2]);
    assert t[..3][..2] == t[..2];
  }

  /** On a pattern string, reading the digit positions gives what split and Number give. */
  lemma FieldsAtIsFields(s: string)
    requires HasDateShape(s)
    ensures FieldsAt(s) == Fields(s)
  {
    SplitPatternString(s);
    NumberOfTwoDigits(s[..2]);
    NumberOfTwoDigits(s[3..5]);
    NumberOfFourDigits(s[6..]);
  }

  /** n written with exactly w decimal digits, leading zeros included. */
  function PadDigits(n: nat, w: nat): (t: string)
    ensures |t| == w && AllDigits(t)
  {
    if w == 0 then "" else PadDigits(n / 10, w - 1) + [DigitChar(n % 10)]
  }

  /** A date written as "DD.MM.YYYY". */
  function Format(d: Date): string
    requires 0 <= d.day < 100 && 0 <= d.month < 100 && 0 <= d.year < 10000
  {
    PadDigits(d.day, 2) + "." + PadDigits(d.month, 2) + "." + PadDigits(d.year, 4)
  }

  lemma {:induction false} PadNumber(t: string)
    requires AllDigits(t)
    ensures PadDigits(Number(t), |t|) == t
  {
    if |t| > 0 {
      var p := t[..|t| - 1];
      var c := t[|t| - 1];
      assert AllDigits(p);
      var n := Number(t);
      assert n == Number(p) * 10 + DigitValue(c);
      assert n / 10 == Number(p) && n % 10 == DigitValue(c);
      PadNumber(p);
      assert DigitChar(DigitValue(c)) == c;
      assert p + [c] == t;
    }
  }

  lemma {:induction false} NumberPad(n: nat, w: nat)
    requires n < Pow10(w)
    ensures Number(PadDigits(n, w)) == n
  {
    if w > 0 {
      var t := PadDigits(n, w);
      var p := PadDigits(n / 10, w - 1);
      assert t[..|t| - 1] == p && t[|t| - 1] == DigitChar(n % 10);
      NumberPad(n / 10, w - 1);
    }
  }

  /** Rendering the fields of a pattern string gives the string back. */
  lemma FormatFields(s: string)
    requires HasDateShape(s)
    ensures Format(Fields(s)) == s
  {
    SplitPatternString(s);
    PadNumber(s[..2]);
    PadNumber(s[3..5]);
    PadNumber(s[6..]);
    assert s == s[..2] + "." + s[3..5] + "." + s[6..];
  }

  /** Every date with fields of at most 2, 2 and 4 digits is written by exactly one pattern string. */
  lemma FieldsFormat(d: Date)
    requires 0 <= d.day < 100 && 0 <= d.month < 100 && 0 <= d.year < 10000
    ensures HasDateShape(Format(d)) && Fields(Format(d)) == d
  {
    var s := Format(d);
    var dd, mm, yy := PadDigits(d.day, 2), PadDigits(d.month, 2), PadDigits(d.year, 4);
    assert s[..2] == dd && s[2] == '.' && s[3..5] == mm && s[5] == '.' && s[6..] == yy;
    forall i | 0 <= i < 10 && i != 2 && i != 5
      ensures IsDigit(s[i])
    {
      if i < 2 {
        assert s[i] == dd[i];
      } else if i < 5 {
        assert s[i] == mm[i - 3];
      } else {
        assert s[i] == yy[i - 6];
      }
    }
    SplitPatternString(s);
    NumberPad(d.day, 2);
    NumberPad(d.month, 2);
    NumberPad(d.year, 4);
  }

  /** On pattern strings, equal text and equal (day, month, year) fields are the same thing. */
  lemma SameTextIffSameFields(a: string, b: string)
    requires HasDateShape(a) && HasDateShape(b)
    ensures a == b <==> Fields(a) == Fields(b)
  {
    FormatFields(a);
    FormatFields(b);
  }
}
