/** The string operations the checkers lean on, and the laws that relate them. */
module Text {

  /** The characters that Python's strip() and split() treat as white space. */
  predicate IsSpace(c: char) {
    var n := c as int;
    || 9 <= n <= 13 || 28 <= n <= 32 || n == 0x85 || n == 0xA0 || n == 0x1680
    || 0x2000 <= n <= 0x200A || n == 0x2028 || n == 0x2029 || n == 0x202F
    || n == 0x205F || n == 0x3000
  }

  predicate IsDigit(c: char) { '0' <= c <= '9' }

  function Occurrences(s: string, c: char): nat {
    if s == "" then 0 else (if s[0] == c then 1 else 0) + Occurrences(s[1..], c)
  }

  /** s.split(sep): the pieces between separators, never an empty list. */
  function Split(s: string, sep: char): (r: seq<string>)
    ensures |r| >= 1
    ensures |r| == Occurrences(s, sep) + 1
  {
    if s == "" then [""]
    else
      var rest := Split(s[1..], sep);
      if s[0] == sep then [""] + rest else [[s[0]] + rest[0]] + rest[1..]
  }

  /** sep.join(parts) */
  function Join(parts: seq<string>, sep: string): string {
    if parts == [] then ""
    else if |parts| == 1 then parts[0]
    else parts[0] + sep + Join(parts[1..], sep)
  }

  lemma {:induction false} SplitPlain(s: string, sep: char)
    requires sep !in s
    ensures Split(s, sep) == [s]
  {
    if s != "" {
      SplitPlain(s[1..], sep);
      assert [s[0]] + s[1..] == s;
    }
  }

  lemma {:induction false} SplitFirst(a: string, b: string, sep: char)
    requires sep !in a
    ensures Split(a + [sep] + b, sep) == [a] + Split(b, sep)
  {
    var s := a + [sep] + b;
    if a == "" {
      assert s[1..] == b;
    } else {
      assert s[1..] == a[1..] + [sep] + b;
      SplitFirst(a[1..], b, sep);
      assert a == [a[0]] + a[1..];
    }
  }

  /** Splitting undoes joining, for pieces that do not hold the separator. */
  lemma {:induction false} SplitJoin(parts: seq<string>, sep: char)
    requires parts != [] && forall p :: p in parts ==> sep !in p
    ensures Split(Join(parts, [sep]), sep) == parts
  {
    if |parts| == 1 {
      SplitPlain(parts[0], sep);
    } else {
      var rest := parts[1..];
      SplitJoin(rest, sep);
      assert Join(parts, [sep]) == parts[0] + [sep] + Join(rest, [sep]);
      SplitFirst(parts[0], Join(rest, [sep]), sep);
      assert parts == [parts[0]] + rest;
    }
  }

  lemma {:induction false} OccurrencesConcat(a: string, b: string, c: char)
    ensures Occurrences(a + b, c) == Occurrences(a, c) + Occurrences(b, c)
  {
    if a == "" {
      assert a + b == b;
    } else {
      assert (a + b)[1..] == a[1..] + b;
      OccurrencesConcat(a[1..], b, c);
    }
  }

  lemma {:induction false} OccurrencesNone(s: string, c: char)
    ensures Occurrences(s, c) == 0 <==> c !in s
  {
    if s != "" {
      OccurrencesNone(s[1..], c);
    }
  }

  // ------------------------------------------------------------------ stripping

  function LStrip(s: string): string {
    if s != "" && IsSpace(s[0]) then LStrip(s[1..]) else s
  }

  function RStrip(s: string): string {
    if s != "" && IsSpace(s[|s| - 1]) then RStrip(s[..|s| - 1]) else s
  }

  function Strip(s: string): string { RStrip(LStrip(s)) }

  function LTrim(s: string, c: char): string {
    if s != "" && s[0] == c then LTrim(s[1..], c) else s
  }

  function RTrim(s: string, c: char): string {
    if s != "" && s[|s| - 1] == c then RTrim(s[..|s| - 1], c) else s
  }

  /** s.strip(c) for a one-character argument. */
  function Trim(s: string, c: char): string { RTrim(LTrim(s, c), c) }

  /** What remains of a strip, given which characters are taken off: a middle part
      that neither begins nor ends with one, between parts of nothing else. */
  ghost predicate StripsTo(s: string, middle: string, takenOff: char -> bool) {
    && (middle != "" ==> !takenOff(middle[0]) && !takenOff(middle[|middle| - 1]))
    && exists i, j :: 0 <= i <= j <= |s| && IsMiddle(s, middle, takenOff, i, j)
  }

  predicate IsMiddle(s: string, middle: string, takenOff: char -> bool, i: int, j: int)
    requires 0 <= i <= j <= |s|
  {
    s[i..j] == middle && forall k :: 0 <= k < |s| && !(i <= k < j) ==> takenOff(s[k])
  }

  lemma {:induction false} LTrimIs(s: string, c: char) returns (i: nat)
    ensures i <= |s| && LTrim(s, c) == s[i..] && (i < |s| ==> s[i] != c)
    ensures forall k :: 0 <= k < i ==> s[k] == c
  {
    i := 0;
    if s != "" && s[0] == c {
      var n := LTrimIs(s[1..], c);
      assert s[1..][n..] == s[n + 1..];
      assert forall k :: 0 < k < n + 1 ==> s[k] == s[1..][k - 1];
      i := n + 1;
    }
  }

  lemma {:induction false} RTrimIs(s: string, c: char) returns (j: nat)
    ensures j <= |s| && RTrim(s, c) == s[..j] && (j > 0 ==> s[j - 1] != c)
    ensures forall k :: j <= k < |s| ==> s[k] == c
  {
    j := |s|;
    if s != "" && s[|s| - 1] == c {
      j := RTrimIs(s[..|s| - 1], c);
      assert s[..|s| - 1][..j] == s[..j];
      assert forall k :: 0 <= k < |s| - 1 ==> s[k] == s[..|s| - 1][k];
    }
  }

  /** s.strip(c) takes off all of the character at both ends, and nothing else. */
  lemma TrimIs(s: string, c: char)
    ensures StripsTo(s, Trim(s, c), x => x == c)
  {
    var i := LTrimIs(s, c);
    var n := RTrimIs(s[i..], c);
    assert s[i..][..n] == s[i..i + n];
    assert forall k :: i <= k < |s| ==> s[k] == s[i..][k - i];
    assert IsMiddle(s, Trim(s, c), x => x == c, i, i + n);
  }

  lemma {:induction false} LStripIs(s: string) returns (i: nat)
    ensures i <= |s| && LStrip(s) == s[i..] && (i < |s| ==> !IsSpace(s[i]))
    ensures forall k :: 0 <= k < i ==> IsSpace(s[k])
  {
    i := 0;
    if s != "" && IsSpace(s[0]) {
      var n := LStripIs(s[1..]);
      assert s[1..][n..] == s[n + 1..];
      assert forall k :: 0 < k < n + 1 ==> s[k] == s[1..][k - 1];
      i := n + 1;
    }
  }

  lemma {:induction false} RStripIs(s: string) returns (j: nat)
    ensures j <= |s| && RStrip(s) == s[..j] && (j > 0 ==> !IsSpace(s[j - 1]))
    ensures forall k :: j <= k < |s| ==> IsSpace(s[k])
  {
    j := |s|;
    if s != "" && IsSpace(s[|s| - 1]) {
      j := RStripIs(s[..|s| - 1]);
      assert s[..|s| - 1][..j] == s[..j];
      assert forall k :: 0 <= k < |s| - 1 ==> s[k] == s[..|s| - 1][k];
    }
  }

  /** s.strip() takes off all white space at both ends, and nothing else. */
  lemma StripIs(s: string)
    ensures StripsTo(s, Strip(s), IsSpace)
  {
    var i := LStripIs(s);
    var n := RStripIs(s[i..]);
    assert s[i..][..n] == s[i..i + n];
    assert forall k :: i <= k < |s| ==> s[k] == s[i..][k - i];
    assert IsMiddle(s, Strip(s), IsSpace, i, i + n);
  }

  // ------------------------------------------------------------ substring tests

  predicate EndsWith(s: string, t: string) {
    |t| <= |s| && s[|s| - |t|..] == t
  }

  predicate OccursAt(s: string, t: string, i: int) {
    0 <= i <= |s| - |t| && s[i..i + |t|] == t
  }

  predicate Contains(s: string, t: string) {
    exists i :: 0 <= i <= |s| && OccursAt(s, t, i)
  }

  lemma ContainsSelf(s: string)
    ensures Contains(s, s)
  {
    assert OccursAt(s, s, 0);
  }

  // ------------------------------------------------------------ decimal numbers

  function Digit(n: nat): char
    requires n < 10
  {
    ('0' as int + n) as char
  }

  function DigitValue(c: char): nat
    requires IsDigit(c)
  {
    c as int - '0' as int
  }

  /** str(n) for a natural number. */
  function Ntoa(n: nat): (s: string)
    ensures s != "" && forall c :: c in s ==> IsDigit(c)
  {
    if n < 10 then [Digit(n)] else Ntoa(n / 10) + [Digit(n % 10)]
  }

  /** int(s) for a string of digits. */
  function Aton(s: string): nat
    requires forall c :: c in s ==> IsDigit(c)
  {
    if s == "" then 0 else Aton(s[..|s| - 1]) * 10 + DigitValue(s[|s| - 1])
  }

  function Ten(n: nat): nat { if n == 0 then 1 else 10 * Ten(n - 1) }

  /** Decimal notation is positional: a leading digit is worth itself times ten to the
      number of digits after it. */
  lemma {:induction false} LeadingDigitIs(c: char, s: string)
    requires IsDigit(c) && forall d :: d in s ==> IsDigit(d)
    ensures Aton([c] + s) == DigitValue(c) * Ten(|s|) + Aton(s)
  {
    if s == "" {
      assert ([c] + s)[..0] == "" && Aton("") == 0;
    } else {
      var m := |s| - 1;
      LeadingDigitIs(c, s[..m]);
      assert ([c] + s)[..m + 1] == [c] + s[..m] && ([c] + s)[m + 1] == s[m];
      var v, t := DigitValue(c), Ten(m);
      assert Ten(|s|) == 10 * t;
      assert (v * t + Aton(s[..m])) * 10 == v * (10 * t) + Aton(s[..m]) * 10;
    }
  }

  lemma {:induction false} AtonNtoa(n: nat)
    ensures Aton(Ntoa(n)) == n
  {
    if n >= 10 {
      var s := Ntoa(n / 10) + [Digit(n % 10)];
      assert s[..|s| - 1] == Ntoa(n / 10);
      AtonNtoa(n / 10);
    }
  }
}
