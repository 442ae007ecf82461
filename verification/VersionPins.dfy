/** The toolchain-pin check: comparison on the fields a pin states, the scan of the
    workflow files, and the three-valued verdict. */
module VersionPins {
  import opened Basics
  import opened Text

  // ------------------------------------------------------------------ comparison

  /** Tuple comparison: the first difference decides, and a tuple is at or above
      each of its own beginnings. */
  predicate AtLeast(p: seq<nat>, f: seq<nat>) {
    f == [] || (p != [] && (p[0] > f[0] || (p[0] == f[0] && AtLeast(p[1..], f[1..]))))
  }

  /** The floor is cut to the precision of the pin. */
  predicate Satisfies(p: seq<nat>, f: seq<nat>) {
    AtLeast(p, if |p| < |f| then f[..|p|] else f)
  }

  /** A pin satisfies a floor exactly when some version that it may stand for, some
      extension of its fields, is at or above the whole floor. */
  lemma {:induction false} SatisfiesIffExtends(p: seq<nat>, f: seq<nat>)
    ensures Satisfies(p, f) <==> exists e :: AtLeast(p + e, f)
  {
    if Satisfies(p, f) {
      var e := Extension(p, f);
    }
    if e :| AtLeast(p + e, f) {
      ExtensionSatisfies(p, e, f);
    }
  }

  lemma {:induction false} Extension(p: seq<nat>, f: seq<nat>) returns (e: seq<nat>)
    requires Satisfies(p, f)
    ensures AtLeast(p + e, f)
  {
    if p == [] {
      e := f;
      AtLeastReflexive(f);
      assert p + e == f;
    } else if f == [] || p[0] > f[0] {
      e := [];
    } else {
      assert |p| < |f| ==> f[..|p|][1..] == f[1..][..|p| - 1];
      e := Extension(p[1..], f[1..]);
      assert (p + e)[1..] == p[1..] + e;
    }
  }

  lemma {:induction false} ExtensionSatisfies(p: seq<nat>, e: seq<nat>, f: seq<nat>)
    requires AtLeast(p + e, f)
    ensures Satisfies(p, f)
  {
    if p != [] && f != [] && p[0] == f[0] {
      assert (p + e)[1..] == p[1..] + e;
      ExtensionSatisfies(p[1..], e, f[1..]);
      if |p| < |f| {
        assert f[..|p|][1..] == f[1..][..|p| - 1];
      }
    }
  }

  lemma {:induction false} AtLeastReflexive(f: seq<nat>)
    ensures AtLeast(f, f)
  {
    if f != [] {
      AtLeastReflexive(f[1..]);
    }
  }

  lemma {:induction false} AtLeastTransitive(a: seq<nat>, b: seq<nat>, c: seq<nat>)
    requires AtLeast(a, b) && AtLeast(b, c)
    ensures AtLeast(a, c)
  {
    if c != [] && a[0] == b[0] == c[0] {
      AtLeastTransitive(a[1..], b[1..], c[1..]);
    }
  }

  /** Lowering the floor never turns an accepted pin into a rejected one. */
  lemma LowerFloor(p: seq<nat>, f: seq<nat>, g: seq<nat>)
    requires Satisfies(p, f) && AtLeast(f, g)
    ensures Satisfies(p, g)
  {
    var e := Extension(p, f);
    AtLeastTransitive(p + e, f, g);
    ExtensionSatisfies(p, e, g);
  }

  /** At field `i` the first is above the second, with all earlier fields equal. */
  predicate AboveAt(p: seq<nat>, f: seq<nat>, i: int) {
    0 <= i < |p| && i < |f| && p[..i] == f[..i] && p[i] > f[i]
  }

  lemma AboveNext(p: seq<nat>, f: seq<nat>, i: int)
    requires p != [] && f != [] && p[0] == f[0] && i >= 0
    ensures AboveAt(p, f, i + 1) <==> AboveAt(p[1..], f[1..], i)
  {
    if i < |p[1..]| && i < |f[1..]| {
      assert p[..i + 1] == [p[0]] + p[1..][..i];
      assert f[..i + 1] == [f[0]] + f[1..][..i];
      assert p[..i + 1][1..] == p[1..][..i] && f[..i + 1][1..] == f[1..][..i];
    }
  }

  lemma EqualHeads(p: seq<nat>, f: seq<nat>, i: nat)
    requires 0 < i < |p| && i < |f|
    ensures p[..i] == f[..i] ==> p[0] == f[0]
  {
    assert p[..i][0] == p[0] && f[..i][0] == f[0];
  }

  /** The comparison is lexicographic: the first difference decides, and without one
      the first must go on at least as long as the second. */
  lemma {:induction false} FirstDifferenceDecides(p: seq<nat>, f: seq<nat>)
    ensures AtLeast(p, f) <==> f <= p || exists i :: AboveAt(p, f, i)
  {
    if p != [] && f != [] && p[0] == f[0] {
      FirstDifferenceDecides(p[1..], f[1..]);
      assert f <= p <==> f[1..] <= p[1..] by {
        assert p == [p[0]] + p[1..] && f == [f[0]] + f[1..];
      }
      if i :| AboveAt(p, f, i) {
        AboveNext(p, f, i - 1);
      }
      if i :| AboveAt(p[1..], f[1..], i) {
        AboveNext(p, f, i);
      }
    } else if p != [] && f != [] {
      assert p[0] > f[0] ==> AboveAt(p, f, 0);
      forall i | 0 < i < |p| && i < |f| ensures p[..i] != f[..i] {
        EqualHeads(p, f, i);
      }
    }
  }

  /** Any two versions compare, and two at or above each other are the same. */
  lemma {:induction false} ComparisonIsTotal(p: seq<nat>, f: seq<nat>)
    ensures AtLeast(p, f) || AtLeast(f, p)
    ensures AtLeast(p, f) && AtLeast(f, p) ==> p == f
  {
    if p != [] && f != [] && p[0] == f[0] {
      ComparisonIsTotal(p[1..], f[1..]);
      assert p == [p[0]] + p[1..] && f == [f[0]] + f[1..];
    }
  }

  /** A pin fails a floor if and only if at some field it is below the floor with all
      earlier fields equal; what the floor says beyond the pin's fields is not asked. */
  lemma FailsAtFirstDifference(p: seq<nat>, f: seq<nat>)
    ensures !Satisfies(p, f) <==> exists i :: AboveAt(f, p, i)
  {
    var cut := if |p| < |f| then f[..|p|] else f;
    FirstDifferenceDecides(p, cut);
    FirstDifferenceDecides(cut, p);
    ComparisonIsTotal(p, cut);
    forall i ensures AboveAt(cut, p, i) <==> AboveAt(f, p, i) {
      if 0 <= i < |p| && i < |f| {
        assert cut[..i] == f[..i];
      }
    }
  }

  // --------------------------------------------------------------- version strings

  predicate Digits(s: string) { s != "" && forall c :: c in s ==> IsDigit(c) }

  /** Digits, and more digits after each dot. */
  predicate IsNumeric(v: string) { forall s :: s in Split(v, '.') ==> Digits(s) }

  function VersionTuple(v: string): (t: seq<nat>)
    requires IsNumeric(v)
    ensures |t| == Occurrences(v, '.') + 1
  {
    var parts := Split(v, '.');
    seq(|parts|, i requires 0 <= i < |parts| => assert parts[i] in parts; Aton(parts[i]))
  }

  predicate Compare(pin: string, floor: string)
    requires IsNumeric(pin) && IsNumeric(floor)
  {
    Satisfies(VersionTuple(pin), VersionTuple(floor))
  }

  /** Written out in decimal and read back, a version is itself. */
  lemma VersionRoundTrip(t: seq<nat>)
    requires t != []
    ensures var v := Join(seq(|t|, i requires 0 <= i < |t| => Ntoa(t[i])), ".");
      IsNumeric(v) && VersionTuple(v) == t
  {
    var parts := seq(|t|, i requires 0 <= i < |t| => Ntoa(t[i]));
    SplitJoin(parts, '.');
    forall i | 0 <= i < |t| ensures Aton(parts[i]) == t[i] {
      AtonNtoa(t[i]);
    }
  }

  function Written(t: seq<nat>): string {
    Join(seq(|t|, i requires 0 <= i < |t| => Ntoa(t[i])), ".")
  }

  /** On version strings: 1.25 fails 1.26.0 at its second field, 1.26 does not fail it. */
  lemma WrittenComparison(p: seq<nat>, f: seq<nat>)
    requires p != [] && f != []
    ensures IsNumeric(Written(p)) && IsNumeric(Written(f))
    ensures !Compare(Written(p), Written(f)) <==> exists i :: AboveAt(f, p, i)
  {
    VersionRoundTrip(p);
    VersionRoundTrip(f);
    FailsAtFirstDifference(p, f);
  }

  // ----------------------------------------------------------------- recognising lines

  predicate IsPinChar(c: char) {
    'A' <= c <= 'Z' || 'a' <= c <= 'z' || IsDigit(c) || c in {'_', '.', '-'}
  }

  function PinRun(s: string): string {
    if s != "" && IsPinChar(s[0]) then [s[0]] + PinRun(s[1..]) else ""
  }

  function Unquoted(s: string): string {
    if s != "" && s[0] in {'\'', '"'} then s[1..] else s
  }

  /** From `i` on the line has the key, blanks, and the action. */
  predicate SetupAt(line: string, i: int) {
    0 <= i <= |line| && "uses:" <= line[i..] && "actions/setup-go@" <= LStrip(line[i + 5..])
  }

  /** A line sets up Go when the pattern matches anywhere in it. */
  lemma {:induction false} SetsUpGoIff(line: string)
    ensures SetsUpGo(line) <==> exists i :: SetupAt(line, i)
  {
    if line != "" {
      var rest := line[1..];
      SetsUpGoIff(rest);
      assert line[0..] == line;
      assert forall i :: 0 <= i <= |rest| ==> rest[i..] == line[i + 1..];
      if i :| SetupAt(rest, i) {
        assert rest[i + 5..] == line[i + 6..];
        assert SetupAt(line, i + 1);
      }
      if i :| SetupAt(line, i) {
        if i > 0 {
          assert rest[i - 1..] == line[i..] && rest[i + 4..] == line[i + 5..];
          assert SetupAt(rest, i - 1);
        }
      }
      if "uses:" <= line && "actions/setup-go@" <= LStrip(line[5..]) {
        assert SetupAt(line, 0);
      }
    }
  }

  /** The text from here on is a pin: the key, blanks, perhaps a quote, a value. */
  function PinHere(s: string): string {
    if "go-version:" <= s then PinRun(Unquoted(LStrip(s[11..]))) else ""
  }

  /** The value of the first `go-version:` on the line that is followed by one. */
  function FindPin(line: string): Option<string> {
    if line == "" then None
    else if PinHere(line) != "" then Some(PinHere(line))
    else FindPin(line[1..])
  }

  predicate SetsUpGo(line: string) {
    line != "" && (("uses:" <= line && "actions/setup-go@" <= LStrip(line[5..])) || SetsUpGo(line[1..]))
  }

  ghost predicate LeftmostPin(line: string, i: int, v: string) {
    && 0 <= i <= |line| && v != "" && PinHere(line[i..]) == v
    && forall j :: 0 <= j < i ==> PinHere(line[j..]) == ""
  }

  /** The recogniser finds the leftmost place where the pattern matches, if any. */
  lemma {:induction false} FindPinIsLeftmost(line: string)
    ensures FindPin(line).None? <==> forall i :: 0 <= i <= |line| ==> PinHere(line[i..]) == ""
    ensures FindPin(line).Some? ==> exists i :: LeftmostPin(line, i, FindPin(line).value)
  {
    if line != "" {
      assert line[0..] == line;
      var rest := line[1..];
      assert forall i :: 0 <= i <= |rest| ==> rest[i..] == line[i + 1..];
      FindPinIsLeftmost(rest);
      if FindPin(line).Some? && PinHere(line) == "" {
        var i :| LeftmostPin(rest, i, FindPin(rest).value);
        assert rest[i..] == line[i + 1..];
        forall j | 0 <= j < i + 1 ensures PinHere(line[j..]) == "" {
          if j > 0 {
            assert rest[j - 1..] == line[j..];
          }
        }
        assert LeftmostPin(line, i + 1, FindPin(line).value);
      } else if FindPin(line).Some? {
        assert LeftmostPin(line, 0, FindPin(line).value);
      }
      if FindPin(line).None? {
        forall i | 0 <= i <= |line| ensures PinHere(line[i..]) == "" {
          if i > 0 {
            assert rest[i - 1..] == line[i..];
          }
        }
      }
    }
  }

  lemma {:induction false} PinRunOf(v: string, post: string)
    requires forall i :: 0 <= i < |v| ==> IsPinChar(v[i])
    requires post == "" || !IsPinChar(post[0])
    ensures PinRun(v + post) == v
  {
    if v == "" {
      assert v + post == post;
    } else {
      assert (v + post)[1..] == v[1..] + post;
      PinRunOf(v[1..], post);
    }
  }

  /** Written in either style of the tree, quoted or bare, a value is read back. */
  lemma WrittenPinIsRead(v: string, quote: string, post: string)
    requires v != "" && forall i :: 0 <= i < |v| ==> IsPinChar(v[i])
    requires quote in {"", "'", "\""} && (quote + post == "" || !IsPinChar((quote + post)[0]))
    ensures FindPin("go-version:" + (" " + (quote + (v + (quote + post))))) == Some(v)
  {
    var tail := v + (quote + post);
    assert Unquoted(quote + tail) == tail;
    assert (" " + (quote + tail))[1..] == quote + tail;
    assert LStrip(quote + tail) == quote + tail;
    PinRunOf(v, quote + post);
    KeyIsRead(" " + (quote + tail));
  }

  lemma KeyIsRead(s: string)
    requires PinRun(Unquoted(LStrip(s))) != ""
    ensures FindPin("go-version:" + s) == Some(PinRun(Unquoted(LStrip(s))))
  {
    var line := "go-version:" + s;
    assert line[11..] == s;
  }

  // --------------------------------------------------------------------------- the scan

  datatype File = Unreadable(path: string) | Readable(path: string, lines: seq<string>)

  datatype Pin = Pin(path: string, line: nat, version: string)

  predicate IsPin(line: string) { FindPin(line).Some? && IsNumeric(FindPin(line).value) }

  predicate Uncomparable(line: string) { FindPin(line).Some? && !IsNumeric(FindPin(line).value) }

  /** The file can be judged: it reads, no line pins what cannot be compared, and
      if it sets up Go it pins something. */
  ghost predicate Sound(f: File) {
    && f.Readable?
    && (forall i :: 0 <= i < |f.lines| ==> !Uncomparable(f.lines[i]))
    && ((exists i :: 0 <= i < |f.lines| && SetsUpGo(f.lines[i])) ==> Pinned(f))
  }

  ghost predicate Pinned(f: File) {
    f.Readable? && exists i :: 0 <= i < |f.lines| && IsPin(f.lines[i])
  }

  /** How many of the lines have the property. */
  function Tally(lines: seq<string>, p: string -> bool): nat {
    if lines == [] then 0
    else Tally(lines[..|lines| - 1], p) + if p(lines[|lines| - 1]) then 1 else 0
  }

  function Setups(f: File): nat
    requires f.Readable?
  {
    Tally(f.lines, SetsUpGo)
  }

  function Pins(f: File): nat
    requires f.Readable?
  {
    Tally(f.lines, IsPin)
  }

  ghost predicate PinOf(f: File, p: Pin) {
    && f.Readable? && p.path == f.path && 1 <= p.line <= |f.lines|
    && IsPin(f.lines[p.line - 1]) && FindPin(f.lines[p.line - 1]) == Some(p.version)
  }

  datatype Scan = Failed | Found(pins: seq<Pin>)

  ghost predicate PinsUpTo(f: File, here: seq<Pin>, n: nat) {
    forall p :: p in here <==> PinOf(f, p) && p.line <= n
  }

  lemma PinsNext(f: File, here: seq<Pin>, n: nat)
    requires f.Readable? && n < |f.lines| && PinsUpTo(f, here, n)
    ensures IsPin(f.lines[n]) ==> PinsUpTo(f, here + [Pin(f.path, n + 1, FindPin(f.lines[n]).value)], n + 1)
    ensures !IsPin(f.lines[n]) ==> PinsUpTo(f, here, n + 1)
  {
  }

  lemma PinnedMeansPins(f: File, here: seq<Pin>)
    requires f.Readable? && PinsUpTo(f, here, |f.lines|)
    ensures here != [] <==> Pinned(f)
  {
    if here != [] {
      assert here[0] in here;
    }
    if i :| 0 <= i < |f.lines| && IsPin(f.lines[i]) {
      assert PinOf(f, Pin(f.path, i + 1, FindPin(f.lines[i]).value));
    }
  }

  lemma TallyNext(lines: seq<string>, n: nat, p: string -> bool)
    requires n < |lines|
    ensures Tally(lines[..n + 1], p) == Tally(lines[..n], p) + if p(lines[n]) then 1 else 0
  {
    assert lines[..n + 1][..n] == lines[..n];
  }

  lemma {:induction false} TallyPositive(lines: seq<string>, p: string -> bool)
    ensures Tally(lines, p) > 0 <==> exists i :: 0 <= i < |lines| && p(lines[i])
  {
    if lines != [] {
      var m := |lines| - 1;
      TallyPositive(lines[..m], p);
      assert lines[..m] + [lines[m]] == lines;
      if Tally(lines[..m], p) > 0 {
        var i :| 0 <= i < m && p(lines[..m][i]);
        assert p(lines[i]);
      }
      if i :| 0 <= i < m && p(lines[i]) {
        assert p(lines[..m][i]);
      }
    }
  }

  /** The counters of one file decide whether it can be judged. */
  lemma SoundByCounts(f: File, here: seq<Pin>)
    requires f.Readable? && PinsUpTo(f, here, |f.lines|)
    ensures Sound(f) <==> Tally(f.lines, Uncomparable) == 0 && !(Setups(f) > 0 && here == [])
  {
    TallyPositive(f.lines, Uncomparable);
    TallyPositive(f.lines, SetsUpGo);
    PinnedMeansPins(f, here);
  }

  method ScanFile(f: File) returns (r: Scan)
    ensures r.Failed? <==> !Sound(f)
    ensures r.Found? ==> forall p :: p in r.pins <==> PinOf(f, p)
  {
    if f.Unreadable? {
      return Failed;
    }
    var here: seq<Pin> := [];
    var setups, uncomparable := 0, 0;
    for n := 0 to |f.lines|
      invariant setups == Tally(f.lines[..n], SetsUpGo)
      invariant uncomparable == Tally(f.lines[..n], Uncomparable)
      invariant PinsUpTo(f, here, n)
    {
      PinsNext(f, here, n);
      TallyNext(f.lines, n, SetsUpGo);
      TallyNext(f.lines, n, Uncomparable);
      if SetsUpGo(f.lines[n]) {
        setups := setups + 1;
      }
      var m := FindPin(f.lines[n]);
      if m.Some? {
        if IsNumeric(m.value) {
          here := here + [Pin(f.path, n + 1, m.value)];
        } else {
          uncomparable := uncomparable + 1;
        }
      }
    }
    assert f.lines[..|f.lines|] == f.lines;
    SoundByCounts(f, here);
    r := if uncomparable > 0 || (setups > 0 && here == []) then Failed else Found(here);
  }

  // ------------------------------------------------------------- what is not counted

  lemma {:induction false} NoSetupWithout(line: string)
    requires 'u' !in line
    ensures !SetsUpGo(line)
  {
    if line != "" {
      assert "uses:"[0] == 'u';
      NoSetupWithout(line[1..]);
    }
  }

  lemma KeyHasV(s: string)
    ensures PinHere(s) != "" ==> 'v' in s
  {
    if PinHere(s) != "" {
      assert s[3] == 'v';
    }
  }

  lemma NoPinWithout(line: string)
    requires 'v' !in line
    ensures FindPin(line).None?
  {
    forall i | 0 <= i <= |line| ensures PinHere(line[i..]) == "" {
      KeyHasV(line[i..]);
    }
    FindPinIsLeftmost(line);
  }

  /** A line that sets up Go and pins nothing, and one that only pins. */
  predicate SetupOnly(line: string) { SetsUpGo(line) && FindPin(line).None? }

  predicate PinOnly(line: string) { IsPin(line) && !SetsUpGo(line) }

  lemma SetupHere(line: string, action: string)
    requires line == "uses:" + (" " + action) && "actions/setup-go@" <= action
    ensures SetsUpGo(line)
  {
    assert line[5..] == " " + action;
    assert (" " + action)[1..] == action;
    assert LStrip(action) == action;
  }

  lemma PlainSetup(line: string, action: string)
    requires line == "uses: " + action && "actions/setup-go@" <= action && 'v' !in action
    ensures SetupOnly(line)
  {
    assert line == "uses:" + (" " + action);
    SetupHere(line, action);
    NoPinWithout(line);
  }

  lemma PlainPin(line: string, v: string)
    requires line == "go-version: " + v && Digits(v)
    ensures PinOnly(line)
  {
    PlainPinIsRead(line, v);
    PlainPinHasNoU(line, v);
    SplitPlain(v, '.');
    assert IsNumeric(v);
    DigitsPinOnly(line, v);
  }

  lemma PlainPinIsRead(line: string, v: string)
    requires line == "go-version: " + v && Digits(v)
    ensures FindPin(line) == Some(v)
  {
    var rest := " " + v;
    assert line == "go-version:" + rest;
    assert PinRun(Unquoted(LStrip(rest))) == v by { BareValue(v); }
    KeyIsRead(rest);
  }

  lemma PlainPinHasNoU(line: string, v: string)
    requires line == "go-version: " + v && Digits(v)
    ensures 'u' !in line
  {
  }

  lemma DigitsPinOnly(line: string, v: string)
    requires FindPin(line) == Some(v) && IsNumeric(v) && 'u' !in line
    ensures PinOnly(line)
  {
    NoSetupWithout(line);
  }

  lemma BareValue(v: string)
    requires Digits(v)
    ensures PinRun(Unquoted(LStrip(" " + v))) == v
  {
    assert (" " + v)[1..] == v;
    assert v[0] in v;
    PinRunOf(v, "");
    assert v + "" == v;
  }

  /** One pin, and then Go set up `n` times. */
  function Uneven(n: nat, setup: string, pin: string): (lines: seq<string>)
    ensures lines != [] && lines[0] == pin
    ensures forall i :: 0 < i < |lines| ==> lines[i] == setup
  {
    if n == 0 then [pin] else Uneven(n - 1, setup, pin) + [setup]
  }

  lemma {:induction false} UnevenTally(n: nat, setup: string, pin: string, p: string -> bool)
    ensures Tally(Uneven(n, setup, pin), p) == (if p(pin) then 1 else 0) + (if p(setup) then n else 0)
  {
    var lines := Uneven(n, setup, pin);
    if n == 0 {
      assert lines[..0] == [];
    } else {
      UnevenTally(n - 1, setup, pin, p);
      assert lines[..|lines| - 1] == Uneven(n - 1, setup, pin);
    }
  }

  /** A file that pins once and sets up Go `n` times is judged. */
  lemma UnevenIsSound(path: string, n: nat, action: string, v: string)
    requires "actions/setup-go@" <= action && 'v' !in action && Digits(v)
    ensures var f := Readable(path, Uneven(n, "uses: " + action, "go-version: " + v));
      Sound(f) && Setups(f) == n && Pins(f) == 1
  {
    var setup, pin := "uses: " + action, "go-version: " + v;
    var f := Readable(path, Uneven(n, setup, pin));
    PlainSetup(setup, action);
    PlainPin(pin, v);
    UnevenTally(n, setup, pin, SetsUpGo);
    UnevenTally(n, setup, pin, IsPin);
    assert !Uncomparable(pin) && !Uncomparable(setup);
    assert IsPin(f.lines[0]);
  }

  /** Judging a file does not take one pin for each time it sets up Go: that follows
      exactly when it sets up Go at most once. */
  lemma OnePinPerSetupIff(n: nat)
    ensures (forall f: File :: f.Readable? && Sound(f) && Setups(f) == n ==> Pins(f) >= n) <==> n <= 1
  {
    if n <= 1 {
      forall f: File | f.Readable? && Sound(f) && Setups(f) == n ensures Pins(f) >= n {
        TallyPositive(f.lines, SetsUpGo);
        TallyPositive(f.lines, IsPin);
      }
    } else {
      var action, v := "actions/setup-go@", "1";
      UnevenIsSound("", n, action, v);
      assert Sound(Readable("", Uneven(n, "uses: " + action, "go-version: " + v)));
    }
  }

  /** For instance a file with two setup-go lines and one pin. */
  lemma TwoSetupsOnePin(action: string, v: string)
    requires "actions/setup-go@" <= action && 'v' !in action && Digits(v)
    ensures var setup, pin := "uses: " + action, "go-version: " + v;
      var f := Readable("ci.yml", [pin, setup, setup]);
      Sound(f) && Setups(f) == 2 && Pins(f) == 1
  {
    var setup, pin := "uses: " + action, "go-version: " + v;
    UnevenIsSound("ci.yml", 2, action, v);
    assert Uneven(1, setup, pin) == [pin, setup];
    assert Uneven(2, setup, pin) == [pin, setup, setup];
  }

  method FindPins(files: seq<File>) returns (r: Scan)
    ensures r.Failed? <==> exists f :: f in files && !Sound(f)
    ensures r.Found? ==> forall p :: p in r.pins <==> exists f :: f in files && PinOf(f, p)
  {
    var pins: seq<Pin> := [];
    var problems := false;
    for i := 0 to |files|
      invariant problems <==> exists f :: f in files[..i] && !Sound(f)
      invariant !problems ==> forall p :: p in pins <==> exists f :: f in files[..i] && PinOf(f, p)
    {
      var f := files[i];
      assert files[..i + 1] == files[..i] + [f];
      if f.Unreadable? {
        assert !Sound(f) && f in files;
        return Failed;
      }
      var here := ScanFile(f);
      match here {
        case Failed =>
          problems := true;
        case Found(more) =>
          pins := pins + more;
      }
    }
    assert files[..|files|] == files;
    r := if problems then Failed else Found(pins);
  }

  // ------------------------------------------------------------------------ the verdict

  ghost predicate AllSound(files: seq<File>) {
    forall f :: f in files ==> Sound(f)
  }

  ghost predicate SomePin(files: seq<File>) {
    exists f :: f in files && Pinned(f)
  }

  /** The pin is comparable and at or above the floor. */
  ghost predicate Clears(version: string, floor: string)
    requires IsNumeric(floor)
  {
    IsNumeric(version) && Compare(version, floor)
  }

  ghost predicate AllPass(files: seq<File>, floor: string)
    requires IsNumeric(floor)
  {
    forall f, p :: f in files && PinOf(f, p) ==> Clears(p.version, floor)
  }

  /** 0: every file can be judged, something is pinned and every pin passes.
      1: only the last fails. 2: anything else, a floor that cannot be read included. */
  ghost function Code(files: seq<File>, floor: Option<string>): int
    requires floor.Some? ==> IsNumeric(floor.value)
  {
    if floor.None? || !AllSound(files) || !SomePin(files) then 2
    else if AllPass(files, floor.value) then 0
    else 1
  }

  lemma PinsAreFound(files: seq<File>, pins: seq<Pin>)
    requires forall p :: p in pins <==> exists f :: f in files && PinOf(f, p)
    ensures SomePin(files) <==> pins != []
  {
    if pins != [] {
      assert pins[0] in pins;
      var f :| f in files && PinOf(f, pins[0]);
      assert Pinned(f);
    }
    if f :| f in files && Pinned(f) {
      var i :| 0 <= i < |f.lines| && IsPin(f.lines[i]);
      var p := Pin(f.path, i + 1, FindPin(f.lines[i]).value);
      assert PinOf(f, p);
      assert p in pins;
    }
  }

  lemma PinsDecide(files: seq<File>, pins: seq<Pin>, floor: string)
    requires IsNumeric(floor)
    requires forall p :: p in pins <==> exists f :: f in files && PinOf(f, p)
    ensures AllPass(files, floor) <==> forall j :: 0 <= j < |pins| ==> Clears(pins[j].version, floor)
  {
    if AllPass(files, floor) {
      forall j | 0 <= j < |pins| ensures Clears(pins[j].version, floor) {
        assert pins[j] in pins;
      }
    } else {
      var f, p :| f in files && PinOf(f, p) && !Clears(p.version, floor);
      assert p in pins;
    }
  }

  method Judge(pins: seq<Pin>, floor: string) returns (code: int)
    requires IsNumeric(floor) && forall p :: p in pins ==> IsNumeric(p.version)
    ensures code == if forall j :: 0 <= j < |pins| ==> Clears(pins[j].version, floor) then 0 else 1
  {
    code := 0;
    for i := 0 to |pins|
      invariant code == if forall j :: 0 <= j < i ==> Clears(pins[j].version, floor) then 0 else 1
    {
      assert pins[i] in pins;
      if !Compare(pins[i].version, floor) {
        code := 1;
      }
    }
  }

  method Check(files: seq<File>, floor: Option<string>) returns (code: int)
    requires floor.Some? ==> IsNumeric(floor.value)
    ensures code == Code(files, floor)
  {
    if floor.None? {
      return 2;
    }
    var r := FindPins(files);
    if r.Failed? {
      return 2;
    }
    PinsAreFound(files, r.pins);
    if r.pins == [] {
      return 2;
    }
    PinsDecide(files, r.pins, floor.value);
    code := Judge(r.pins, floor.value);
  }

  /** The first field in which the version differs from the floor is below it. */
  ghost predicate Below(version: string, floor: string)
    requires IsNumeric(floor)
  {
    IsNumeric(version) && exists i :: AboveAt(VersionTuple(floor), VersionTuple(version), i)
  }

  /** Where everything can be judged and something is pinned, the tree fails if and only
      if some pin falls below the floor at its first difference from it. */
  lemma FailsIffSomePinIsBelow(files: seq<File>, floor: string)
    requires IsNumeric(floor) && AllSound(files) && SomePin(files)
    ensures Code(files, Some(floor)) in {0, 1}
    ensures Code(files, Some(floor)) == 1 <==> exists f, p :: f in files && PinOf(f, p) && Below(p.version, floor)
  {
    forall f, p | f in files && PinOf(f, p) ensures Clears(p.version, floor) <==> !Below(p.version, floor) {
      FailsAtFirstDifference(VersionTuple(p.version), VersionTuple(floor));
    }
  }

  /** The order of the files does not matter, nor how often one is listed. */
  lemma OrderDoesNotMatter(a: seq<File>, b: seq<File>, floor: Option<string>)
    requires floor.Some? ==> IsNumeric(floor.value)
    requires forall f :: f in a <==> f in b
    ensures Code(a, floor) == Code(b, floor)
  {
  }

  /** Adding a file cannot repair a verdict, except by bringing the first pin. */
  lemma AddingAFile(files: seq<File>, f: File, floor: Option<string>)
    requires floor.Some? ==> IsNumeric(floor.value)
    requires Code(files, floor) != 0 && Code(files + [f], floor) == 0
    ensures Code(files, floor) == 2 && AllSound(files) && !SomePin(files) && Pinned(f)
  {
    assert forall g :: g in files ==> g in files + [f];
    var g :| g in files + [f] && Pinned(g);
  }

  /** Lowering the floor keeps a passing tree passing. */
  lemma LowerFloorKeepsPassing(files: seq<File>, floor: string, lower: string)
    requires IsNumeric(floor) && IsNumeric(lower) && AtLeast(VersionTuple(floor), VersionTuple(lower))
    requires Code(files, Some(floor)) == 0
    ensures Code(files, Some(lower)) == 0
  {
    forall f, p | f in files && PinOf(f, p) ensures Clears(p.version, lower) {
      assert Clears(p.version, floor);
      LowerFloor(VersionTuple(p.version), VersionTuple(floor), VersionTuple(lower));
    }
  }
}
