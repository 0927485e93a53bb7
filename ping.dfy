/**
 * Interpretation of one `ping` run (`ping_latency` in wifi.py).
 *
 * The subprocess itself is not modelled: the model starts from what it
 * produced (an exception, or a return code with stdout and stderr) and
 * computes the `(reachable, latency)` pair.  The two regular expressions
 * `time[=<]\s*([\d.]+)\s*ms` and `Average = (\d+)ms`, both case-insensitive,
 * are written out by hand, together with the backtracking semantics they
 * have in Python's `re.search`, and `float` on the captured text becomes an
 * exact `real`.
 */
module Ping {
  import opened Options

  /** What running `ping` produced: it raised, or it exited. */
  datatype ProbeOutcome =
    | Raised
    | Exited(returnCode: int, stdout: string, stderr: string)

  /** The pair returned by `ping_latency`. */
  datatype PingResult = PingResult(reachable: bool, latency: Option<real>)

  /** `ping_latency` never attaches a latency to an unreachable host. */
  type ProbeResult = r: PingResult | r.reachable || r.latency.None?
    witness PingResult(false, None)

  // ---------------------------------------------------------------------
  // Character classes of the two patterns
  // ---------------------------------------------------------------------

  /** `\d`, restricted to the ASCII digits. */
  predicate IsDigit(c: char) {
    '0' <= c <= '9'
  }

  /** `\s` of a `str` pattern: the characters Python's `str.isspace` accepts. */
  predicate IsSpace(c: char) {
    (9 <= c as int <= 13) || (28 <= c as int <= 32) || c as int == 0x85 || c as int == 0xA0
    || c as int == 0x1680 || (0x2000 <= c as int <= 0x200A) || c as int == 0x2028
    || c as int == 0x2029 || c as int == 0x202F || c as int == 0x205F || c as int == 0x3000
  }

  datatype CharClass = Space | Digit | DigitOrDot

  predicate InClass(c: char, k: CharClass) {
    match k
    case Space => IsSpace(c)
    case Digit => IsDigit(c)
    case DigitOrDot => IsDigit(c) || c == '.'
  }

  /**
   * Input character `c` matches the lower-case pattern character `l` under
   * `re.IGNORECASE`: itself, its ASCII capital, or one of the four non-ASCII
   * letters Python lets stand for an ASCII letter.
   */
  predicate FoldsTo(c: char, l: char) {
    c == l
    || ('a' <= l <= 'z' && c as int + 32 == l as int)
    || (l == 'i' && (c == '\U{0130}' || c == '\U{0131}'))
    || (l == 's' && c == '\U{017F}')
    || (l == 'k' && c == '\U{212A}')
  }

  /** `s` holds, from position `i`, the lower-case literal `lit`, ignoring case. */
  predicate LiteralAt(s: string, i: nat, lit: string) {
    i + |lit| <= |s| && forall k :: 0 <= k < |lit| ==> FoldsTo(s[i + k], lit[k])
  }

  /** End of the longest run of class `k` that starts at `i`. */
  function Span(s: string, i: nat, k: CharClass): (j: nat)
    requires i <= |s|
    ensures i <= j <= |s|
    ensures forall m :: i <= m < j ==> InClass(s[m], k)
    ensures j == |s| || !InClass(s[j], k)
    decreases |s| - i
  {
    if i < |s| && InClass(s[i], k) then Span(s, i + 1, k) else i
  }

  // ---------------------------------------------------------------------
  // The two patterns: a deterministic matcher at one position ...
  // ---------------------------------------------------------------------

  datatype Pattern =
    | TimePattern     // time[=<]\s*([\d.]+)\s*ms
    | AveragePattern  // Average = (\d+)ms

  /** The text captured by `time[=<]\s*([\d.]+)\s*ms` when it matches from `i`. */
  function MatchTimeAt(s: string, i: nat): (g: Option<string>)
    requires i <= |s|
    ensures g.Some? ==> g.value != [] && forall m :: 0 <= m < |g.value| ==> InClass(g.value[m], DigitOrDot)
  {
    if LiteralAt(s, i, "time") && i + 4 < |s| && (s[i + 4] == '=' || s[i + 4] == '<') then
      var k1 := Span(s, i + 5, Space);
      var k2 := Span(s, k1, DigitOrDot);
      var k3 := Span(s, k2, Space);
      if k1 < k2 && LiteralAt(s, k3, "ms") then Some(s[k1..k2]) else None
    else None
  }

  /** The text captured by `Average = (\d+)ms` when it matches from `i`. */
  function MatchAverageAt(s: string, i: nat): (g: Option<string>)
    requires i <= |s|
    ensures g.Some? ==> g.value != [] && AllDigits(g.value)
  {
    if LiteralAt(s, i, "average = ") then
      var k := Span(s, i + 10, Digit);
      if i + 10 < k && LiteralAt(s, k, "ms") then Some(s[i + 10..k]) else None
    else None
  }

  /** The text captured by group 1 when `p` matches starting at position `i`. */
  function MatchAt(p: Pattern, s: string, i: nat): (g: Option<string>)
    requires i <= |s|
    ensures g.Some? ==> g.value != [] && forall m :: 0 <= m < |g.value| ==> IsDigit(g.value[m]) || g.value[m] == '.'
  {
    match p
    case TimePattern => MatchTimeAt(s, i)
    case AveragePattern => MatchAverageAt(s, i)
  }

  // ---------------------------------------------------------------------
  // ... and the regular-expression meaning it must agree with
  // ---------------------------------------------------------------------

  /**
   * `time[=<]\s*([\d.]+)\s*ms` matches from `i`, with the first `\s*` ending
   * at `k1`, the group at `k2` and the second `\s*` at `k3`.
   */
  ghost predicate TimeSplit(s: string, i: nat, k1: nat, k2: nat, k3: nat) {
    i + 5 <= k1 < k2 <= k3 && LiteralAt(s, k3, "ms") && LiteralAt(s, i, "time")
    && (s[i + 4] == '=' || s[i + 4] == '<')
    && (forall m :: i + 5 <= m < k1 ==> IsSpace(s[m]))
    && (forall m :: k1 <= m < k2 ==> IsDigit(s[m]) || s[m] == '.')
    && (forall m :: k2 <= m < k3 ==> IsSpace(s[m]))
  }

  /** `Average = (\d+)ms` matches from `i`, with the group ending at `k`. */
  ghost predicate AverageSplit(s: string, i: nat, k: nat) {
    i + 10 < k && LiteralAt(s, i, "average = ") && LiteralAt(s, k, "ms")
    && (forall m :: i + 10 <= m < k ==> IsDigit(s[m]))
  }

  /** Some way of matching `p` from position `i` captures `g`. */
  ghost predicate RegexMatchAt(p: Pattern, s: string, i: nat, g: string) {
    match p
    case TimePattern => exists k1: nat, k2: nat, k3: nat :: TimeSplit(s, i, k1, k2, k3) && g == s[k1..k2]
    case AveragePattern => exists k: nat :: AverageSplit(s, i, k) && g == s[i + 10..k]
  }

  lemma LiteralHead(s: string, i: nat, lit: string)
    requires LiteralAt(s, i, lit) && lit != []
    ensures FoldsTo(s[i], lit[0])
  {
    assert s[i + 0] == s[i];
  }

  lemma TimeSplitIsMaximal(s: string, i: nat, k1: nat, k2: nat, k3: nat)
    requires TimeSplit(s, i, k1, k2, k3)
    ensures k1 == Span(s, i + 5, Space)
    ensures k2 == Span(s, k1, DigitOrDot)
    ensures k3 == Span(s, k2, Space)
  {
    LiteralHead(s, k3, "ms");
    var j1 := Span(s, i + 5, Space);
    var j2 := Span(s, k1, DigitOrDot);
    var j3 := Span(s, k2, Space);
  }

  lemma AverageSplitIsMaximal(s: string, i: nat, k: nat)
    requires AverageSplit(s, i, k)
    ensures k == Span(s, i + 10, Digit)
  {
    LiteralHead(s, k, "ms");
    var j := Span(s, i + 10, Digit);
  }

  /**
   * The deterministic matcher finds exactly the regular expression's
   * capture: at one position a pattern captures at most one text, so
   * backtracking never yields a second, different match.
   */
  lemma MatchAtIsRegexMatch(p: Pattern, s: string, i: nat, g: string)
    requires i <= |s|
    ensures MatchAt(p, s, i) == Some(g) <==> RegexMatchAt(p, s, i, g)
  {
    match p
    case TimePattern =>
      if MatchAt(p, s, i) == Some(g) {
        var k1 := Span(s, i + 5, Space);
        var k2 := Span(s, k1, DigitOrDot);
        var k3 := Span(s, k2, Space);
        assert TimeSplit(s, i, k1, k2, k3);
      }
      if RegexMatchAt(p, s, i, g) {
        var k1: nat, k2: nat, k3: nat :| TimeSplit(s, i, k1, k2, k3) && g == s[k1..k2];
        TimeSplitIsMaximal(s, i, k1, k2, k3);
      }
    case AveragePattern =>
      if MatchAt(p, s, i) == Some(g) {
        var k := Span(s, i + 10, Digit);
        assert AverageSplit(s, i, k);
      }
      if RegexMatchAt(p, s, i, g) {
        var k: nat :| AverageSplit(s, i, k) && g == s[i + 10..k];
        AverageSplitIsMaximal(s, i, k);
      }
  }

  // ---------------------------------------------------------------------
  // re.search: the leftmost position at which the pattern matches
  // ---------------------------------------------------------------------

  datatype Found = Found(pos: nat, group: string)

  /** The leftmost match of `p` in `s` at or after `from`. */
  function Search(p: Pattern, s: string, from: nat): (r: Option<Found>)
    requires from <= |s|
    ensures r.Some? ==> from <= r.value.pos <= |s| && MatchAt(p, s, r.value.pos) == Some(r.value.group)
    ensures r.Some? ==> forall j :: from <= j < r.value.pos ==> MatchAt(p, s, j).None?
    ensures r.None? ==> forall j :: from <= j <= |s| ==> MatchAt(p, s, j).None?
    decreases |s| - from
  {
    var m := MatchAt(p, s, from);
    if m.Some? then Some(Found(from, m.value))
    else if from == |s| then None
    else
      var r := Search(p, s, from + 1);
      assert r.Some? ==> forall j :: from <= j < r.value.pos ==> j == from || MatchAt(p, s, j).None?;
      r
  }

  /** `g` is what the leftmost match of `p` in `s`, found at `i`, captures. */
  ghost predicate LeftmostMatch(p: Pattern, s: string, i: nat, g: string) {
    i <= |s| && RegexMatchAt(p, s, i, g)
    && forall j: nat, h :: 0 <= j < i ==> !RegexMatchAt(p, s, j, h)
  }

  /** `p` matches nowhere in `s`. */
  ghost predicate NoMatch(p: Pattern, s: string) {
    forall j: nat, h :: 0 <= j <= |s| ==> !RegexMatchAt(p, s, j, h)
  }

  /** `Search` from the start is `re.search`: it returns the leftmost match, or none when there is none. */
  lemma SearchIsLeftmost(p: Pattern, s: string)
    ensures forall i, g :: Search(p, s, 0) == Some(Found(i, g)) <==> LeftmostMatch(p, s, i, g)
    ensures Search(p, s, 0).None? <==> NoMatch(p, s)
  {
    var r := Search(p, s, 0);
    assert r.Some? ==> LeftmostMatch(p, s, r.value.pos, r.value.group) by {
      if r.Some? {
        MatchAtIsRegexMatch(p, s, r.value.pos, r.value.group);
        forall j: nat, h | 0 <= j < r.value.pos ensures !RegexMatchAt(p, s, j, h) {
          MatchAtIsRegexMatch(p, s, j, h);
        }
      }
    }
    assert r.None? ==> NoMatch(p, s) by {
      if r.None? {
        forall j: nat, h | 0 <= j <= |s| ensures !RegexMatchAt(p, s, j, h) {
          MatchAtIsRegexMatch(p, s, j, h);
        }
      }
    }
    forall i: nat, g | LeftmostMatch(p, s, i, g) ensures r == Some(Found(i, g)) {
      MatchAtIsRegexMatch(p, s, i, g);
    }
  }

  // ---------------------------------------------------------------------
  // float() on a captured group
  // ---------------------------------------------------------------------

  predicate AllDigits(s: string) {
    forall m :: 0 <= m < |s| ==> IsDigit(s[m])
  }

  /** The value of one decimal digit (other characters never reach here). */
  function DigitValue(c: char): nat {
    if IsDigit(c) then c as int - '0' as int else 0
  }

  /** The natural number a string of decimal digits denotes. */
  function DigitsValue(s: string): nat {
    if s == [] then 0 else 10 * DigitsValue(s[..|s| - 1]) + DigitValue(s[|s| - 1])
  }

  function Pow10(n: nat): (r: nat)
    ensures r > 0
  {
    if n == 0 then 1 else 10 * Pow10(n - 1)
  }

  /** Index of the first '.' in `s`, which must contain one. */
  function FirstDot(s: string): (d: nat)
    requires '.' in s
    ensures d < |s| && s[d] == '.' && '.' !in s[..d]
  {
    if s[0] == '.' then 0 else FirstDot(s[1..]) + 1
  }

  /**
   * `float(g)` for a text captured by `[\d.]+` or `\d+`: `None` where
   * Python raises ValueError (no digit at all, or more than one dot).
   */
  function ParseFloat(g: string): (r: Option<real>)
    requires forall m :: 0 <= m < |g| ==> IsDigit(g[m]) || g[m] == '.'
    ensures r.Some? ==> r.value >= 0.0
  {
    if '.' !in g then
      if g == [] then None else Some(DigitsValue(g) as real)
    else
      var d := FirstDot(g);
      var whole, frac := g[..d], g[d + 1..];
      if '.' in frac || |whole| + |frac| == 0 then None
      else Some(DecimalValue(whole, frac))
  }

  /** The number written `whole.frac`. */
  function DecimalValue(whole: string, frac: string): real
  {
    DigitsValue(whole) as real + FractionValue(frac)
  }

  /** The value of the digits after the dot: `0.frac`. */
  function FractionValue(frac: string): real {
    DigitsValue(frac) as real / Pow10(|frac|) as real
  }

  /** What Python's float literal grammar accepts among texts of digits and dots. */
  ghost predicate IsFloatLiteral(g: string) {
    (g != [] && AllDigits(g))
    || exists d :: 0 <= d < |g| && g[d] == '.' && |g| > 1 && AllDigits(g[..d]) && AllDigits(g[d + 1..])
  }

  lemma NoDotInDigits(s: string)
    requires AllDigits(s)
    ensures '.' !in s
  {
  }

  /** `ParseFloat` succeeds exactly on the texts Python's float grammar accepts. */
  lemma ParseFloatAcceptsLiterals(g: string)
    requires forall m :: 0 <= m < |g| ==> IsDigit(g[m]) || g[m] == '.'
    ensures ParseFloat(g).Some? <==> IsFloatLiteral(g)
  {
    if '.' in g {
      var d := FirstDot(g);
      var whole, frac := g[..d], g[d + 1..];
      assert !AllDigits(g) by { assert !IsDigit(g[d]); }
      if IsFloatLiteral(g) {
        var e :| 0 <= e < |g| && g[e] == '.' && |g| > 1 && AllDigits(g[..e]) && AllDigits(g[e + 1..]);
        NoDotInDigits(g[..e]);
        assert e == d;
        NoDotInDigits(frac);
      }
      if ParseFloat(g).Some? {
        assert AllDigits(whole) by {
          forall m | 0 <= m < |whole| ensures IsDigit(whole[m]) {
            assert whole[m] in whole;
          }
        }
        assert AllDigits(frac) by {
          forall m | 0 <= m < |frac| ensures IsDigit(frac[m]) {
            assert frac[m] in frac;
          }
        }
      }
    } else {
      assert g != [] ==> AllDigits(g) by {
        forall m | 0 <= m < |g| ensures IsDigit(g[m]) {
          assert g[m] in g;
        }
      }
    }
  }

  /** A run of `\d+` always converts: the Windows average is never lost to float(). */
  lemma DigitsParse(g: string)
    requires g != [] && AllDigits(g)
    ensures ParseFloat(g) == Some(DigitsValue(g) as real)
  {
    NoDotInDigits(g);
  }

  // ---------------------------------------------------------------------
  // Rendering numbers, the inverse of the parsing above
  // ---------------------------------------------------------------------

  /** The decimal digits of `n`, without leading zeros ("0" for zero). */
  function Digits(n: nat): (s: string)
    ensures s != [] && AllDigits(s)
    decreases n
  {
    if n < 10 then [('0' as int + n) as char] else Digits(n / 10) + [('0' as int + n % 10) as char]
  }

  lemma {:induction false} DigitsRoundTrip(n: nat)
    ensures DigitsValue(Digits(n)) == n
    decreases n
  {
    var s := Digits(n);
    if n >= 10 {
      DigitsRoundTrip(n / 10);
      assert s[..|s| - 1] == Digits(n / 10);
    }
  }

  lemma {:induction false} FirstDotSkipsDigits(w: string, t: string)
    requires AllDigits(w) && '.' in t
    ensures FirstDot(w + t) == |w| + FirstDot(t)
  {
    if w != [] {
      assert (w + t)[0] == w[0] && IsDigit(w[0]);
      assert AllDigits(w[1..]) by {
        forall m | 0 <= m < |w| - 1 ensures IsDigit(w[1..][m]) {
          assert w[1..][m] == w[m + 1];
        }
      }
      assert (w + t)[1..] == w[1..] + t;
      FirstDotSkipsDigits(w[1..], t);
    } else {
      assert w + t == t;
    }
  }

  /** A number as ping prints it: the digits of `whole`, a dot, then the fraction digits `frac`. */
  function RenderFixed(whole: nat, frac: string): string
    requires AllDigits(frac)
  {
    Digits(whole) + "." + frac
  }

  /** float() of a text with one dot reads the digits on either side of it. */
  lemma ParseDotted(w: string, frac: string)
    requires AllDigits(w) && AllDigits(frac) && (w != [] || frac != [])
    ensures ParseFloat(w + "." + frac) == Some(DecimalValue(w, frac))
  {
    var g := w + "." + frac;
    assert g == w + ("." + frac);
    FirstDotSkipsDigits(w, "." + frac);
    assert FirstDot(g) == |w|;
    assert g[..|w|] == w && g[|w| + 1..] == frac;
    NoDotInDigits(frac);
  }

  /** float() reads back exactly the number that was rendered. */
  lemma ParseRendered(whole: nat, frac: string)
    requires AllDigits(frac)
    ensures ParseFloat(RenderFixed(whole, frac)) == Some(whole as real + FractionValue(frac))
  {
    DigitsRoundTrip(whole);
    ParseDotted(Digits(whole), frac);
    assert DecimalValue(Digits(whole), frac) == whole as real + FractionValue(frac);
  }

  // ---------------------------------------------------------------------
  // ping_latency, once the subprocess has run
  // ---------------------------------------------------------------------

  /** The `(reachable, latency)` pair `ping_latency` returns for a probe outcome. */
  function InterpretProbe(o: ProbeOutcome): (r: ProbeResult)
    ensures r.reachable <==> o.Exited? && o.returnCode == 0
    ensures !r.reachable ==> r.latency.None?
    ensures r.latency.Some? ==> r.latency.value >= 0.0
  {
    match o
    case Raised => PingResult(false, None)
    case Exited(code, stdout, stderr) =>
      if code != 0 then PingResult(false, None)
      else
        var out := stdout + stderr;
        var m := match Search(TimePattern, out, 0)
                 case Some(f) => Some(f)
                 case None => Search(AveragePattern, out, 0);
        match m
        case None => PingResult(true, None)
        case Some(f) =>
          PingResult(true, ParseFloat(f.group))
  }

  /** The text a match of the time pattern captures: digits and dots only. */
  predicate DecimalText(g: string) {
    forall m :: 0 <= m < |g| ==> IsDigit(g[m]) || g[m] == '.'
  }

  lemma RegexCaptureIsDecimalText(p: Pattern, s: string, i: nat, g: string)
    requires i <= |s| && RegexMatchAt(p, s, i, g)
    ensures DecimalText(g)
  {
    MatchAtIsRegexMatch(p, s, i, g);
  }

  /**
   * With return code 0, the leftmost `time=`/`time<` match decides the
   * latency: its text is converted by float(), and when float() rejects it
   * the result is reachable without a latency.  The Windows average is not
   * consulted, whether or not it would match.
   */
  lemma TimePatternTakesPrecedence(o: ProbeOutcome, i: nat, g: string)
    requires o.Exited? && o.returnCode == 0
    requires LeftmostMatch(TimePattern, o.stdout + o.stderr, i, g)
    ensures DecimalText(g) && InterpretProbe(o) == PingResult(true, ParseFloat(g))
    ensures InterpretProbe(o).latency.Some? <==> IsFloatLiteral(g)
  {
    var out := o.stdout + o.stderr;
    SearchIsLeftmost(TimePattern, out);
    RegexCaptureIsDecimalText(TimePattern, out, i, g);
    ParseFloatAcceptsLiterals(g);
  }

  /**
   * With return code 0 and no time match anywhere, the leftmost
   * `Average = Nms` match gives the latency, which always converts.
   */
  lemma AverageIsTheFallback(o: ProbeOutcome, i: nat, g: string)
    requires o.Exited? && o.returnCode == 0
    requires NoMatch(TimePattern, o.stdout + o.stderr)
    requires LeftmostMatch(AveragePattern, o.stdout + o.stderr, i, g)
    ensures AllDigits(g) && InterpretProbe(o) == PingResult(true, Some(DigitsValue(g) as real))
  {
    var out := o.stdout + o.stderr;
    SearchIsLeftmost(TimePattern, out);
    SearchIsLeftmost(AveragePattern, out);
    assert MatchAverageAt(out, i) == Some(g);
    DigitsParse(g);
  }

  /** Success without a recognisable latency is still success: `(True, None)`, never a failure. */
  lemma NoPatternMeansNoLatency(o: ProbeOutcome)
    requires o.Exited? && o.returnCode == 0
    requires NoMatch(TimePattern, o.stdout + o.stderr) && NoMatch(AveragePattern, o.stdout + o.stderr)
    ensures InterpretProbe(o) == PingResult(true, None)
  {
    SearchIsLeftmost(TimePattern, o.stdout + o.stderr);
    SearchIsLeftmost(AveragePattern, o.stdout + o.stderr);
  }

  /** The time pattern finds `23.4` at the start of `time=23.4 ms`. */
  lemma ReplyLineMatch()
    ensures Search(TimePattern, "time=23.4 ms", 0) == Some(Found(0, "23.4"))
  {
    var out := "time=23.4 ms";
    assert LiteralAt(out, 0, "time");
    assert Span(out, 5, Space) == 5;
    assert Span(out, 9, Space) == 10;
    assert Span(out, 5, DigitOrDot) == 9;
    assert LiteralAt(out, 10, "ms");
    assert out[4] == '=' && out[5..9] == "23.4";
  }

  /** float("23.4") is 23.4. */
  lemma ParseExample()
    ensures ParseFloat("23.4") == Some(23.4)
  {
    assert "23.4" == "23" + "." + "4";
    ParseDotted("23", "4");
    assert "23"[..1] == "2" && "2"[..0] == [];
    assert DigitsValue("23") == 23;
    assert "4"[..0] == [];
    assert FractionValue("4") == 0.4;
  }

  /** A reply line `time=23.4 ms` yields `(True, 23.4)`. */
  lemma ReplyLineExample()
    ensures InterpretProbe(Exited(0, "time=23.4 ms", "")) == PingResult(true, Some(23.4))
  {
    assert "time=23.4 ms" + "" == "time=23.4 ms";
    ReplyLineMatch();
    ParseExample();
  }

  /** The time pattern captures all of `1.2.3` in `time=1.2.3ms`. */
  lemma MalformedTimeMatch()
    ensures Search(TimePattern, "time=1.2.3ms", 0) == Some(Found(0, "1.2.3"))
  {
    var out := "time=1.2.3ms";
    assert LiteralAt(out, 0, "time");
    assert Span(out, 5, Space) == 5;
    assert Span(out, 10, Space) == 10;
    assert Span(out, 5, DigitOrDot) == 10;
    assert LiteralAt(out, 10, "ms");
    assert out[4] == '=' && out[5..10] == "1.2.3";
  }

  /** float("1.2.3") raises: a second dot after the first. */
  lemma TwoDotsRejected()
    ensures ParseFloat("1.2.3") == None
  {
    assert FirstDot("1.2.3") == 1;
    assert "1.2.3"[2..][1] == '.';
  }

  /** A reply line whose time is `1.2.3` is reachable without a latency. */
  lemma MalformedTimeExample()
    ensures InterpretProbe(Exited(0, "time=1.2.3ms", "")) == PingResult(true, None)
  {
    assert "time=1.2.3ms" + "" == "time=1.2.3ms";
    MalformedTimeMatch();
    TwoDotsRejected();
  }
}
