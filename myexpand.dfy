/** myexpand (myexpand/myexpand.c): copies its input to its output with every tab
    replaced by enough spaces to reach the next tab stop. The streams are modelled
    as character sequences: the input is everything fgetc returns before EOF, and
    the output is the concatenation of what fprintf writes. */
module MyExpand {
  import opened CStrings

  /** The default tab stop (myexpand.c:26). */
  const DEFAULT_TABSTOP: nat := 8

  /** LONG_MAX on an LP64 platform: strtol clamps larger values to it. */
  const LONG_MAX: nat := 0x7FFF_FFFF_FFFF_FFFF

  /** INT_MAX: the largest value the `(int)` cast keeps unchanged. */
  const INT_MAX: nat := 0x7FFF_FFFF

  /** `unsigned int` holds values modulo 2^32. */
  const UINT_MODULUS: nat := 0x1_0000_0000

  // ---------------------------------------------------------------------------
  // The -t option

  /** The strings digits_only accepts: not starting with '0', and made of decimal
      digits only (the empty string is accepted). */
  predicate DigitsOnlyAccepts(s: string) {
    (s == [] || s[0] != '0') && AllDigits(s)
  }

  /** digits_only (myexpand.c:48-55): 0 for a string starting with '0'; otherwise
      1 exactly when every character is a decimal digit, so "" gives 1. */
  method DigitsOnly(s: string) returns (r: int)
    ensures r == 0 || r == 1
    ensures |s| > 0 && s[0] == '0' ==> r == 0
    ensures (|s| == 0 || s[0] != '0') ==> (r == 1 <==> AllDigits(s))
    ensures r == 1 <==> DigitsOnlyAccepts(s)
  {
    if |s| > 0 && s[0] == '0' {
      return 0;
    }
    var i := 0;
    while i < |s|
      invariant 0 <= i <= |s|
      invariant AllDigits(s[..i])
    {
      if '0' <= s[i] <= '9' {
        assert s[..i + 1] == s[..i] + [s[i]];
        i := i + 1;
      } else {
        assert !IsDigit(s[i]);
        return 0;
      }
    }
    assert s[..i] == s;
    return 1;
  }

  /** `tabstop = (int) strtol(optarg, NULL, 0)` (myexpand.c:121) on a string
      digits_only accepted: no leading '0' or "0x", so the base is 10; the value is
      clamped to LONG_MAX, and the casts to int and then to the unsigned global keep
      it modulo 2^32. */
  function TabstopValue(arg: string): (t: nat)
    requires AllDigits(arg)
    ensures t < UINT_MODULUS
    ensures DecimalValue(arg) < UINT_MODULUS ==> t == DecimalValue(arg)
  {
    (if DecimalValue(arg) > LONG_MAX then LONG_MAX else DecimalValue(arg)) % UINT_MODULUS
  }

  /** The -t case of the option loop as written (myexpand.c:119-125): None when
      the program exits with EXIT_FAILURE, otherwise the new tab stop. */
  function TabstopOptionAsWritten(arg: string): (r: Option<nat>)
    ensures r.Some? <==> DigitsOnlyAccepts(arg)
    ensures r.Some? ==> r.value == TabstopValue(arg)
  {
    if DigitsOnlyAccepts(arg) then Some(TabstopValue(arg)) else None
  }

  /** As written, `-t ""` is accepted and leaves the tab stop at 0, so the first
      tab makes `x % tabstop` divide by zero. */
  lemma AsWrittenAcceptsEmptyTabstop()
    ensures TabstopOptionAsWritten("") == Some(0)
  {
  }

  /** As written, every multiple of 2^32 up to LONG_MAX (4294967296 is the first)
      is accepted and also leaves the tab stop at 0. */
  lemma AsWrittenAcceptsWrappingTabstop(n: nat)
    requires 0 < n <= LONG_MAX && n % UINT_MODULUS == 0
    ensures TabstopOptionAsWritten(DecimalString(n)) == Some(0)
  {
    var s := DecimalString(n);
    DecimalRoundTrip(n);
    assert s == DecimalString(n / 10) + [DigitChar(n % 10)];
    assert |s| > 1;
  }

  /** The evidently intended check: a non-empty run of digits without a leading
      zero whose value fits the int cast. */
  predicate TabstopArgValid(s: string) {
    s != [] && s[0] != '0' && AllDigits(s) && DecimalValue(s) <= INT_MAX
  }

  /** The -t case with the intended check: every tab stop it yields is the number
      written and is at least 1. */
  function TabstopOption(arg: string): (r: Option<nat>)
    ensures r.Some? <==> TabstopArgValid(arg)
    ensures r.Some? ==> r.value == DecimalValue(arg) && r.value >= 1
  {
    if TabstopArgValid(arg) then
      LeadingDigitPositive(arg);
      Some(TabstopValue(arg))
    else None
  }

  /** A digit string not starting with '0' has a value of at least 1. */
  lemma {:induction false} LeadingDigitPositive(s: string)
    requires s != [] && s[0] != '0' && AllDigits(s)
    ensures DecimalValue(s) >= 1
  {
    if |s| > 1 {
      var p := s[..|s| - 1];
      assert p[0] == s[0];
      assert forall i :: 0 <= i < |p| ==> p[i] == s[i];
      LeadingDigitPositive(p);
    }
  }

  // ---------------------------------------------------------------------------
  // The expansion

  /** The number of spaces a tab emits at column x. */
  function TabWidth(x: nat, tabstop: nat): (w: nat)
    requires tabstop > 0
    ensures 1 <= w <= tabstop
    ensures (x + w) % tabstop == 0
  {
    var w := tabstop - x % tabstop;
    AlignMod(x, x, tabstop);
    w
  }

  lemma {:induction false} MulAtLeast(d: int, t: int)
    requires d >= 1 && t > 0
    ensures d * t >= t
    decreases d
  {
    if d > 1 {
      MulAtLeast(d - 1, t);
      assert d * t == (d - 1) * t + t;
    }
  }

  /** The only multiple of t strictly between -t and t is 0. */
  lemma SmallMultiple(d: int, t: int)
    requires t > 0 && -t < d * t < t
    ensures d == 0
  {
    if d >= 1 {
      MulAtLeast(d, t);
      assert false;
    } else if d <= -1 {
      assert (-d) * t == -(d * t);
      MulAtLeast(-d, t);
      assert false;
    }
  }

  /** Division with remainder is unique. */
  lemma ModUnique(a: int, t: int, q: int, r: int)
    requires t > 0 && a == q * t + r && 0 <= r < t
    ensures a % t == r
  {
    var q', r' := a / t, a % t;
    assert a == q' * t + r';
    assert (q - q') * t == r' - r;
    SmallMultiple(q - q', t);
  }

  /** Two numbers congruent modulo t both reach a multiple of t after the padding
      computed from one of them. */
  lemma AlignMod(c: int, x: nat, t: nat)
    requires t > 0 && c % t == x % t
    ensures (c + (t - x % t)) % t == 0
  {
    var q := c / t;
    assert c == q * t + c % t;
    assert (q + 1) * t == q * t + t;
    ModUnique(c + (t - x % t), t, q + 1, 0);
  }

  /** Congruence modulo t survives adding one to both sides. */
  lemma ModSucc(a: int, b: int, t: nat)
    requires t > 0 && a % t == b % t
    ensures (a + 1) % t == (b + 1) % t
  {
    var r := a % t;
    assert a == (a / t) * t + r && b == (b / t) * t + r;
    if r + 1 < t {
      ModUnique(a + 1, t, a / t, r + 1);
      ModUnique(b + 1, t, b / t, r + 1);
    } else {
      assert (a / t + 1) * t == (a / t) * t + t;
      assert (b / t + 1) * t == (b / t) * t + t;
      ModUnique(a + 1, t, a / t + 1, 0);
      ModUnique(b + 1, t, b / t + 1, 0);
    }
  }

  function Spaces(n: nat): (s: string)
    ensures |s| == n && forall i :: 0 <= i < n ==> s[i] == ' '
  {
    seq(n, _ => ' ')
  }

  /** One pass of myexpand's loop (myexpand.c:83-95) on character c with output
      `out` and column counter x so far: a tab emits TabWidth spaces and resets x, a
      newline is copied and resets x, any other character is copied and advances x. */
  function Step(out: string, x: nat, c: char, tabstop: nat): (string, nat)
    requires tabstop > 0
  {
    if c == '\t' then (out + Spaces(TabWidth(x, tabstop)), 0)
    else if c == '\n' then (out + "\n", 0)
    else (out + [c], x + 1)
  }

  /** What myexpand has written and the value of x after reading `input`
      (myexpand.c:82-96). */
  function ExpandState(input: string, tabstop: nat): (string, nat)
    requires tabstop > 0
    decreases |input|
  {
    if input == [] then ([], 0)
    else
      var r := ExpandState(input[..|input| - 1], tabstop);
      Step(r.0, r.1, input[|input| - 1], tabstop)
  }

  /** myexpand(in_fp, out_fp) (myexpand.c:79-98): the expansion of the input,
      followed by one newline when the destination is stdout. */
  method MyExpandStream(input: string, tabstop: nat, toStdout: bool) returns (out: string)
    requires tabstop > 0
    ensures out == ExpandState(input, tabstop).0 + (if toStdout then "\n" else "")
  {
    out := [];
    var x: nat := 0;
    var i := 0;
    while i < |input|
      invariant 0 <= i <= |input|
      invariant (out, x) == ExpandState(input[..i], tabstop)
    {
      var c := input[i];
      assert input[..i + 1][..i] == input[..i];
      if c == '\t' {
        var p := x % tabstop;
        x := 0;
        ghost var before := out;
        var j := 0;
        while j < tabstop - p
          invariant 0 <= j <= tabstop - p
          invariant out == before + Spaces(j)
        {
          out := out + " ";
          j := j + 1;
        }
      } else if c == '\n' {
        x := 0;
        out := out + "\n";
      } else {
        out := out + [c];
        x := x + 1;
      }
      i := i + 1;
    }
    assert input[..i] == input;
    if toStdout {
      out := out + "\n";
    }
  }

  // ---------------------------------------------------------------------------
  // What the expansion guarantees

  /** The column the next character written lands in: the characters written
      since the last newline. */
  function Column(out: string): (k: nat)
    ensures k <= |out|
    decreases |out|
  {
    if out == [] then 0
    else if out[|out| - 1] == '\n' then 0
    else Column(out[..|out| - 1]) + 1
  }

  lemma {:induction false} ColumnAfterSpaces(out: string, n: nat)
    ensures Column(out + Spaces(n)) == Column(out) + n
    decreases n
  {
    if n > 0 {
      var s := out + Spaces(n);
      assert s[|s| - 1] == ' ';
      assert s[..|s| - 1] == out + Spaces(n - 1);
      assert Column(s) == Column(s[..|s| - 1]) + 1;
      ColumnAfterSpaces(out, n - 1);
    } else {
      assert out + Spaces(n) == out;
    }
  }

  /** One step keeps x congruent to the output column modulo the tab stop, and a
      tab leaves the column on a tab stop. */
  lemma StepTracksColumn(out: string, x: nat, c: char, tabstop: nat)
    requires tabstop > 0 && x % tabstop == Column(out) % tabstop
    ensures Step(out, x, c, tabstop).1 % tabstop == Column(Step(out, x, c, tabstop).0) % tabstop
    ensures c == '\t' ==> Column(Step(out, x, c, tabstop).0) % tabstop == 0
  {
    if c == '\t' {
      ColumnAfterSpaces(out, TabWidth(x, tabstop));
      AlignMod(Column(out), x, tabstop);
    } else if c == '\n' {
      assert (out + "\n")[|out|] == '\n';
    } else {
      assert (out + [c])[..|out|] == out;
      ModSucc(x, Column(out), tabstop);
    }
  }

  /** x is the output column modulo the tab stop after any prefix of the input. */
  lemma {:induction false} ColumnTracksX(input: string, tabstop: nat)
    requires tabstop > 0
    ensures ExpandState(input, tabstop).1 % tabstop == Column(ExpandState(input, tabstop).0) % tabstop
    decreases |input|
  {
    if input != [] {
      var p := input[..|input| - 1];
      ColumnTracksX(p, tabstop);
      var r := ExpandState(p, tabstop);
      StepTracksColumn(r.0, r.1, input[|input| - 1], tabstop);
    }
  }

  /** After every tab the output stands at a multiple of the tab stop. */
  lemma TabReachesTabStop(input: string, tabstop: nat, i: nat)
    requires tabstop > 0 && i < |input| && input[i] == '\t'
    ensures Column(ExpandState(input[..i + 1], tabstop).0) % tabstop == 0
  {
    var p := input[..i];
    assert input[..i + 1][..i] == p;
    ColumnTracksX(p, tabstop);
    var r := ExpandState(p, tabstop);
    StepTracksColumn(r.0, r.1, '\t', tabstop);
  }

  /** Input without a tab is copied unchanged, whatever the tab stop. */
  lemma {:induction false} NoTabIsVerbatim(input: string, tabstop: nat)
    requires tabstop > 0 && '\t' !in input
    ensures ExpandState(input, tabstop).0 == input
    decreases |input|
  {
    if input != [] {
      var p := input[..|input| - 1];
      assert forall c :: c in p ==> c in input;
      NoTabIsVerbatim(p, tabstop);
      assert input == p + [input[|input| - 1]];
    }
  }

  /** The expansion never shortens the text, and lengthens it by less than a tab
      stop per tab. */
  lemma {:induction false} ExpandLength(input: string, tabstop: nat)
    requires tabstop > 0
    ensures |input| <= |ExpandState(input, tabstop).0| <= |input| * tabstop
    decreases |input|
  {
    if input != [] {
      var prefix := input[..|input| - 1];
      ExpandLength(prefix, tabstop);
      var r := ExpandState(prefix, tabstop);
      StepLength(r.0, r.1, input[|input| - 1], tabstop);
      MulStep(|prefix|, tabstop);
      assert ExpandState(input, tabstop) == Step(r.0, r.1, input[|input| - 1], tabstop);
    }
  }

  lemma MulStep(n: nat, t: nat)
    ensures (n + 1) * t == n * t + t
  {
  }

  /** One step writes at least one character and at most `tabstop`. */
  lemma StepLength(out: string, x: nat, c: char, tabstop: nat)
    requires tabstop > 0
    ensures |out| + 1 <= |Step(out, x, c, tabstop).0| <= |out| + tabstop
  {
  }
}
