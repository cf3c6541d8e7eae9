/** The parts of the C string library the programs rely on, as functions over
    `string` (a C string is modelled by the characters before its NUL).
    strtok keeps its saved position in a hidden static; here the "rest" it would
    continue from is returned explicitly. */
module CStrings {

  datatype Option<+T> = None | Some(value: T)

  predicate IsDigit(c: char) {
    '0' <= c <= '9'
  }

  predicate AllDigits(s: string) {
    forall i :: 0 <= i < |s| ==> IsDigit(s[i])
  }

  /** The characters isspace accepts in the C locale. */
  const CSpace: set<char> := {' ', '\t', '\n', '\U{000B}', '\U{000C}', '\r'}

  /** strcspn: the length of the longest prefix of `s` holding no character of `d`. */
  function Span(s: string, d: set<char>): (k: nat)
    ensures k <= |s|
    ensures forall i :: 0 <= i < k ==> s[i] !in d
    ensures k < |s| ==> s[k] in d
  {
    if s == [] || s[0] in d then 0 else 1 + Span(s[1..], d)
  }

  /** What strtok skips before a token: the leading characters that are in `d`. */
  function SkipDelims(s: string, d: set<char>): (t: string)
    ensures |t| <= |s| && t == s[|s| - |t|..]
    ensures forall i :: 0 <= i < |s| - |t| ==> s[i] in d
    ensures t != [] ==> t[0] !in d
  {
    if s != [] && s[0] in d then SkipDelims(s[1..], d) else s
  }

  /** Result of one strtok call: the token (NULL is None) and the text the next
      call continues from. */
  datatype Tok = Tok(token: Option<string>, rest: string)

  /** strtok(s, d), and strtok(NULL, d) on the text a previous call left behind:
      leading delimiters are skipped, the token runs to the next delimiter, and that
      delimiter is overwritten, so the next call starts after it. */
  function StrTok(s: string, d: set<char>): (r: Tok)
    ensures r.token.None? <==> (forall i :: 0 <= i < |s| ==> s[i] in d)
    ensures r.token.None? ==> r.rest == []
    ensures r.token.Some? ==> |r.token.value| > 0 && |r.rest| < |s|
    ensures r.token.Some? ==> forall i :: 0 <= i < |r.token.value| ==> r.token.value[i] !in d
  {
    if s == [] then Tok(None, [])
    else if s[0] in d then StrTok(s[1..], d)
    else
      var k := Span(s, d);
      Tok(Some(s[..k]), if k < |s| then s[k + 1..] else [])
  }

  /** A token that starts the text and is ended by a delimiter is returned as is,
      and the text after that delimiter is what remains. */
  lemma StrTokAt(a: string, c: char, b: string, d: set<char>)
    requires |a| > 0 && c in d
    requires forall i :: 0 <= i < |a| ==> a[i] !in d
    ensures StrTok(a + [c] + b, d) == Tok(Some(a), b)
  {
    var s := a + [c] + b;
    assert s[0] == a[0];
    SpanStops(a, c, b, d);
    assert s[..|a|] == a;
    assert s[|a| + 1..] == b;
  }

  /** A token that runs to the end of the text leaves nothing behind. */
  lemma StrTokWhole(a: string, d: set<char>)
    requires |a| > 0
    requires forall i :: 0 <= i < |a| ==> a[i] !in d
    ensures StrTok(a, d) == Tok(Some(a), [])
  {
    assert a[0] !in d;
    SpanNone(a, d);
    assert a[..|a|] == a;
  }

  lemma {:induction false} SpanStops(a: string, c: char, b: string, d: set<char>)
    requires c in d
    requires forall i :: 0 <= i < |a| ==> a[i] !in d
    ensures Span(a + [c] + b, d) == |a|
  {
    if a != [] {
      assert (a + [c] + b)[1..] == a[1..] + [c] + b;
      SpanStops(a[1..], c, b, d);
    }
  }

  lemma {:induction false} SpanNone(a: string, d: set<char>)
    requires forall i :: 0 <= i < |a| ==> a[i] !in d
    ensures Span(a, d) == |a|
  {
    if a != [] {
      SpanNone(a[1..], d);
    }
  }

  /** strsep(&p, d) on a non-NULL p: the token before the first delimiter (possibly
      empty) and the text after it, or None (p becomes NULL) if there is no delimiter. */
  function StrSep(s: string, d: set<char>): (r: (string, Option<string>))
    ensures forall i :: 0 <= i < |r.0| ==> r.0[i] !in d
    ensures r.1.None? <==> (forall i :: 0 <= i < |s| ==> s[i] !in d)
    ensures r.1.None? ==> r.0 == s
    ensures r.1.Some? ==> |r.0| < |s| && s[|r.0|] in d && s == r.0 + [s[|r.0|]] + r.1.value
  {
    var k := Span(s, d);
    if k < |s| then
      assert s == s[..k] + [s[k]] + s[k + 1..];
      (s[..k], Some(s[k + 1..]))
    else (s, None)
  }

  /** strrchr(s, c) as an index: the position of the last `c`, or None (NULL). */
  function LastIndexOf(s: string, c: char): (r: Option<nat>)
    ensures r.None? <==> c !in s
    ensures r.Some? ==> r.value < |s| && s[r.value] == c &&
                        forall j :: r.value < j < |s| ==> s[j] != c
  {
    if s == [] then None
    else if s[|s| - 1] == c then Some(|s| - 1)
    else
      var p := LastIndexOf(s[..|s| - 1], c);
      assert s == s[..|s| - 1] + [s[|s| - 1]];
      p
  }

  /** The line getline(3) reads from the start of a stream holding `s`: everything up
      to and including the first newline, or all of it; None (-1) when nothing is left. */
  function FirstLine(s: string): (r: Option<string>)
    ensures r.None? <==> s == []
    ensures r.Some? ==> 0 < |r.value| <= |s| && r.value == s[..|r.value|]
    ensures r.Some? ==> forall i :: 0 <= i < |r.value| - 1 ==> r.value[i] != '\n'
    ensures r.Some? && |r.value| < |s| ==> r.value[|r.value| - 1] == '\n'
  {
    if s == [] then None
    else
      var k := Span(s, {'\n'});
      if k < |s| then Some(s[..k + 1]) else Some(s)
  }

  lemma FirstLineOf(a: string, b: string)
    requires forall i :: 0 <= i < |a| ==> a[i] != '\n'
    ensures FirstLine(a + "\n" + b) == Some(a + "\n")
  {
    SpanStops(a, '\n', b, {'\n'});
    assert (a + "\n" + b)[..|a| + 1] == a + "\n";
  }

  /** A line ending in its only newline, followed by anything, is read as that line. */
  lemma FirstLineIs(line: string, rest: string)
    requires line != [] && line[|line| - 1] == '\n'
    requires forall i :: 0 <= i < |line| - 1 ==> line[i] != '\n'
    ensures FirstLine(line + rest) == Some(line)
  {
    var a := line[..|line| - 1];
    assert line == a + "\n";
    assert line + rest == a + "\n" + rest;
    FirstLineOf(a, rest);
  }

  /** The length of the decimal digit run at the start of `s`. */
  function DigitRun(s: string): (k: nat)
    ensures k <= |s| && AllDigits(s[..k])
    ensures k < |s| ==> !IsDigit(s[k])
  {
    if s == [] || !IsDigit(s[0]) then 0
    else
      var k := 1 + DigitRun(s[1..]);
      assert forall i :: 1 <= i < k ==> s[..k][i] == s[1..][..k - 1][i - 1];
      k
  }

  /** The text strtol reads digits from: `s` after leading white space and an
      optional sign. */
  function StrtolDigits(s: string): (u: string)
    ensures |u| <= |s| && u == s[|s| - |u|..]
  {
    var t := SkipDelims(s, CSpace);
    if t != [] && (t[0] == '+' || t[0] == '-') then t[1..] else t
  }

  /** `strtol(s, NULL, 10) == 0`: the digit run after white space and an optional
      sign is empty or made of zeros only (an out-of-range value is clamped to
      LONG_MAX or LONG_MIN, which is never 0). */
  predicate StrtolIsZero(s: string) {
    forall i :: 0 <= i < DigitRun(StrtolDigits(s)) ==> StrtolDigits(s)[i] == '0'
  }

  function DigitValue(c: char): (v: nat)
    requires IsDigit(c)
    ensures v < 10
  {
    (c as int - '0' as int)
  }

  function DigitChar(v: nat): (c: char)
    requires v < 10
    ensures IsDigit(c) && DigitValue(c) == v
  {
    ('0' as int + v) as char
  }

  /** The value strtol gives a string of decimal digits (without overflow). */
  function DecimalValue(s: string): nat
    requires AllDigits(s)
  {
    if s == [] then 0
    else DecimalValue(s[..|s| - 1]) * 10 + DigitValue(s[|s| - 1])
  }

  /** printf's "%d"/"%lu" rendering of a natural number. */
  function DecimalString(n: nat): (s: string)
    ensures |s| > 0 && AllDigits(s)
    ensures |s| > 1 ==> s[0] != '0'
  {
    if n < 10 then [DigitChar(n)]
    else DecimalString(n / 10) + [DigitChar(n % 10)]
  }

  /** Reading back what printf wrote gives the number again. */
  lemma {:induction false} DecimalRoundTrip(n: nat)
    ensures DecimalValue(DecimalString(n)) == n
  {
    var s := DecimalString(n);
    if n >= 10 {
      assert s[..|s| - 1] == DecimalString(n / 10);
      DecimalRoundTrip(n / 10);
    }
  }
}
