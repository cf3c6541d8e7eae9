/** The first-line tokenisation the HTTP client and server share: the first line of
    a message is split by `strtok(line, " ")`, `strtok(NULL, " ")` and
    `strtok(NULL, "\r\n")` (ClientServer/client.c:245-247 for the status line,
    ClientServer/server.c:181-183 for the request line). */
module HttpText {
  import opened CStrings

  const Space: set<char> := {' '}
  const LineEnd: set<char> := {'\r', '\n'}

  /** The three tokens of a first line. */
  datatype Fields = Fields(first: string, second: string, third: string)

  /** The three strtok calls; None when any of them returns NULL (a NULL return
      leaves nothing for the calls after it, so they return NULL too). */
  function SplitLine(line: string): (r: Option<Fields>)
    ensures r.Some? ==> |r.value.first| > 0 && |r.value.second| > 0 && |r.value.third| > 0
    ensures r.Some? ==> forall i :: 0 <= i < |r.value.first| ==> r.value.first[i] !in Space
    ensures r.Some? ==> forall i :: 0 <= i < |r.value.second| ==> r.value.second[i] !in Space
    ensures r.Some? ==> forall i :: 0 <= i < |r.value.third| ==> r.value.third[i] !in LineEnd
  {
    var t1 := StrTok(line, Space);
    var t2 := StrTok(t1.rest, Space);
    var t3 := StrTok(t2.rest, LineEnd);
    if t1.token.None? || t2.token.None? || t3.token.None? then None
    else Some(Fields(t1.token.value, t2.token.value, t3.token.value))
  }

  /** The line "a b c\r\n". */
  function LineOf(a: string, b: string, c: string): string {
    a + " " + (b + " " + (c + "\r\n"))
  }

  /** The header line "key: value\r\n". */
  function HeaderLine(key: string, value: string): string {
    key + ": " + value + "\r\n"
  }

  /** The empty line that ends a header. */
  const BlankLine: string := "\r\n"

  /** Two literals written one after the other are their concatenation. */
  lemma JoinLiterals(a: string, b: string, ab: string, rest: string)
    requires ab == a + b
    ensures a + (b + rest) == ab + rest
  {
  }

  /** The line end of a header line followed by the header line "key: value\r\n". */
  lemma HeaderAfterLineEnd(key: string, value: string, rest: string, prefix: string)
    requires prefix == "\r\n" + key + ": "
    ensures "\r\n" + (HeaderLine(key, value) + rest) == prefix + (value + ("\r\n" + rest))
  {
  }

  /** The last header line "Connection: close\r\n" and the empty line, after a line end. */
  lemma ConnectionCloseTail()
    ensures "\r\n" + (HeaderLine("Connection", "close") + BlankLine) == "\r\nConnection: close\r\n\r\n"
  {
  }

  /** Writing three tokens as "a b c\r\n" and splitting the line gives them back. */
  lemma SplitLineOf(a: string, b: string, c: string)
    requires |a| > 0 && |b| > 0 && |c| > 0
    requires ' ' !in a && ' ' !in b && '\r' !in c && '\n' !in c
    ensures SplitLine(LineOf(a, b, c)) == Some(Fields(a, b, c))
  {
    var rest2 := c + "\r\n";
    var rest1 := b + " " + rest2;
    TokenBeforeSpace(a, rest1);
    TokenBeforeSpace(b, rest2);
    TokenBeforeLineEnd(c);
    SplitLineFromTokens(LineOf(a, b, c), a, rest1, b, rest2, c, "\n");
  }

  lemma TokenBeforeLineEnd(c: string)
    requires |c| > 0 && '\r' !in c && '\n' !in c
    ensures StrTok(c + "\r\n", LineEnd) == Tok(Some(c), "\n")
  {
    assert c + "\r\n" == c + ['\r'] + "\n";
    StrTokAt(c, '\r', "\n", LineEnd);
  }

  lemma TokenBeforeSpace(a: string, rest: string)
    requires |a| > 0 && ' ' !in a
    ensures StrTok(a + " " + rest, Space) == Tok(Some(a), rest)
  {
    assert a + " " + rest == a + [' '] + rest;
    StrTokAt(a, ' ', rest, Space);
  }

  lemma SplitLineFromTokens(line: string, a: string, rest1: string, b: string, rest2: string,
                            c: string, rest3: string)
    requires StrTok(line, Space) == Tok(Some(a), rest1)
    requires StrTok(rest1, Space) == Tok(Some(b), rest2)
    requires StrTok(rest2, LineEnd) == Tok(Some(c), rest3)
    ensures SplitLine(line) == Some(Fields(a, b, c))
  {
  }

  /** A message that starts with the line "a b c\r\n" has that line as its first
      line. */
  lemma FirstLineOfLine(a: string, b: string, c: string, rest: string)
    requires '\n' !in a && '\n' !in b && '\n' !in c
    ensures FirstLine(LineOf(a, b, c) + rest) == Some(LineOf(a, b, c))
  {
    var line := LineOf(a, b, c);
    assert forall i :: 0 <= i < |line| - 1 ==> line[i] != '\n' by {
      forall i | 0 <= i < |line| - 1
        ensures line[i] != '\n'
      {
        if i < |a| {
          assert line[i] == a[i];
        } else if i == |a| || i == |a| + |b| + 1 {
        } else if i <= |a| + |b| {
          assert line[i] == b[i - |a| - 1];
        } else if i < |a| + |b| + 2 + |c| {
          assert line[i] == c[i - |a| - |b| - 2];
        }
      }
    }
    FirstLineIs(line, rest);
  }
}
