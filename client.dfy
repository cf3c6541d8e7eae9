/** The string logic of the HTTP client (ClientServer/client.c): splitting the URL
    into host, resource and file name, the request it sends, and how it judges the
    response status line and skips the response header. */
module Client {
  import opened CStrings
  import opened HttpText

  /** client_url: the host, the local file name and the resource after the host. */
  datatype ClientUrl = ClientUrl(hostname: string, file: string, dir: string)

  const Scheme: string := "http://"
  /** The delimiters `strsep` ends the host name at. */
  const UrlDelims: set<char> := {';', '/', '?', ':', '@', '=', '&'}
  const IndexFile: string := "index.html"

  /** The local file name derived from the resource (client.c:130-141): the text from
      the last '/' on, or all of it when it has none; "" and "/" become "index.html",
      and a leading '/' is dropped. */
  function FileOf(directory: string): (f: string)
    ensures f != [] && '/' !in f
    ensures '/' !in directory ==> f == if directory == [] then IndexFile else directory
    ensures LastIndexOf(directory, '/').Some? ==>
              var p := LastIndexOf(directory, '/').value;
              f == if p == |directory| - 1 then IndexFile else directory[p + 1..]
  {
    var file := match LastIndexOf(directory, '/')
      case None => directory
      case Some(p) => directory[p..];
    var file := if file == "" || file == "/" then IndexFile else file;
    if file[0] == '/' then file[1..] else file
  }

  /** parse_url (client.c:114-152); None where the client prints the usage and exits
      because the URL does not start with "http://", and otherwise the split of the
      text after it. */
  function ParseUrl(url: string): (r: Option<ClientUrl>)
    ensures r.None? <==> !(|url| >= |Scheme| && url[..|Scheme|] == Scheme)
    ensures r.Some? ==> url == Scheme + url[|Scheme|..] && r.value == SplitUrl(url[|Scheme|..])
  {
    if |url| < |Scheme| || url[..|Scheme|] != Scheme then None
    else Some(SplitUrl(url[|Scheme|..]))
  }

  /** The split of the text after "http://" (client.c:124-151): the host name runs
      up to the first delimiter and the resource is everything after that delimiter;
      without a delimiter the resource is empty and the file is "index.html". */
  function SplitUrl(rest: string): (u: ClientUrl)
    ensures |u.hostname| <= |rest| && rest[..|u.hostname|] == u.hostname
    ensures forall i :: 0 <= i < |u.hostname| ==> u.hostname[i] !in UrlDelims
    ensures |u.hostname| == |rest| ==> u.dir == [] && u.file == IndexFile
    ensures |u.hostname| < |rest| ==>
              rest[|u.hostname|] in UrlDelims && u.dir == rest[|u.hostname| + 1..] && u.file == FileOf(u.dir)
    ensures u.file != [] && '/' !in u.file
  {
    var (host, directory) := StrSep(rest, UrlDelims);
    match directory
    case None => ClientUrl(host, IndexFile, "")
    case Some(d) =>
      assert rest == host + [rest[|host|]] + d;
      ClientUrl(host, FileOf(d), d)
  }

  /** A URL written from a host and a resource is split back into them. */
  lemma ParseUrlOf(host: string, dir: string)
    requires forall i :: 0 <= i < |host| ==> host[i] !in UrlDelims
    ensures ParseUrl(Scheme + host) == Some(ClientUrl(host, IndexFile, ""))
    ensures ParseUrl(Scheme + host + "/" + dir) == Some(ClientUrl(host, FileOf(dir), dir))
  {
    var u := Scheme + host;
    assert u[..|Scheme|] == Scheme;
    assert u[|Scheme|..] == host;
    var v := Scheme + host + "/" + dir;
    assert v[..|Scheme|] == Scheme;
    assert v[|Scheme|..] == host + ['/'] + dir;
    var rest := host + ['/'] + dir;
    SpanStops(host, '/', dir, UrlDelims);
    assert rest[..|host|] == host && rest[|host| + 1..] == dir;
    assert StrSep(rest, UrlDelims) == (host, Some(dir));
  }

  /** check_execution (client.c:81-88): the -o file and the -d directory cannot both
      be given. */
  function CheckExecution(file: Option<string>, dir: Option<string>): (ok: bool)
    ensures ok <==> !(file.Some? && dir.Some?)
  {
    file.None? || dir.None?
  }

  /** The request send_receive writes (client.c:225): "GET /<dir> HTTP/1.1\r\n",
      the hostname and Connection lines, and the empty line, written line by line. */
  function RequestText(u: ClientUrl): (t: string)
    ensures t == "GET /" + (u.dir + (" HTTP/1.1\r\nhostname: " + (u.hostname + "\r\nConnection: close\r\n\r\n")))
  {
    var t2 := HeaderLine("Connection", "close") + BlankLine;
    var t1 := HeaderLine("hostname", u.hostname) + t2;
    ConnectionCloseTail();
    HeaderAfterLineEnd("hostname", u.hostname, t2, "\r\nhostname: ");
    JoinLiterals(" HTTP/1.1", "\r\nhostname: ", " HTTP/1.1\r\nhostname: ",
                 u.hostname + "\r\nConnection: close\r\n\r\n");
    RequestLineBefore(u.dir, t1);
    LineOf("GET", "/" + u.dir, "HTTP/1.1") + t1
  }

  /** The request line "GET /<dir> HTTP/1.1\r\n" followed by the rest of the request. */
  lemma RequestLineBefore(dir: string, rest: string)
    ensures LineOf("GET", "/" + dir, "HTTP/1.1") + rest == "GET /" + (dir + (" HTTP/1.1" + ("\r\n" + rest)))
  {
    JoinLiterals("GET ", "/", "GET /", dir + (" HTTP/1.1" + ("\r\n" + rest)));
  }

  /** How send_receive ends: it goes on to read the body, or the client exits with a
      status. */
  datatype Verdict = Proceed | Exit(status: nat)

  /** The status-line checks of send_receive (client.c:238-268) on the response
      stream: exit 2 when no line can be read, when a token is missing, when the
      version is not "HTTP/1.1" or when strtol reads the code as 0 although it is not
      "0"; exit 3 for any code other than "200". */
  function CheckStatusLine(response: string): (v: Verdict)
    ensures v == Proceed || v == Exit(2) || v == Exit(3)
    ensures response == [] ==> v == Exit(2)
    ensures v != Exit(2) ==>
              FirstLine(response).Some? && SplitLine(FirstLine(response).value).Some? &&
              SplitLine(FirstLine(response).value).value.first == "HTTP/1.1"
    ensures v == Proceed ==> SplitLine(FirstLine(response).value).value.second == "200"
  {
    match FirstLine(response)
    case None => Exit(2)
    case Some(line) =>
      match SplitLine(line)
      case None => Exit(2)
      case Some(f) => StatusVerdict(f)
  }

  /** The checks of client.c:256-268 on the three tokens of a status line. */
  function StatusVerdict(f: Fields): (v: Verdict)
    ensures v == Proceed <==> f.first == "HTTP/1.1" && f.second == "200"
    ensures v == Exit(3) <==> f.first == "HTTP/1.1" && f.second != "200" && !(StrtolIsZero(f.second) && f.second != "0")
    ensures v == Proceed || v == Exit(2) || v == Exit(3)
  {
    NonZeroCode("200");
    if f.first != "HTTP/1.1" || (StrtolIsZero(f.second) && f.second != "0") then Exit(2)
    else if f.second != "200" then Exit(3)
    else Proceed
  }

  /** The verdict on a response whose first line splits into `f`. */
  lemma VerdictOfLine(response: string, line: string, f: Fields)
    requires FirstLine(response) == Some(line) && SplitLine(line) == Some(f)
    ensures CheckStatusLine(response) == StatusVerdict(f)
  {
  }

  /** The stream after the line getline reads first. */
  function AfterFirstLine(s: string): (r: string)
    ensures |r| < |s| || s == []
    ensures |r| <= |s| && r == s[|s| - |r|..]
  {
    match FirstLine(s)
    case None => []
    case Some(line) => s[|line|..]
  }

  /** What the header-skipping loop (client.c:270-274) leaves: the text after the
      first line that is exactly "\r\n", or nothing when there is none. */
  function SkipHeader(s: string): (r: string)
    ensures |r| <= |s| && r == s[|s| - |r|..]
    decreases |s|
  {
    match FirstLine(s)
    case None => []
    case Some(line) => if line == "\r\n" then s[|line|..] else SkipHeader(s[|line|..])
  }

  /** The header-skipping loop as the client runs it, one getline at a time, over a
      stream held in `s` and read from position `pos` on. */
  method SkipHeaderLines(s: string, start: nat) returns (pos: nat)
    requires start <= |s|
    ensures start <= pos <= |s|
    ensures s[pos..] == SkipHeader(s[start..])
  {
    pos := start;
    while true
      invariant start <= pos <= |s|
      invariant SkipHeader(s[pos..]) == SkipHeader(s[start..])
      decreases |s| - pos
    {
      var line := FirstLine(s[pos..]);
      if line.None? {
        return;
      }
      var next := pos + |line.value|;
      assert s[pos..][|line.value|..] == s[next..];
      if line.value == "\r\n" {
        return next;
      }
      pos := next;
    }
  }

  /** What the client makes of a whole response: the verdict of the status line,
      and, when it proceeds, the text it copies to its output (client.c:281-288). */
  function Received(response: string): (r: (Verdict, string))
    ensures r.0 == CheckStatusLine(response)
    ensures r.0 != Proceed ==> r.1 == []
    ensures |r.1| <= |response|
  {
    var v := CheckStatusLine(response);
    if v == Proceed then (v, SkipHeader(AfterFirstLine(response))) else (v, [])
  }

  /** A well-formed "HTTP/1.1 200 ..." status line lets the client proceed with the
      text after it. */
  lemma AcceptsOk(desc: string, rest: string)
    requires |desc| > 0 && '\r' !in desc && '\n' !in desc
    ensures CheckStatusLine(LineOf("HTTP/1.1", "200", desc) + rest) == Proceed
    ensures AfterFirstLine(LineOf("HTTP/1.1", "200", desc) + rest) == rest
  {
    FirstLineOfLine("HTTP/1.1", "200", desc, rest);
    SplitLineOf("HTTP/1.1", "200", desc);
    VerdictOfLine(LineOf("HTTP/1.1", "200", desc) + rest, LineOf("HTTP/1.1", "200", desc), Fields("HTTP/1.1", "200", desc));
    assert (LineOf("HTTP/1.1", "200", desc) + rest)[|LineOf("HTTP/1.1", "200", desc)|..] == rest;
  }

  /** Any other numeric code that strtol reads as non-zero makes the client exit with
      status 3. */
  lemma RejectsOtherCode(code: string, desc: string, rest: string)
    requires |code| > 0 && AllDigits(code) && code[0] != '0' && code != "200"
    requires |desc| > 0 && '\r' !in desc && '\n' !in desc
    ensures CheckStatusLine(LineOf("HTTP/1.1", code, desc) + rest) == Exit(3)
  {
    assert ' ' !in code && '\n' !in code by {
      assert forall i :: 0 <= i < |code| ==> IsDigit(code[i]);
    }
    FirstLineOfLine("HTTP/1.1", code, desc, rest);
    SplitLineOf("HTTP/1.1", code, desc);
    VerdictOfLine(LineOf("HTTP/1.1", code, desc) + rest, LineOf("HTTP/1.1", code, desc), Fields("HTTP/1.1", code, desc));
    NonZeroCode(code);
  }

  /** A status line with another version, or without three tokens, makes the client
      exit with status 2. */
  lemma RejectsMalformed(version: string, code: string, desc: string, rest: string)
    requires |version| > 0 && |code| > 0 && |desc| > 0
    requires ' ' !in version && '\n' !in version && ' ' !in code && '\n' !in code
    requires '\r' !in desc && '\n' !in desc
    requires version != "HTTP/1.1"
    ensures CheckStatusLine(LineOf(version, code, desc) + rest) == Exit(2)
  {
    FirstLineOfLine(version, code, desc, rest);
    SplitLineOf(version, code, desc);
    VerdictOfLine(LineOf(version, code, desc) + rest, LineOf(version, code, desc), Fields(version, code, desc));
  }

  /** A digit string without a leading zero is not read as 0 by strtol. */
  lemma NonZeroCode(code: string)
    requires |code| > 0 && AllDigits(code) && code[0] != '0'
    ensures !StrtolIsZero(code)
  {
    assert IsDigit(code[0]) && code[0] !in CSpace;
    assert SkipDelims(code, CSpace) == code;
    assert StrtolDigits(code) == code;
    assert 0 < DigitRun(code);
  }

  /** A header line other than "\r\n" is skipped. */
  lemma SkipsHeaderLine(line: string, rest: string)
    requires |line| > 1 && line[0] != '\r' && line[|line| - 1] == '\n'
    requires forall i :: 0 <= i < |line| - 1 ==> line[i] != '\n'
    ensures SkipHeader(line + rest) == SkipHeader(rest)
  {
    FirstLineIs(line, rest);
    assert line != "\r\n";
    assert (line + rest)[|line|..] == rest;
  }

  /** The empty line "\r\n" ends the header; what follows it is the body. */
  lemma BlankLineEndsHeader(rest: string)
    ensures SkipHeader(BlankLine + rest) == rest
  {
    FirstLineIs(BlankLine, rest);
    assert (BlankLine + rest)[|BlankLine|..] == rest;
  }

  /** A header line "key: value\r\n" is one line, which the header-skipping loop
      skips. */
  lemma SkipsKeyValue(key: string, value: string, rest: string)
    requires |key| > 0 && key[0] != '\r' && '\n' !in key && '\n' !in value
    ensures SkipHeader(HeaderLine(key, value) + rest) == SkipHeader(rest)
  {
    var line := HeaderLine(key, value);
    assert forall i :: 0 <= i < |line| - 1 ==> line[i] != '\n' by {
      forall i | 0 <= i < |line| - 1
        ensures line[i] != '\n'
      {
        if i < |key| {
          assert line[i] == key[i];
        } else if |key| + 1 < i < |key| + 2 + |value| {
          assert line[i] == value[i - |key| - 2];
        }
      }
    }
    SkipsHeaderLine(line, rest);
  }
}
