/** The string logic of the HTTP server (ClientServer/server.c): how handle_request
    classifies a request, the document path it opens, and the headers write_success
    and write_error send back. */
module Server {
  import opened CStrings
  import opened HttpText

  /** server_response: code and description, and the contents of the requested file
      when it could be opened (the FILE *request_file of a 200 response). */
  datatype Response = Response(code: string, description: string, body: Option<string>)

  const InternalError: Response := Response("500", "Internal Server Error", None)
  const BadRequest: Response := Response("400", "Bad request", None)
  const NotImplemented: Response := Response("501", "Not implemented", None)
  const NotFound: Response := Response("404", "Not found", None)

  /** The path handle_request opens (server.c:213-223): doc_root, a '/', then the
      index file for the resource "/" and the resource itself otherwise. */
  function DocumentPath(docRoot: string, index: string, resource: string): string {
    docRoot + "/" + (if resource == "/" then index else resource)
  }

  /** handle_request (server.c:162-252) on the request text, with the file system
      `files` (path to contents) standing for fopen: 500 when no line can be read, 400
      for a missing token or a version other than "HTTP/1.1", then 501 for a method
      other than "GET", then 404 when the document cannot be opened and 200 with its
      contents when it can. */
  function HandleRequest(request: string, docRoot: string, index: string, files: map<string, string>): (r: Response)
    ensures r in {InternalError, BadRequest, NotImplemented, NotFound} || (r.code == "200" && r.description == "OK")
    ensures r == InternalError <==> request == []
    ensures r.body.Some? <==> r.code == "200"
    ensures r.body.Some? ==> r.body.value in files.Values
  {
    match FirstLine(request)
    case None => InternalError
    case Some(line) =>
      match SplitLine(line)
      case None => BadRequest
      case Some(f) =>
        if f.third != "HTTP/1.1" then BadRequest
        else if f.first != "GET" then NotImplemented
        else
          var path := DocumentPath(docRoot, index, f.second);
          if path in files then Response("200", "OK", Some(files[path])) else NotFound
  }

  /** The response to a request whose first line splits into `f`. */
  lemma ResponseOfLine(request: string, line: string, f: Fields, docRoot: string, index: string, files: map<string, string>)
    requires FirstLine(request) == Some(line) && SplitLine(line) == Some(f)
    ensures HandleRequest(request, docRoot, index, files) ==
              if f.third != "HTTP/1.1" then BadRequest
              else if f.first != "GET" then NotImplemented
              else if DocumentPath(docRoot, index, f.second) in files then
                Response("200", "OK", Some(files[DocumentPath(docRoot, index, f.second)]))
              else NotFound
  {
  }

  /** A GET request line with version HTTP/1.1 is answered with the document at its
      path, or 404 when there is none. */
  lemma ServesGet(resource: string, rest: string, docRoot: string, index: string, files: map<string, string>)
    requires |resource| > 0 && ' ' !in resource && '\n' !in resource
    ensures var path := DocumentPath(docRoot, index, resource);
            HandleRequest(LineOf("GET", resource, "HTTP/1.1") + rest, docRoot, index, files) ==
              if path in files then Response("200", "OK", Some(files[path])) else NotFound
  {
    FirstLineOfLine("GET", resource, "HTTP/1.1", rest);
    SplitLineOf("GET", resource, "HTTP/1.1");
    ResponseOfLine(LineOf("GET", resource, "HTTP/1.1") + rest, LineOf("GET", resource, "HTTP/1.1"),
                   Fields("GET", resource, "HTTP/1.1"), docRoot, index, files);
  }

  /** A well-formed request line with another method gets 501. */
  lemma RejectsMethod(verb: string, resource: string, rest: string, docRoot: string, index: string, files: map<string, string>)
    requires |verb| > 0 && ' ' !in verb && '\n' !in verb && verb != "GET"
    requires |resource| > 0 && ' ' !in resource && '\n' !in resource
    ensures HandleRequest(LineOf(verb, resource, "HTTP/1.1") + rest, docRoot, index, files) == NotImplemented
  {
    FirstLineOfLine(verb, resource, "HTTP/1.1", rest);
    SplitLineOf(verb, resource, "HTTP/1.1");
    ResponseOfLine(LineOf(verb, resource, "HTTP/1.1") + rest, LineOf(verb, resource, "HTTP/1.1"),
                   Fields(verb, resource, "HTTP/1.1"), docRoot, index, files);
  }

  /** A request line with another version gets 400, whatever its verb: the version
      is checked before the method. */
  lemma RejectsVersion(verb: string, resource: string, version: string, rest: string,
                       docRoot: string, index: string, files: map<string, string>)
    requires |verb| > 0 && ' ' !in verb && '\n' !in verb
    requires |resource| > 0 && ' ' !in resource && '\n' !in resource
    requires |version| > 0 && '\r' !in version && '\n' !in version && version != "HTTP/1.1"
    ensures HandleRequest(LineOf(verb, resource, version) + rest, docRoot, index, files) == BadRequest
  {
    FirstLineOfLine(verb, resource, version, rest);
    SplitLineOf(verb, resource, version);
    ResponseOfLine(LineOf(verb, resource, version) + rest, LineOf(verb, resource, version),
                   Fields(verb, resource, version), docRoot, index, files);
  }

  /** A request line with only two tokens ("GET /\r\n") gets 400: the third strtok
      finds nothing after the second token. */
  lemma RejectsTwoTokens(verb: string, resource: string, rest: string,
                         docRoot: string, index: string, files: map<string, string>)
    requires |verb| > 0 && ' ' !in verb && '\n' !in verb
    requires |resource| > 0 && ' ' !in resource && '\n' !in resource
    ensures HandleRequest(verb + " " + (resource + "\r\n") + rest, docRoot, index, files) == BadRequest
  {
    var second := resource + "\r\n";
    var line := verb + " " + second;
    assert forall i :: 0 <= i < |line| - 1 ==> line[i] != '\n' by {
      forall i | 0 <= i < |line| - 1
        ensures line[i] != '\n'
      {
        if i < |verb| {
          assert line[i] == verb[i];
        } else if |verb| < i < |verb| + 1 + |resource| {
          assert line[i] == resource[i - |verb| - 1];
        }
      }
    }
    assert line + rest == verb + " " + (resource + "\r\n") + rest;
    FirstLineIs(line, rest);
    assert line == verb + [' '] + second;
    StrTokAt(verb, ' ', second, Space);
    assert forall i :: 0 <= i < |second| ==> second[i] !in Space by {
      forall i | 0 <= i < |second|
        ensures second[i] !in Space
      {
        if i < |resource| {
          assert second[i] == resource[i];
        } else {
          assert second[i] == "\r\n"[i - |resource|];
        }
      }
    }
    StrTokWhole(second, Space);
    assert StrTok([], LineEnd).token.None?;
  }

  /** The size of the path array as written (server.c:213): the three lengths
      added, with no room for the '/' or the terminating NUL. */
  function PathBufferSizeAsWritten(docRoot: string, index: string, resource: string): nat {
    |docRoot| + |index| + |resource|
  }

  /** strcpy and strcat write the path and its NUL past the end of that array
      exactly when the resource is "/" or the index name is shorter than two
      characters; every request for "/" writes one place past it. */
  lemma AsWrittenPathOverflows(docRoot: string, index: string, resource: string)
    ensures |DocumentPath(docRoot, index, resource)| + 1 > PathBufferSizeAsWritten(docRoot, index, resource)
            <==> resource == "/" || |index| < 2
    ensures resource == "/" ==>
              |DocumentPath(docRoot, index, resource)| + 1 == PathBufferSizeAsWritten(docRoot, index, resource) + 1
  {
  }

  /** The corrected size: doc_root, the '/', the part chosen by the resource, and the
      NUL. */
  function PathBufferSize(docRoot: string, index: string, resource: string): (n: nat)
    ensures n == |DocumentPath(docRoot, index, resource)| + 1
    ensures n <= |docRoot| + 1 + (if |index| < |resource| then |resource| else |index|) + 1
  {
    |docRoot| + 1 + (if resource == "/" then |index| else |resource|) + 1
  }

  const NUL: char := '\0'

  /** strcpy(dst, src): the characters of src and a NUL. */
  method StrCpy(dst: array<char>, src: string) returns (len: nat)
    requires |src| < dst.Length
    modifies dst
    ensures len == |src| && dst[..len] == src && dst[len] == NUL
    ensures dst[len + 1..] == old(dst[len + 1..])
  {
    var i := 0;
    while i < |src|
      invariant 0 <= i <= |src|
      invariant dst[..i] == src[..i]
      invariant dst[i..] == old(dst[i..])
    {
      dst[i] := src[i];
      i := i + 1;
    }
    dst[i] := NUL;
    len := i;
  }

  /** strcat(dst, src) on a string of length `len` held in dst: src and a NUL are
      written from its NUL on. */
  method StrCat(dst: array<char>, len: nat, src: string) returns (newLen: nat)
    requires len + |src| < dst.Length && dst[len] == NUL
    modifies dst
    ensures newLen == len + |src| && dst[..newLen] == old(dst[..len]) + src && dst[newLen] == NUL
    ensures dst[newLen + 1..] == old(dst[newLen + 1..])
  {
    var i := 0;
    while i < |src|
      invariant 0 <= i <= |src|
      invariant dst[..len] == old(dst[..len])
      invariant dst[len..len + i] == src[..i]
      invariant dst[len + i..] == old(dst[len + i..])
    {
      dst[len + i] := src[i];
      i := i + 1;
    }
    dst[len + i] := NUL;
    newLen := len + i;
    assert dst[..newLen] == dst[..len] + dst[len..newLen];
  }

  /** The path-building of handle_request (server.c:213-223) into an array of the
      corrected size: the path fills it up to the NUL in its last place. */
  method BuildPath(docRoot: string, index: string, resource: string) returns (path: array<char>, len: nat)
    ensures fresh(path) && path.Length == PathBufferSize(docRoot, index, resource)
    ensures len == path.Length - 1 && path[..len] == DocumentPath(docRoot, index, resource) && path[len] == NUL
  {
    path := new char[PathBufferSize(docRoot, index, resource)](_ => NUL);
    len := StrCpy(path, docRoot);
    len := StrCat(path, len, "/");
    if resource == "/" {
      len := StrCat(path, len, index);
    } else {
      len := StrCat(path, len, resource);
    }
  }

  /** write_error's header (server.c:309-312): "HTTP/1.1 <code> (<description>)\r\n",
      "Connection: close\r\n" and the empty line, written line by line. */
  function ErrorHeader(r: Response): (h: string)
    ensures h == "HTTP/1.1 " + (r.code + (" (" + (r.description + ")\r\nConnection: close\r\n\r\n")))
  {
    var tail := HeaderLine("Connection", "close") + BlankLine;
    ConnectionCloseTail();
    JoinLiterals(")", "\r\nConnection: close\r\n\r\n", ")\r\nConnection: close\r\n\r\n", []);
    assert LineOf("HTTP/1.1", r.code, "(" + r.description + ")") + tail ==
           "HTTP/1.1 " + (r.code + (" (" + (r.description + (")" + ("\r\n" + tail)))));
    LineOf("HTTP/1.1", r.code, "(" + r.description + ")") + tail
  }

  /** write_success's header (server.c:289-299): "HTTP/1.1 <code> <description>\r\n",
      the Date, Content-Length and Connection lines, and the empty line, written line
      by line; `date` is the text strftime makes of the current time and `size` the
      length of the file. */
  function SuccessHeader(r: Response, date: string, size: nat): (h: string)
    ensures h == "HTTP/1.1 " + (r.code + (" " + (r.description + ("\r\nDate: " + (date +
                 ("\r\nContent-Length: " + (DecimalString(size) + "\r\nConnection: close\r\n\r\n")))))))
  {
    var t3 := HeaderLine("Connection", "close") + BlankLine;
    var t2 := HeaderLine("Content-Length", DecimalString(size)) + t3;
    var t1 := HeaderLine("Date", date) + t2;
    ConnectionCloseTail();
    HeaderAfterLineEnd("Content-Length", DecimalString(size), t3, "\r\nContent-Length: ");
    HeaderAfterLineEnd("Date", date, t2, "\r\nDate: ");
    assert LineOf("HTTP/1.1", r.code, r.description) + t1 ==
           "HTTP/1.1 " + (r.code + (" " + (r.description + ("\r\n" + t1))));
    LineOf("HTTP/1.1", r.code, r.description) + t1
  }

  /** What the server writes back (server.c:348-355): the success header and the
      file for code "200", the error header otherwise. */
  function Reply(r: Response, date: string): (out: string)
    requires r.code == "200" ==> r.body.Some?
    ensures r.code == "200" ==> |out| > |r.body.value|
  {
    if r.code == "200" then SuccessHeader(r, date, |r.body.value|) + r.body.value else ErrorHeader(r)
  }
  /** The request_file field of server_response: never assigned (the struct is a
      local without initialiser), NULL, or a file opened on `contents`. */
  datatype FileField = Unassigned | Null | Opened(contents: string)

  /** request_file as handle_request leaves it (server.c:162-252): it is assigned
      only on the 200 path (server.c:250); every other return leaves it as it was. */
  function RequestFileAsWritten(r: Response): (f: FileField)
    requires r.code == "200" ==> r.body.Some?
    ensures f.Unassigned? <==> r.code != "200"
    ensures f.Opened? ==> f.contents == r.body.value
  {
    if r.code == "200" then Opened(r.body.value) else Unassigned
  }

  /** The clean-up after each connection (server.c:360-363) reads request_file and
      closes it unless it is NULL; that read is defined only for an assigned field. */
  predicate CleanupDefined(f: FileField) {
    !f.Unassigned?
  }

  /** As written, every request answered with an error (an empty request, say)
      reaches the clean-up with request_file unassigned, so fclose is called on an
      indeterminate pointer. */
  lemma AsWrittenClosesUnassigned(request: string, docRoot: string, index: string, files: map<string, string>)
    requires HandleRequest(request, docRoot, index, files).code != "200"
    ensures !CleanupDefined(RequestFileAsWritten(HandleRequest(request, docRoot, index, files)))
    ensures !CleanupDefined(RequestFileAsWritten(HandleRequest([], docRoot, index, files)))
  {
  }

  /** request_file with the evidently intended initialisation to NULL: the file of a
      200 response, NULL for every error response. */
  function RequestFile(r: Response): (f: FileField)
    ensures CleanupDefined(f)
    ensures f.Opened? <==> r.body.Some?
    ensures f.Opened? ==> f.contents == r.body.value
    ensures f.Null? <==> r.body.None?
  {
    if r.body.Some? then Opened(r.body.value) else Null
  }

  /** With the corrected initialisation the clean-up is defined after every request,
      and it closes exactly the file a 200 response was served from. */
  lemma CleanupAlwaysDefined(request: string, docRoot: string, index: string, files: map<string, string>)
    ensures var r := HandleRequest(request, docRoot, index, files);
            CleanupDefined(RequestFile(r)) && (RequestFile(r).Opened? <==> r.code == "200")
  {
  }
}
