/** The client and the server of ClientServer together: the request the client
    writes is classified by the server as a GET of the resource the URL names, and
    the reply the server writes is read back by the client as the document or as
    exit status 3. */
module Exchange {
  import opened CStrings
  import opened HttpText
  import opened Client
  import opened Server

  /** The server answers the client's request with the document at the resource the
      URL names, or 404 when there is none. */
  lemma RequestIsServed(u: ClientUrl, docRoot: string, index: string, files: map<string, string>)
    requires ' ' !in u.dir && '\n' !in u.dir
    ensures var path := DocumentPath(docRoot, index, "/" + u.dir);
            HandleRequest(RequestText(u), docRoot, index, files) ==
              if path in files then Response("200", "OK", Some(files[path])) else NotFound
  {
    ServesGet("/" + u.dir, HeaderLine("hostname", u.hostname) + (HeaderLine("Connection", "close") + BlankLine),
              docRoot, index, files);
  }

  /** The keys and values of the fixed header lines are single lines. */
  lemma HeaderKeys()
    ensures |"Date"| > 0 && "Date"[0] != '\r' && '\n' !in "Date"
    ensures |"Content-Length"| > 0 && "Content-Length"[0] != '\r' && '\n' !in "Content-Length"
    ensures |"Connection"| > 0 && "Connection"[0] != '\r' && '\n' !in "Connection" && '\n' !in "close"
  {
  }

  /** The client skips the header lines of a success reply and keeps what follows. */
  lemma SkipsSuccessHeader(date: string, size: string, body: string)
    requires '\n' !in date && '\n' !in size
    ensures SkipHeader(HeaderLine("Date", date) + (HeaderLine("Content-Length", size) +
                       (HeaderLine("Connection", "close") + (BlankLine + body)))) == body
  {
    HeaderKeys();
    SkipsKeyValue("Date", date, HeaderLine("Content-Length", size) + (HeaderLine("Connection", "close") + (BlankLine + body)));
    SkipsKeyValue("Content-Length", size, HeaderLine("Connection", "close") + (BlankLine + body));
    SkipsKeyValue("Connection", "close", BlankLine + body);
    BlankLineEndsHeader(body);
  }

  /** The client reads a success reply as the document it carries. */
  lemma ReadsSuccess(body: string, date: string)
    requires '\n' !in date
    ensures Received(Reply(Response("200", "OK", Some(body)), date)) == (Proceed, body)
  {
    var size := DecimalString(|body|);
    var d := HeaderLine("Date", date);
    var c := HeaderLine("Content-Length", size);
    var k := HeaderLine("Connection", "close");
    var rest := d + (c + (k + (BlankLine + body)));
    assert Reply(Response("200", "OK", Some(body)), date) == LineOf("HTTP/1.1", "200", "OK") + rest;
    AcceptsOk("OK", rest);
    assert '\n' !in size by {
      assert forall i :: 0 <= i < |size| ==> IsDigit(size[i]);
    }
    SkipsSuccessHeader(date, size, body);
  }

  /** The code and description of each error response fit a status line. */
  lemma ErrorStatus(r: Response)
    requires r in {InternalError, BadRequest, NotImplemented, NotFound}
    ensures |r.code| > 0 && AllDigits(r.code) && r.code[0] != '0' && r.code != "200"
    ensures var desc := "(" + r.description + ")"; |desc| > 0 && '\r' !in desc && '\n' !in desc
  {
    if r == InternalError {
      StatusFits("500", "Internal Server Error");
    } else if r == BadRequest {
      StatusFits("400", "Bad request");
    } else if r == NotImplemented {
      StatusFits("501", "Not implemented");
    } else {
      StatusFits("404", "Not found");
    }
  }

  lemma StatusFits(code: string, description: string)
    requires |code| == 3 && IsDigit(code[0]) && IsDigit(code[1]) && IsDigit(code[2])
    requires code[0] != '0' && code != "200"
    requires forall i :: 0 <= i < |description| ==> description[i] != '\r' && description[i] != '\n'
    ensures |code| > 0 && AllDigits(code) && code[0] != '0' && code != "200"
    ensures var desc := "(" + description + ")"; |desc| > 0 && '\r' !in desc && '\n' !in desc
  {
    var desc := "(" + description + ")";
    assert forall i :: 0 <= i < |desc| ==> desc[i] != '\r' && desc[i] != '\n' by {
      forall i | 0 <= i < |desc|
        ensures desc[i] != '\r' && desc[i] != '\n'
      {
        if 0 < i < |desc| - 1 {
          assert desc[i] == description[i - 1];
        }
      }
    }
  }

  /** The client reads every error reply the server sends as exit status 3. */
  lemma ReadsError(r: Response, date: string)
    requires r in {InternalError, BadRequest, NotImplemented, NotFound}
    ensures Received(Reply(r, date)) == (Exit(3), [])
  {
    ErrorStatus(r);
    RejectsOtherCode(r.code, "(" + r.description + ")", HeaderLine("Connection", "close") + BlankLine);
  }

  /** A whole fetch: the URL is split, the request sent, the server replies from its
      files, and the client ends up with the document at the requested path, or with
      exit status 3 when there is none. The resource "" fetches the index file. */
  lemma Fetch(url: string, docRoot: string, index: string, files: map<string, string>, date: string)
    requires ParseUrl(url).Some?
    requires ' ' !in ParseUrl(url).value.dir && '\n' !in ParseUrl(url).value.dir
    requires '\n' !in date
    ensures var u := ParseUrl(url).value;
            var path := DocumentPath(docRoot, index, "/" + u.dir);
            && (u.dir == [] ==> path == docRoot + "/" + index)
            && Received(Reply(HandleRequest(RequestText(u), docRoot, index, files), date)) ==
                 if path in files then (Proceed, files[path]) else (Exit(3), [])
  {
    var u := ParseUrl(url).value;
    RequestIsServed(u, docRoot, index, files);
    var path := DocumentPath(docRoot, index, "/" + u.dir);
    if path in files {
      ReadsSuccess(files[path], date);
    } else {
      ReadsError(NotFound, date);
    }
  }
}
