/** Concrete request lines and what `Request::try_from` makes of them. The
    method conversion is left open except for the one verb each line needs. */
module RequestExamples {
  import opened Wrappers
  import opened Utf8
  import opened HttpMethod
  import opened ParseErrors
  import opened Words
  import opened Requests
  import opened RequestProperties

  /** A target without '?' lands whole in `query`; `path` stays empty. */
  lemma TargetWithoutQuestionMark(methodOf: MethodParser)
    requires methodOf("GET") == Success(GET)
    ensures InModelledDomain(Encode("GET /home HTTP/1.1\r\n"))
    ensures Parse(Encode("GET /home HTTP/1.1\r\n"), methodOf) == Success(Request("/home", None, GET))
  {
    assert RequestLine("GET", "/home", None) == "GET /home HTTP/1.1\r\n";
    ParseRequestLine("GET", "/home", None, GET, methodOf);
  }

  /** The part before '?' lands in `query` and the part after it in `path`. */
  lemma TargetWithQuestionMark(methodOf: MethodParser)
    requires methodOf("GET") == Success(GET)
    ensures InModelledDomain(Encode("GET /search?q=rust HTTP/1.1\r\n"))
    ensures Parse(Encode("GET /search?q=rust HTTP/1.1\r\n"), methodOf)
            == Success(Request("/search", Some("q=rust"), GET))
  {
    SearchLineSpelled();
    ParseRequestLine("GET", "/search", Some("q=rust"), GET, methodOf);
  }

  /** The line of `TargetWithQuestionMark`, spelled out. */
  lemma SearchLineSpelled()
    ensures RequestLine("GET", "/search", Some("q=rust")) == "GET /search?q=rust HTTP/1.1\r\n"
  {
  }

  /** "HTTP/1.0" is refused, whatever the method conversion would say. */
  lemma OlderProtocolRefused(methodOf: MethodParser)
    ensures InModelledDomain(Encode("GET / HTTP/1.0\r\n"))
    ensures Parse(Encode("GET / HTTP/1.0\r\n"), methodOf) == Failure(InvalidProtocol)
  {
    var w := LineWords("GET", ' ', "/", ' ', "HTTP/1.0", '\r');
    assert w.Text("\n") == "GET / HTTP/1.0\r\n";
    ParseOfEncodedText(w, "\n", methodOf);
    ProtocolCheckedBeforeMethod(w, "\n", methodOf);
  }

  /** A method word the conversion rejects gives `InvalidMethod`. */
  lemma UnknownVerbRefused(methodOf: MethodParser)
    requires methodOf("FROB").Failure?
    ensures InModelledDomain(Encode("FROB / HTTP/1.1\r\n"))
    ensures Parse(Encode("FROB / HTTP/1.1\r\n"), methodOf) == Failure(InvalidMethod)
  {
    var w := LineWords("FROB", ' ', "/", ' ', Protocol, '\r');
    assert w.Text("\n") == "FROB / HTTP/1.1\r\n";
    ParseOfEncodedText(w, "\n", methodOf);
    UnknownMethodRejected(w, "\n", methodOf);
  }

  /** A line cut short after the target has no second word: `InvalidRequest`. */
  lemma TruncatedAfterTarget(methodOf: MethodParser)
    ensures InModelledDomain(Encode("GET /"))
    ensures Parse(Encode("GET /"), methodOf) == Failure(InvalidRequest)
  {
    var s := "GET /";
    assert CharIndexIsByteIndex(s) && NextWord(s) == Some(("GET", "/")) by {
      assert s == "GET" + [' '] + "/";
      NextWordSplitsAt("GET", ' ', "/");
    }
    assert NextWord("/") == None;
    assert ParseText(s, methodOf) == Failure(InvalidRequest);
    DecodeEncode(s);
    ParseOfDecoded(Encode(s), s, methodOf);
  }

  /** A byte that is never UTF-8 (0xFF) gives `InvalidEncoding` whatever
      request line follows it: decoding comes before any word is looked at. */
  lemma UndecodableByteRefused(line: seq<char>, methodOf: MethodParser)
    ensures InModelledDomain([0xFF] + Encode(line))
    ensures Parse([0xFF] + Encode(line), methodOf) == Failure(InvalidEncoding)
  {
  }
}
