/** What `Request::try_from` guarantees, stated against the request-line
    grammar `method SP request-target SP HTTP-version CR` of section 3.1.1 of
    RFC 7230 as the parser reads it (either delimiter may be a space or a
    carriage return). */
module RequestProperties {
  import opened Wrappers
  import opened Utf8
  import opened HttpMethod
  import opened ParseErrors
  import opened Words
  import opened Requests

  /** How many delimiters `s` holds. */
  function CountDelimiters(s: seq<char>): nat
  {
    if |s| == 0 then 0
    else (if IsDelimiter(s[0]) then 1 else 0) + CountDelimiters(s[1..])
  }

  lemma {:induction false} CountDelimitersAppend(a: seq<char>, b: seq<char>)
    ensures CountDelimiters(a + b) == CountDelimiters(a) + CountDelimiters(b)
  {
    if |a| > 0 {
      assert (a + b)[1..] == a[1..] + b;
      CountDelimitersAppend(a[1..], b);
    } else {
      assert a + b == b;
    }
  }

  lemma {:induction false} NoDelimiterCountsZero(s: seq<char>)
    ensures CountDelimiters(s) == 0 <==> HasNoDelimiter(s)
  {
    if |s| > 0 {
      NoDelimiterCountsZero(s[1..]);
      assert HasNoDelimiter(s) <==> !IsDelimiter(s[0]) && HasNoDelimiter(s[1..]) by {
        assert forall i :: 0 < i < |s| ==> s[i] == s[1..][i - 1];
      }
    }
  }

  /** Every successful `get_next_word` consumes exactly one delimiter. */
  lemma NextWordConsumesOneDelimiter(s: seq<char>)
    requires CharIndexIsByteIndex(s) && NextWord(s).Some?
    ensures CountDelimiters(NextWord(s).value.1) + 1 == CountDelimiters(s)
  {
    var (word, rest) := NextWord(s).value;
    NextWordDecomposes(s);
    CountDelimitersAppend(word + [s[|word|]], rest);
    CountDelimitersAppend(word, [s[|word|]]);
    NoDelimiterCountsZero(word);
    assert CountDelimiters([s[|word|]]) == 1 by {
      assert [s[|word|]][1..] == [];
    }
  }

  /** Fewer than three delimiters, and only then, make the request line
      `InvalidRequest`: each of the three words must be delimiter-terminated,
      and a final "HTTP/1.1" without a following space or CR is not a word. */
  lemma ShortRequestLine(s: seq<char>, methodOf: MethodParser)
    requires AsciiRequestLine(s)
    ensures ParseText(s, methodOf) == Failure(InvalidRequest) <==> CountDelimiters(s) < 3
  {
    NoDelimiterCountsZero(s);
    if NextWord(s).Some? {
      var rest1 := NextWord(s).value.1;
      NextWordConsumesOneDelimiter(s);
      NoDelimiterCountsZero(rest1);
      if NextWord(rest1).Some? {
        var rest2 := NextWord(rest1).value.1;
        NextWordConsumesOneDelimiter(rest1);
        NoDelimiterCountsZero(rest2);
      }
    }
  }

  predicate IsWord(w: seq<char>) {
    HasNoDelimiter(w) && IsAsciiText(w)
  }

  /** The three words of a request line and the delimiter after each. */
  datatype LineWords = LineWords(methodWord: seq<char>, d1: char, target: seq<char>, d2: char,
                                 protocol: seq<char>, d3: char)
  {
    /** Three delimiter-free ASCII words, each followed by a delimiter. */
    predicate Valid() {
      && IsWord(methodWord) && IsWord(target) && IsWord(protocol)
      && IsDelimiter(d1) && IsDelimiter(d2) && IsDelimiter(d3)
    }

    /** The words and delimiters in order, then `rest`. */
    function Text(rest: seq<char>): seq<char>
    {
      methodWord + [d1] + target + [d2] + protocol + [d3] + rest
    }
  }

  /** The parse of a line with three words: protocol first, then method, then
      the target split at its first '?'; what follows the third delimiter
      plays no part. */
  lemma ParseTextOfWords(w: LineWords, rest: seq<char>, methodOf: MethodParser)
    requires w.Valid()
    ensures AsciiRequestLine(w.Text(rest))
    ensures var r := ParseText(w.Text(rest), methodOf);
            && (w.protocol != Protocol ==> r == Failure(InvalidProtocol))
            && (w.protocol == Protocol && methodOf(w.methodWord).Failure? ==> r == Failure(InvalidMethod))
            && (w.protocol == Protocol && methodOf(w.methodWord).Success? ==>
                  r == Success(Request(SplitTarget(w.target).0, SplitTarget(w.target).1,
                                       methodOf(w.methodWord).value)))
  {
    var s := w.Text(rest);
    var rest2 := w.protocol + [w.d3] + rest;
    var rest1 := w.target + [w.d2] + rest2;
    assert CharIndexIsByteIndex(s) && NextWord(s) == Some((w.methodWord, rest1)) by {
      assert s == w.methodWord + [w.d1] + rest1;
      NextWordSplitsAt(w.methodWord, w.d1, rest1);
    }
    assert CharIndexIsByteIndex(rest1) && NextWord(rest1) == Some((w.target, rest2)) by {
      NextWordSplitsAt(w.target, w.d2, rest2);
    }
    assert CharIndexIsByteIndex(rest2) && NextWord(rest2) == Some((w.protocol, rest)) by {
      NextWordSplitsAt(w.protocol, w.d3, rest);
    }
    ParseTextOfThreeWords(s, w.methodWord, rest1, w.target, rest2, w.protocol, rest, methodOf);
  }

  /** `ParseText` once its three calls to `get_next_word` have been evaluated. */
  lemma ParseTextOfThreeWords(s: seq<char>, m: seq<char>, rest1: seq<char>, t: seq<char>, rest2: seq<char>,
                              p: seq<char>, rest3: seq<char>, methodOf: MethodParser)
    requires CharIndexIsByteIndex(s) && NextWord(s) == Some((m, rest1))
    requires CharIndexIsByteIndex(rest1) && NextWord(rest1) == Some((t, rest2))
    requires CharIndexIsByteIndex(rest2) && NextWord(rest2) == Some((p, rest3))
    ensures AsciiRequestLine(s)
    ensures var r := ParseText(s, methodOf);
            && (p != Protocol ==> r == Failure(InvalidProtocol))
            && (p == Protocol && methodOf(m).Failure? ==> r == Failure(InvalidMethod))
            && (p == Protocol && methodOf(m).Success? ==>
                  r == Success(Request(SplitTarget(t).0, SplitTarget(t).1, methodOf(m).value)))
  {
  }

  /** The protocol is checked before the method: a wrong protocol word gives
      `InvalidProtocol` whatever the method word is and whatever the method
      conversion would say. */
  lemma ProtocolCheckedBeforeMethod(w: LineWords, rest: seq<char>, methodOf: MethodParser)
    requires w.Valid() && w.protocol != Protocol
    ensures AsciiRequestLine(w.Text(rest))
    ensures ParseText(w.Text(rest), methodOf) == Failure(InvalidProtocol)
  {
    ParseTextOfWords(w, rest, methodOf);
  }

  /** With the right protocol, a method word the conversion rejects gives
      `InvalidMethod`. */
  lemma UnknownMethodRejected(w: LineWords, rest: seq<char>, methodOf: MethodParser)
    requires w.Valid() && w.protocol == Protocol && methodOf(w.methodWord).Failure?
    ensures AsciiRequestLine(w.Text(rest))
    ensures ParseText(w.Text(rest), methodOf) == Failure(InvalidMethod)
  {
    ParseTextOfWords(w, rest, methodOf);
  }

  /** On success the target is split at its first '?': `query` is everything
      before it and `path` everything after it, or `query` is the whole target
      and `path` is absent when it holds no '?'. */
  lemma TargetSplitAtFirstQuestionMark(w: LineWords, rest: seq<char>, methodOf: MethodParser)
    requires w.Valid() && w.protocol == Protocol && methodOf(w.methodWord).Success?
    ensures AsciiRequestLine(w.Text(rest))
    ensures var r := ParseText(w.Text(rest), methodOf);
            var t := w.target;
            && r.Success? && r.value.verb == methodOf(w.methodWord).value
            && ('?' !in t ==> r.value.query == t && r.value.path == None)
            && (forall i :: 0 <= i < |t| && t[i] == '?' && '?' !in t[..i] ==>
                  r.value.query == t[..i] && r.value.path == Some(t[i + 1..]))
  {
    ParseTextOfWords(w, rest, methodOf);
    var t := w.target;
    var (q, a) := SplitTarget(t);
    forall i | 0 <= i < |t| && t[i] == '?' && '?' !in t[..i]
      ensures q == t[..i] && a == Some(t[i + 1..])
    {
      QuestionMarkPosition(t, q, a.value, i);
    }
  }

  /** Two '?'-free prefixes of the same text that end at a '?' are one prefix. */
  lemma QuestionMarkPosition(t: seq<char>, q: seq<char>, a: seq<char>, i: nat)
    requires t == q + "?" + a && '?' !in q
    requires i < |t| && t[i] == '?' && '?' !in t[..i]
    ensures q == t[..i] && a == t[i + 1..]
  {
    assert forall j :: 0 <= j < |q| ==> t[j] == q[j] && t[j] != '?';
    assert forall j :: 0 <= j < i ==> t[..i][j] == t[j] && t[j] != '?';
    assert t[|q|] == '?';
    assert i == |q|;
    assert t[..i] == q;
  }

  /** Whatever follows the third delimiter is ignored. */
  lemma TextAfterLineIgnored(w: LineWords, rest1: seq<char>, rest2: seq<char>, methodOf: MethodParser)
    requires w.Valid()
    ensures AsciiRequestLine(w.Text(rest1)) && AsciiRequestLine(w.Text(rest2))
    ensures ParseText(w.Text(rest1), methodOf) == ParseText(w.Text(rest2), methodOf)
  {
    ParseTextOfWords(w, rest1, methodOf);
    ParseTextOfWords(w, rest2, methodOf);
  }

  /** Every line with three delimiters splits into three words: so the lemmas
      about `LineWords` cover every line `ParseText` does not reject as
      `InvalidRequest`. */
  function SplitLine(s: seq<char>): (r: (LineWords, seq<char>))
    requires AsciiRequestLine(s) && CountDelimiters(s) >= 3
    ensures r.0.Valid() && s == r.0.Text(r.1)
  {
    NoDelimiterCountsZero(s);
    NextWordConsumesOneDelimiter(s);
    NextWordDecomposes(s);
    var (m, rest1) := NextWord(s).value;
    NoDelimiterCountsZero(rest1);
    NextWordConsumesOneDelimiter(rest1);
    NextWordDecomposes(rest1);
    var (t, rest2) := NextWord(rest1).value;
    NoDelimiterCountsZero(rest2);
    NextWordDecomposes(rest2);
    var (p, rest3) := NextWord(rest2).value;
    var w := LineWords(m, s[|m|], t, rest1[|t|], p, rest2[|p|]);
    TextNests(w, rest3);
    (w, rest3)
  }

  /** `Text` read as three nested word-delimiter-remainder splits. */
  lemma TextNests(w: LineWords, rest: seq<char>)
    ensures w.Text(rest) == w.methodWord + [w.d1] + (w.target + [w.d2] + (w.protocol + [w.d3] + rest))
  {
  }

  /** The second word of a line lies between its first and second delimiters. */
  lemma SecondWordIsSlice(s: seq<char>)
    requires CharIndexIsByteIndex(s) && NextWord(s).Some?
    requires CharIndexIsByteIndex(NextWord(s).value.1) && NextWord(NextWord(s).value.1).Some?
    ensures var a := FirstDelimiter(s) + 1;
            var t := NextWord(NextWord(s).value.1).value.0;
            a + |t| < |s| && s[a..a + |t|] == t && IsDelimiter(s[a + |t|])
  {
    var i := FirstDelimiter(s);
    var rest1 := NextWord(s).value.1;
    var j := FirstDelimiter(rest1);
    assert s[i + 1..i + 1 + j] == rest1[..j];
    assert s[i + 1 + j] == rest1[j];
  }

  /** A successful parse rejoins to exactly the second word of the line: with
      `SecondWordIsSlice`, the fields are views of the input, `query` right after
      the first delimiter, then, when present, a '?' and `path`, then the second
      delimiter. */
  lemma ParsedTargetIsSecondWord(s: seq<char>, methodOf: MethodParser)
    requires AsciiRequestLine(s) && ParseText(s, methodOf).Success?
    ensures NextWord(s).Some? && NextWord(NextWord(s).value.1).Some?
    ensures var req := ParseText(s, methodOf).value;
            JoinTarget(req.query, req.path) == NextWord(NextWord(s).value.1).value.0
  {
    var rest1 := NextWord(s).value.1;
    var t := NextWord(rest1).value.0;
    var r := SplitTarget(t);
    var verb := methodOf(NextWord(s).value.0).value;
    assert ParseText(s, methodOf) == Success(Request(r.0, r.1, verb));
  }

  /** The line a client writes for a method name and target, ended by CR LF. */
  function RequestLine(name: seq<char>, before: seq<char>, after: Option<seq<char>>): seq<char>
  {
    name + " " + JoinTarget(before, after) + " " + Protocol + "\r\n"
  }

  /** Round trip: the bytes of a well-formed request line parse back into the
      method, path and query they were written from. */
  lemma ParseRequestLine(name: seq<char>, before: seq<char>, after: Option<seq<char>>,
                         verb: Method, methodOf: MethodParser)
    requires IsWord(name) && IsWord(before) && '?' !in before
    requires after.Some? ==> IsWord(after.value)
    requires methodOf(name) == Success(verb)
    ensures InModelledDomain(Encode(RequestLine(name, before, after)))
    ensures Parse(Encode(RequestLine(name, before, after)), methodOf) == Success(Request(before, after, verb))
  {
    var t := JoinTarget(before, after);
    assert IsWord(t) by {
      if after.Some? {
        assert forall i :: 0 <= i < |t| ==> t[i] == '?' || t[i] in before || t[i] in after.value;
      }
    }
    var w := LineWords(name, ' ', t, ' ', Protocol, '\r');
    var line := RequestLine(name, before, after);
    assert line == w.Text("\n");
    ParseTextOfWords(w, "\n", methodOf);
    assert Parse(Encode(line), methodOf) == ParseText(line, methodOf) by {
      DecodeEncode(line);
      ParseOfDecoded(Encode(line), line, methodOf);
    }
    JoinTargetInjective(SplitTarget(t).0, SplitTarget(t).1, before, after);
  }

  /** `JoinTarget` is one-to-one on '?'-free first parts. */
  lemma JoinTargetInjective(b1: seq<char>, a1: Option<seq<char>>, b2: seq<char>, a2: Option<seq<char>>)
    requires '?' !in b1 && '?' !in b2
    requires JoinTarget(b1, a1) == JoinTarget(b2, a2)
    ensures b1 == b2 && a1 == a2
  {
    var t := JoinTarget(b1, a1);
    if a1.Some? && a2.Some? {
      var i := |b1|;
      assert t[i] == '?' && t[..i] == b1;
      QuestionMarkPosition(t, b2, a2.value, i);
    }
  }

  /** `Parse` on bytes that decode is `ParseText` on their text. */
  lemma ParseOfDecoded(b: seq<byte>, s: seq<char>, methodOf: MethodParser)
    requires Decode(b) == Success(s) && AsciiRequestLine(s)
    ensures InModelledDomain(b) && Parse(b, methodOf) == ParseText(s, methodOf)
  {
  }

  /** Decoding covers the whole buffer: bytes after a request line that are not
      UTF-8 turn the parse into `InvalidEncoding`. */
  lemma TrailingBytesMustDecode(line: seq<char>, tail: seq<byte>, methodOf: MethodParser)
    requires Decode(tail).Failure?
    ensures InModelledDomain(Encode(line) + tail)
    ensures Parse(Encode(line) + tail, methodOf) == Failure(InvalidEncoding)
  {
    DecodeEncode(line);
    DecodeAppend(Encode(line), tail);
  }

  /** Bytes after the request line that do decode play no part. */
  lemma TrailingTextIgnored(w: LineWords, tail: seq<byte>, methodOf: MethodParser)
    requires w.Valid() && Decode(tail).Success?
    ensures InModelledDomain(Encode(w.Text([])))
    ensures InModelledDomain(Encode(w.Text([])) + tail)
    ensures Parse(Encode(w.Text([])) + tail, methodOf) == Parse(Encode(w.Text([])), methodOf)
  {
    ParseOfEncodedText(w, [], methodOf);
    ParseOfEncodedLineThenTail(w, tail, methodOf);
  }

  /** The bytes of a line of three words parse as its text does. */
  lemma ParseOfEncodedText(w: LineWords, rest: seq<char>, methodOf: MethodParser)
    requires w.Valid()
    ensures AsciiRequestLine(w.Text(rest))
    ensures InModelledDomain(Encode(w.Text(rest)))
    ensures Parse(Encode(w.Text(rest)), methodOf) == ParseText(w.Text(rest), methodOf)
  {
    var line := w.Text(rest);
    ParseTextOfWords(w, rest, methodOf);
    DecodeEncode(line);
    ParseOfDecoded(Encode(line), line, methodOf);
  }

  lemma ParseOfEncodedLineThenTail(w: LineWords, tail: seq<byte>, methodOf: MethodParser)
    requires w.Valid() && Decode(tail).Success?
    ensures AsciiRequestLine(w.Text([]))
    ensures InModelledDomain(Encode(w.Text([])) + tail)
    ensures Parse(Encode(w.Text([])) + tail, methodOf) == ParseText(w.Text([]), methodOf)
  {
    var line := w.Text([]);
    var text := Decode(tail).value;
    TextAfterLineIgnored(w, [], text, methodOf);
    assert line + text == w.Text(text);
    ParseOfEncodedThenTail(line, tail, methodOf);
  }

  /** The bytes of a text followed by bytes that decode parse as the two texts joined. */
  lemma ParseOfEncodedThenTail(line: seq<char>, tail: seq<byte>, methodOf: MethodParser)
    requires Decode(tail).Success? && AsciiRequestLine(line + Decode(tail).value)
    ensures InModelledDomain(Encode(line) + tail)
    ensures Parse(Encode(line) + tail, methodOf) == ParseText(line + Decode(tail).value, methodOf)
  {
    DecodeEncode(line);
    DecodeAppend(Encode(line), tail);
    ParseOfDecoded(Encode(line) + tail, line + Decode(tail).value, methodOf);
  }
}
