/** `Request` and its `TryFrom<&[u8]>` conversion from src/http/request.rs:
    decode, take three words, check the protocol, convert the method, split
    the target at its first '?'. */
module Requests {
  import opened Wrappers
  import opened Utf8
  import opened HttpMethod
  import opened ParseErrors
  import opened Words

  /** The parsed request line, with the field names of the source. They are
      swapped with respect to their contents: `query` holds the part of the
      target BEFORE the first '?' (the path), and `path` holds the optional
      part AFTER it (the query). The fields are views into the input; here
      they are values equal to those slices. */
  datatype Request = Request(query: seq<char>, path: Option<seq<char>>, verb: Method)

  /** The only protocol token accepted. */
  const Protocol: string := "HTTP/1.1"

  /** `str::find` for one character: the index of its first occurrence. This
      is a character index, whereas Rust's `str::find` returns a byte offset;
      the two are equal here because `AsciiRequestLine` makes the target ASCII. */
  function Find(s: seq<char>, c: char): (r: Option<nat>)
    ensures r.None? <==> c !in s
    ensures r.Some? ==> r.value < |s| && s[r.value] == c && c !in s[..r.value]
  {
    if |s| == 0 then None
    else if s[0] == c then Some(0)
    else
      match Find(s[1..], c)
      case None => None
      case Some(i) =>
        assert s[..i + 1] == [s[0]] + s[1..][..i];
        Some(i + 1)
  }

  /** The target with its two parts rejoined: the inverse of `SplitTarget`. */
  function JoinTarget(before: seq<char>, after: Option<seq<char>>): seq<char>
  {
    match after
    case None => before
    case Some(a) => before + "?" + a
  }

  /** Splitting the request target at its first '?': the part before it,
      and the part after it when there is one. */
  function SplitTarget(target: seq<char>): (r: (seq<char>, Option<seq<char>>))
    ensures '?' !in r.0
    ensures r.1.None? <==> '?' !in target
    ensures JoinTarget(r.0, r.1) == target
  {
    match Find(target, '?')
    case None => (target, None)
    case Some(i) =>
      assert target == target[..i] + "?" + target[i + 1..];
      (target[..i], Some(target[i + 1..]))
  }

  /** The model follows the Rust code only where `get_next_word` slices at the
      right place in each of its three calls (see `CharIndexIsByteIndex`). */
  predicate AsciiRequestLine(s: seq<char>) {
    && CharIndexIsByteIndex(s)
    && (NextWord(s).Some? ==>
          var rest1 := NextWord(s).value.1;
          && CharIndexIsByteIndex(rest1)
          && (NextWord(rest1).Some? ==> CharIndexIsByteIndex(NextWord(rest1).value.1)))
  }

  /** The steps of `try_from` after decoding, on the decoded text. */
  function ParseText(s: seq<char>, methodOf: MethodParser): (r: Result<Request, ParseError>)
    requires AsciiRequestLine(s)
    ensures r.Failure? ==> r.error != InvalidEncoding
    ensures r.Success? ==> '?' !in r.value.query
  {
    match NextWord(s)
    case None => Failure(InvalidRequest)
    case Some((methodWord, rest1)) =>
      match NextWord(rest1)
      case None => Failure(InvalidRequest)
      case Some((target, rest2)) =>
        match NextWord(rest2)
        case None => Failure(InvalidRequest)
        case Some((protocol, _)) =>
          if protocol != Protocol then Failure(InvalidProtocol)
          else
            match methodOf(methodWord)
            case Failure(e) => Failure(FromMethodError(e))
            case Success(verb) =>
              var (before, after) := SplitTarget(target);
              Success(Request(before, after, verb))
  }

  /** Inputs the model covers: every buffer that is not UTF-8, and every one
      whose text satisfies `AsciiRequestLine`. */
  predicate InModelledDomain(b: seq<byte>) {
    Decode(b).Success? ==> AsciiRequestLine(Decode(b).value)
  }

  /** `impl TryFrom<&[u8]> for Request`. */
  function Parse(b: seq<byte>, methodOf: MethodParser): (r: Result<Request, ParseError>)
    requires InModelledDomain(b)
    ensures r == Failure(InvalidEncoding) <==> Decode(b).Failure?
  {
    match Decode(b)
    case Failure(e) => Failure(FromUtf8Error(e))
    case Success(s) => ParseText(s, methodOf)
  }
}
