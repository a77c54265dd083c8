# Request-line parsing of server-rs, in Dafny

This project models how the `server-rs` HTTP server turns the raw bytes of a request into a
`Request`: `impl TryFrom<&[u8]> for Request` in `src/http/request.rs`. The bytes are decoded
as UTF-8 (`str::from_utf8`). The hand-rolled `get_next_word` then takes three words, each
ended by a space or a carriage return. The third word must be exactly `HTTP/1.1`. The first
word is converted to a `Method`. The second word, the request target, is split at its first
`?`. Every failure is one of the four `ParseError` kinds, whose `message()` texts are modelled
too.

Modules, one per concern of the source file:

- `Wrappers`: `Option` and `Result`.
- `Utf8`: the checked decoding that `str::from_utf8` performs, following sections 3 and 4 of
  RFC 3629. It also has an encoder as its partner, with the round trip proved.
- `HttpMethod`: `Method`, `MethodError`, and the signature of the method conversion.
  `src/http/method.rs` is not part of this model. The parser takes the conversion
  (`method.parse()`) as a parameter `methodOf`, so no property depends on which verbs exist.
- `ParseErrors`: `ParseError`, `message()`, and the two `From` conversions.
- `Words`: `get_next_word`.
- `Requests`: `Request`, the target split, and `try_from` itself (`Parse` on bytes, `ParseText`
  after decoding).
- `RequestProperties`: what the parser guarantees, stated against the request-line grammar
  `method SP request-target SP HTTP-version CR` of section 3.1.1 of RFC 7230 as the code
  reads it.
- `RequestExamples`: concrete request lines.

Two behaviours of the code are reproduced as written.

- **Swapped field names.** `Request.query` holds the part of the target *before* the first
  `?` (the path), and `Request.path` holds the optional part *after* it (the query string)
  (lines 38-42). The model keeps the source's names and contents, so parsing
  `GET /search?q=rust HTTP/1.1` gives `query == "/search"` and `path == Some("q=rust")`, even
  though the field names suggest the opposite contents.
- **Character index used as byte index.** `get_next_word` counts characters with
  `chars().enumerate()` but slices the `&str` with that count as a byte offset (lines 47-49).
  This is right only when every character before the delimiter is ASCII. For other input the
  Rust code mis-splits or panics. The model works on characters, and `Words.NextWord` requires
  `CharIndexIsByteIndex`: the characters before the first delimiter are ASCII. `Requests.Parse`
  requires this of all three words whenever the bytes decode (`InModelledDomain`). Undecodable
  buffers are covered without restriction. Nothing is claimed for other inputs, on which the
  Rust code can panic.

Decoding covers the whole buffer, not just the request line. Bytes after the line that are not
valid UTF-8 therefore make the whole parse fail with `InvalidEncoding`
(`TrailingBytesMustDecode`), even though nothing after the third delimiter is ever read. Text
after the third delimiter that does decode plays no part (`TextAfterLineIgnored`,
`TrailingTextIgnored`).

## Model

| member | source | states |
|---|---|---|
| Words.NextWord | src/http/request.rs:46-53 | `None` exactly when the text holds no space and no CR. Otherwise it returns the text before the first delimiter and the text after it, the delimiter itself dropped. |
| Words.FirstDelimiterIsFirst | src/http/request.rs:47-48 | The loop stops at the first delimiter: a prefix is delimiter-free exactly when it ends at or before the first delimiter. |
| Words.NextWordDecomposes | src/http/request.rs:47-49 | A returned pair is a delimiter-free ASCII word, then one delimiter, then the remainder, and the three rebuild the input. The word may be empty. |
| Words.NextWordSplitsAt | src/http/request.rs:47-49 | Converse: a delimiter-free ASCII word, followed by a space or CR and anything else, comes back as exactly that word and that remainder. |
| Utf8.Decode | src/http/request.rs:19 | `str::from_utf8`: on success, one character per well-formed sequence, so never more characters than bytes. On failure, an offset inside the buffer. |
| Utf8.DecodeEncode | src/http/request.rs:19 | Round trip: every text's UTF-8 encoding decodes back to that text. |
| Utf8.DecodeAppend | src/http/request.rs:19 | Decoding runs left to right. After a prefix that decodes, the whole decodes exactly when the rest does, and the characters concatenate. |
| Utf8.ValidUpToPrefixDecodes | src/http/request.rs:19 | The offset a decoding error reports is exact: the bytes before it decode. |
| Utf8.ValidUpToIsIllFormed | src/http/request.rs:19 | At the reported offset no well-formed UTF-8 sequence starts. |
| ParseErrors.Message | src/http/request.rs:62-71 | Every message starts "Invalid " and names its error, so the error can be recovered from the message. |
| ParseErrors.FromMethodError | src/http/request.rs:73-77 | The mapping only: every method error becomes `InvalidMethod`. |
| ParseErrors.FromUtf8Error | src/http/request.rs:79-83 | The mapping only: every decoding error becomes `InvalidEncoding`, whatever offset it reports. |
| Requests.Find | src/http/request.rs:33 | `str::find` for a character: `None` exactly when the character is absent. Otherwise the index of its first occurrence, a character index, equal to the byte offset on the ASCII target. |
| Requests.SplitTarget | src/http/request.rs:31-36 | The first part holds no `?`. The second part is absent exactly when the target holds no `?`. Rejoining the parts with `?` gives back the target. |
| Requests.ParseText | src/http/request.rs:21-42 | After decoding, the only failures are `InvalidRequest`, `InvalidProtocol` and `InvalidMethod`, and a parsed `query` never holds `?`. |
| Requests.Parse | src/http/request.rs:18-19 | `InvalidEncoding` exactly when the bytes are not UTF-8: encoding is checked before any word is read. |
| RequestProperties.NextWordConsumesOneDelimiter | src/http/request.rs:47-49 | Each successful `get_next_word` consumes exactly one delimiter. |
| RequestProperties.ShortRequestLine | src/http/request.rs:21-23 | `InvalidRequest` exactly when the decoded text holds fewer than three delimiters. |
| RequestProperties.SplitLine | src/http/request.rs:21-23 | Every text with at least three delimiters is three delimiter-free words, each followed by a delimiter, then a remainder. |
| RequestProperties.ParseTextOfWords | src/http/request.rs:21-42 | The outcome for any three-word line. A wrong protocol gives `InvalidProtocol`. With the right protocol, a rejected method gives `InvalidMethod`. Otherwise the result is the request built from the converted method and the split target. |
| RequestProperties.ProtocolCheckedBeforeMethod | src/http/request.rs:25-29 | A protocol word other than `HTTP/1.1` gives `InvalidProtocol`, whatever the method word and the method conversion. |
| RequestProperties.UnknownMethodRejected | src/http/request.rs:29 | With the right protocol, a method word the conversion rejects gives `InvalidMethod`. |
| RequestProperties.TargetSplitAtFirstQuestionMark | src/http/request.rs:31-42 | On success, `query` is the target before its first `?` and `path` is the text after it. With no `?`, `query` is the whole target and `path` is `None`. The method is the converted first word. |
| RequestProperties.TextAfterLineIgnored | src/http/request.rs:21-23 | Whatever follows the third delimiter, the outcome is the same. |
| RequestProperties.SecondWordIsSlice | src/http/request.rs:22 | The second word starts right after the first delimiter and ends at the second delimiter of the input. |
| RequestProperties.ParsedTargetIsSecondWord | src/http/request.rs:31-42 | On success, `query` and `path`, rejoined with `?`, are exactly the second word. With `SecondWordIsSlice`, both fields are slices of the input text. |
| RequestProperties.ParseRequestLine | src/http/request.rs:18-43 | Round trip: the bytes of `method SP target SP HTTP/1.1 CR LF`, for ASCII words, parse back into the method and the two parts of the target. |
| RequestProperties.JoinTargetInjective | src/http/request.rs:31-36 | A target splits at most one way into a `?`-free part and an optional remainder. |
| RequestProperties.TrailingBytesMustDecode | src/http/request.rs:19 | Bytes after a request line that are not UTF-8 make the parse `InvalidEncoding`. |
| RequestProperties.TrailingTextIgnored | src/http/request.rs:19-23 | Bytes after a three-word line that do decode leave the outcome unchanged. |
| RequestExamples.TargetWithoutQuestionMark | src/http/request.rs:31-42 | `GET /home HTTP/1.1` CR LF gives `query == "/home"`, `path == None`. |
| RequestExamples.TargetWithQuestionMark | src/http/request.rs:31-42 | `GET /search?q=rust HTTP/1.1` CR LF gives `query == "/search"`, `path == Some("q=rust")`. |
| RequestExamples.OlderProtocolRefused | src/http/request.rs:25-27 | `GET / HTTP/1.0` CR LF gives `InvalidProtocol`. |
| RequestExamples.UnknownVerbRefused | src/http/request.rs:29 | `FROB / HTTP/1.1` CR LF gives `InvalidMethod` when the conversion rejects `FROB`. |
| RequestExamples.TruncatedAfterTarget | src/http/request.rs:22 | `GET /`, with no delimiter after the target, gives `InvalidRequest`. |
| RequestExamples.UndecodableByteRefused | src/http/request.rs:19 | A leading 0xFF byte gives `InvalidEncoding`, whatever request line follows it. |

## Left out

- The verbs of `Method` and their `FromStr` conversion live in `src/http/method.rs`, which is
  not part of this model. The conversion is the parameter `methodOf`. The verbs listed in
  `HttpMethod.Method` only provide values.
- Words.NextWord: does not model what `get_next_word` does when a character before the first
  delimiter is not ASCII (a mis-split or a panic on a non-boundary slice). The precondition
  `CharIndexIsByteIndex` excludes those inputs.
- Requests.Parse: requires `InModelledDomain`, which is the restriction above applied to the
  three words of every buffer that decodes.
- Utf8.Decode: `Utf8Error` keeps only `valid_up_to`. `error_len` is not modelled, because the
  error is converted to `InvalidEncoding` without looking at it.
- Utf8.DecodeAppend: for a failing remainder it states only that the whole fails, not where.
  The exact offset is stated by `ValidUpToPrefixDecodes` and `ValidUpToIsIllFormed`.
- Lifetimes and zero-copy borrowing: fields are values equal to the slices of the input they
  borrow (`SecondWordIsSlice`, `ParsedTargetIsSecondWord`), at character positions. Byte
  positions coincide with them under the ASCII precondition.
- `Display` and `Debug` for `ParseError` (lines 85-94) both write `message()`. Formatter
  plumbing is not modelled, and `Message` stands for both.
- The field `method` of `Request` is called `verb` here, because `method` is a Dafny keyword.
- The unused `io::Write` import has no counterpart.
