/** The hand-rolled splitter `get_next_word` of src/http/request.rs. Its
    delimiters are exactly the space and the carriage return, never other
    whitespace. */
module Words {
  import opened Wrappers
  import opened Utf8

  predicate IsDelimiter(c: char) {
    c == ' ' || c == '\r'
  }

  predicate HasNoDelimiter(s: seq<char>) {
    forall i :: 0 <= i < |s| ==> !IsDelimiter(s[i])
  }

  /** Reference definition: the index of the first delimiter of `s`, or `|s|`
      when `s` has none. */
  function FirstDelimiter(s: seq<char>): (i: nat)
    ensures i <= |s|
    ensures i < |s| ==> IsDelimiter(s[i])
  {
    if |s| == 0 || IsDelimiter(s[0]) then 0
    else 1 + FirstDelimiter(s[1..])
  }

  /** `FirstDelimiter` is the first: the prefix before any index `k` is
      delimiter-free exactly when `k` does not pass it. */
  lemma {:induction false} FirstDelimiterIsFirst(s: seq<char>, k: nat)
    requires k <= |s|
    ensures HasNoDelimiter(s[..k]) <==> k <= FirstDelimiter(s)
  {
    if k > 0 {
      assert s[..k][0] == s[0];
      if !IsDelimiter(s[0]) {
        FirstDelimiterIsFirst(s[1..], k - 1);
        assert s[1..][..k - 1] == s[..k][1..];
        assert HasNoDelimiter(s[..k]) <==> HasNoDelimiter(s[..k][1..]) by {
          assert forall j :: 1 <= j < k ==> s[..k][j] == s[..k][1..][j - 1];
        }
      }
    }
  }

  /** The delimiter that ends a delimiter-free prefix is the first one. */
  lemma FirstDelimiterAt(s: seq<char>, k: nat)
    requires k < |s| && IsDelimiter(s[k]) && HasNoDelimiter(s[..k])
    ensures FirstDelimiter(s) == k
  {
    FirstDelimiterIsFirst(s, k);
    FirstDelimiterIsFirst(s, k + 1);
    assert s[..k + 1][k] == s[k];
  }

  /** `get_next_word` enumerates characters but slices the UTF-8 text with the
      character count as a byte offset. The two agree exactly when every
      character before the delimiter it finds is ASCII; with no delimiter
      nothing is sliced. This is the condition under which the model below is
      the Rust function. */
  predicate CharIndexIsByteIndex(s: seq<char>) {
    FirstDelimiter(s) < |s| ==> IsAsciiText(s[..FirstDelimiter(s)])
  }

  /** The `for` loop of `get_next_word`, resumed at character `idx`: the first
      delimiter at or after `idx` splits `s` into the word before it and the
      remainder after it. */
  function NextWordFrom(s: seq<char>, idx: nat): (r: Option<(seq<char>, seq<char>)>)
    requires idx <= |s| && HasNoDelimiter(s[..idx])
    requires CharIndexIsByteIndex(s)
    ensures r.None? <==> FirstDelimiter(s) == |s|
    ensures r.Some? ==> r.value == (s[..FirstDelimiter(s)], s[FirstDelimiter(s) + 1..])
    decreases |s| - idx
  {
    if idx == |s| then
      FirstDelimiterIsFirst(s, idx);
      None
    else if IsDelimiter(s[idx]) then
      FirstDelimiterAt(s, idx);
      Some((s[..idx], s[idx + 1..]))
    else
      assert s[..idx + 1] == s[..idx] + [s[idx]];
      NextWordFrom(s, idx + 1)
  }

  /** `get_next_word`: `None` when `s` holds no delimiter, otherwise the text
      before the first delimiter and the text after it. */
  function NextWord(s: seq<char>): (r: Option<(seq<char>, seq<char>)>)
    requires CharIndexIsByteIndex(s)
    ensures r.None? <==> HasNoDelimiter(s)
    ensures r.Some? ==> && FirstDelimiter(s) < |s|
                        && r.value == (s[..FirstDelimiter(s)], s[FirstDelimiter(s) + 1..])
  {
    FirstDelimiterIsFirst(s, |s|);
    assert s[..|s|] == s;
    NextWordFrom(s, 0)
  }

  /** What `get_next_word` returns, without reference to `FirstDelimiter`: a
      delimiter-free word (possibly empty, as on a leading space), the
      delimiter found, and the remainder, which together give back `s`. */
  lemma NextWordDecomposes(s: seq<char>)
    requires CharIndexIsByteIndex(s) && NextWord(s).Some?
    ensures var (word, rest) := NextWord(s).value;
            && |word| < |s|
            && IsDelimiter(s[|word|])
            && HasNoDelimiter(word)
            && IsAsciiText(word)
            && s == word + [s[|word|]] + rest
  {
    var i := FirstDelimiter(s);
    FirstDelimiterIsFirst(s, i);
    assert s == s[..i] + [s[i]] + s[i + 1..];
  }

  /** Converse of `NextWord`'s contract: a text made of a delimiter-free word, a
      delimiter and any remainder is split back into exactly that word and
      remainder. */
  lemma NextWordSplitsAt(word: seq<char>, d: char, rest: seq<char>)
    requires HasNoDelimiter(word) && IsDelimiter(d) && IsAsciiText(word)
    ensures CharIndexIsByteIndex(word + [d] + rest)
    ensures NextWord(word + [d] + rest) == Some((word, rest))
  {
    var s := word + [d] + rest;
    assert s[..|word|] == word;
    FirstDelimiterAt(s, |word|);
    assert s[|word| + 1..] == rest;
  }
}
