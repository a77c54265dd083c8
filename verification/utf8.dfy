/** UTF-8 as defined in section 3 and section 4 of RFC 3629: the checked decoding
    `str::from_utf8` performs before the request line is tokenised, and the
    encoding it inverts. */
module Utf8 {
  import opened Wrappers

  type byte = x: int | 0 <= x < 0x100

  /** Rust's `Utf8Error`: `validUpTo` is the length of the longest prefix that
      decodes, which is where the first ill-formed sequence starts. */
  datatype Utf8Error = Utf8Error(validUpTo: nat)

  predicate IsContinuation(b: byte) {
    0x80 <= b <= 0xBF
  }

  predicate IsAsciiByte(b: byte) {
    b < 0x80
  }

  predicate IsAsciiChar(c: char) {
    c as int < 0x80
  }

  predicate IsAsciiText(s: seq<char>) {
    forall i :: 0 <= i < |s| ==> IsAsciiChar(s[i])
  }

  /** A value of `char` is a Unicode scalar value. */
  predicate IsScalarValue(v: int) {
    0 <= v < 0xD800 || 0xE000 <= v < 0x11_0000
  }

  /** The length of the well-formed UTF-8 sequence `b` starts with, following the
      byte ranges of the UTF8-char rule in section 4 of RFC 3629, or 0 when `b`
      starts with none (empty, truncated, overlong, surrogate or above U+10FFFF). */
  function SequenceLength(b: seq<byte>): (n: nat)
    ensures n <= |b| && n <= 4
    ensures n == 1 <==> |b| > 0 && IsAsciiByte(b[0])
    ensures n > 1 ==> forall k :: 1 <= k < n ==> IsContinuation(b[k])
  {
    if |b| == 0 then 0
    else if b[0] <= 0x7F then 1
    else if 0xC2 <= b[0] <= 0xDF then
      if 2 <= |b| && IsContinuation(b[1]) then 2 else 0
    else if 0xE0 <= b[0] <= 0xEF then
      var lo := if b[0] == 0xE0 then 0xA0 else 0x80;
      var hi := if b[0] == 0xED then 0x9F else 0xBF;
      if 3 <= |b| && lo <= b[1] <= hi && IsContinuation(b[2]) then 3 else 0
    else if 0xF0 <= b[0] <= 0xF4 then
      var lo := if b[0] == 0xF0 then 0x90 else 0x80;
      var hi := if b[0] == 0xF4 then 0x8F else 0xBF;
      if 4 <= |b| && lo <= b[1] <= hi && IsContinuation(b[2]) && IsContinuation(b[3]) then 4 else 0
    else 0
  }

  /** The scalar value the well-formed sequence `b[..n]` encodes: the payload bits
      of the lead byte followed by six bits from each continuation byte. */
  function ScalarOf(b: seq<byte>, n: nat): (v: int)
    requires 0 < n && n == SequenceLength(b)
    ensures IsScalarValue(v)
    ensures n == 1 <==> v < 0x80
    ensures n == 2 <==> 0x80 <= v < 0x800
    ensures n == 3 <==> 0x800 <= v < 0x1_0000
    ensures n == 4 <==> 0x1_0000 <= v
  {
    var b0 := b[0] as int;
    if n == 1 then b0
    else if n == 2 then (b0 - 0xC0) * 0x40 + Payload(b[1])
    else if n == 3 then (b0 - 0xE0) * 0x1000 + Payload(b[1]) * 0x40 + Payload(b[2])
    else (b0 - 0xF0) * 0x4_0000 + Payload(b[1]) * 0x1000 + Payload(b[2]) * 0x40 + Payload(b[3])
  }

  /** The six payload bits of a continuation byte. */
  function Payload(b: byte): (p: int)
  {
    b as int - 0x80
  }

  /** `str::from_utf8`: the characters `b` encodes, or the offset of the first
      ill-formed sequence. No replacement character is ever substituted. */
  function Decode(b: seq<byte>): (r: Result<seq<char>, Utf8Error>)
    ensures r.Success? ==> |r.value| <= |b|
    ensures r.Failure? ==> r.error.validUpTo < |b|
  {
    if |b| == 0 then Success([])
    else
      var n := SequenceLength(b);
      if n == 0 then Failure(Utf8Error(0))
      else
        var c := ScalarOf(b, n) as char;
        match Decode(b[n..])
        case Success(cs) => Success([c] + cs)
        case Failure(e) => Failure(Utf8Error(n + e.validUpTo))
  }

  /** The well-formed sequence that encodes `c`: the inverse of `Decode`. */
  function EncodeChar(c: char): (b: seq<byte>)
    ensures 1 <= |b| <= 4
    ensures IsAsciiChar(c) <==> b == [c as int]
  {
    var v := c as int;
    if v < 0x80 then [v]
    else if v < 0x800 then [0xC0 + v / 0x40, 0x80 + v % 0x40]
    else if v < 0x1_0000 then [0xE0 + v / 0x1000, 0x80 + (v / 0x40) % 0x40, 0x80 + v % 0x40]
    else [0xF0 + v / 0x4_0000, 0x80 + (v / 0x1000) % 0x40, 0x80 + (v / 0x40) % 0x40, 0x80 + v % 0x40]
  }

  function Encode(s: seq<char>): (b: seq<byte>)
    ensures |s| <= |b| <= 4 * |s|
  {
    if |s| == 0 then [] else EncodeChar(s[0]) + Encode(s[1..])
  }

  /** Whatever follows it, the encoding of `c` is read back as one sequence
      carrying exactly the scalar value of `c`. */
  lemma EncodeCharDecodes(c: char, rest: seq<byte>)
    ensures SequenceLength(EncodeChar(c) + rest) == |EncodeChar(c)|
    ensures ScalarOf(EncodeChar(c) + rest, |EncodeChar(c)|) == c as int
  {
    var v := c as int;
    if v < 0x80 {
    } else if v < 0x800 {
      TwoByteDecodes(c, rest);
    } else if v < 0x1_0000 {
      ThreeByteDecodes(c, rest);
    } else {
      FourByteDecodes(c, rest);
    }
  }

  lemma TwoByteDecodes(c: char, rest: seq<byte>)
    requires 0x80 <= c as int < 0x800
    ensures SequenceLength(EncodeChar(c) + rest) == 2
    ensures ScalarOf(EncodeChar(c) + rest, 2) == c as int
  {
    var v := c as int;
    assert v == (v / 0x40) * 0x40 + v % 0x40;
  }

  lemma ThreeByteDecodes(c: char, rest: seq<byte>)
    requires 0x800 <= c as int < 0x1_0000
    ensures SequenceLength(EncodeChar(c) + rest) == 3
    ensures ScalarOf(EncodeChar(c) + rest, 3) == c as int
  {
    var v := c as int;
    assert v / 0x40 == (v / 0x1000) * 0x40 + (v / 0x40) % 0x40;
    assert v == (v / 0x40) * 0x40 + v % 0x40;
  }

  lemma FourByteDecodes(c: char, rest: seq<byte>)
    requires 0x1_0000 <= c as int
    ensures SequenceLength(EncodeChar(c) + rest) == 4
    ensures ScalarOf(EncodeChar(c) + rest, 4) == c as int
  {
    var v := c as int;
    assert v / 0x1000 == (v / 0x4_0000) * 0x40 + (v / 0x1000) % 0x40;
    assert v / 0x40 == (v / 0x1000) * 0x40 + (v / 0x40) % 0x40;
    assert v == (v / 0x40) * 0x40 + v % 0x40;
  }

  /** Round trip: decoding the encoding of any text gives the text back. */
  lemma {:induction false} DecodeEncode(s: seq<char>)
    ensures Decode(Encode(s)) == Success(s)
  {
    if |s| > 0 {
      var e := EncodeChar(s[0]);
      var b := Encode(s);
      EncodeCharDecodes(s[0], Encode(s[1..]));
      assert b[|e|..] == Encode(s[1..]);
      DecodeEncode(s[1..]);
      assert s == [s[0]] + s[1..];
    }
  }

  /** A sequence that starts `a` well-formed starts `a + b` too, and carries the same value. */
  lemma SequenceExtends(a: seq<byte>, b: seq<byte>)
    requires SequenceLength(a) > 0
    ensures SequenceLength(a + b) == SequenceLength(a)
    ensures ScalarOf(a + b, SequenceLength(a)) == ScalarOf(a, SequenceLength(a))
  {
    var n := SequenceLength(a);
    assert forall k :: 0 <= k < |a| ==> (a + b)[k] == a[k];
  }

  /** One step of `Decode`: a well-formed leading sequence contributes its character. */
  lemma DecodeStep(x: seq<byte>)
    requires SequenceLength(x) > 0
    ensures var n := SequenceLength(x);
            && (Decode(x).Success? <==> Decode(x[n..]).Success?)
            && (Decode(x).Success? ==> Decode(x).value == [ScalarOf(x, n) as char] + Decode(x[n..]).value)
            && (Decode(x).Failure? ==> Decode(x).error.validUpTo == n + Decode(x[n..]).error.validUpTo)
  {
  }

  /** The leading well-formed sequence of `b`, taken on its own, decodes. */
  lemma LeadingSequenceDecodes(b: seq<byte>)
    requires SequenceLength(b) > 0
    ensures Decode(b[..SequenceLength(b)]).Success?
  {
    var n := SequenceLength(b);
    var x := b[..n];
    assert SequenceLength(x) == n by {
      assert forall k :: 0 <= k < n ==> x[k] == b[k];
    }
    assert x[n..] == [];
    DecodeStep(x);
  }

  /** `validUpTo` points at the start of an ill-formed sequence. */
  lemma {:induction false} ValidUpToIsIllFormed(b: seq<byte>)
    requires Decode(b).Failure?
    ensures SequenceLength(b[Decode(b).error.validUpTo..]) == 0
  {
    var n := SequenceLength(b);
    if n > 0 {
      DecodeStep(b);
      ValidUpToIsIllFormed(b[n..]);
      var v := Decode(b).error.validUpTo;
      DropOfDrop(b, n, v - n);
    }
  }

  /** A prefix of `b` read as a prefix and a prefix of what follows it. */
  lemma PrefixSplits<T>(b: seq<T>, n: nat, m: nat)
    requires n + m <= |b|
    ensures b[..n + m] == b[..n] + b[n..][..m]
  {
  }

  lemma DropOfDrop<T>(b: seq<T>, n: nat, m: nat)
    requires n + m <= |b|
    ensures b[n..][m..] == b[n + m..]
  {
  }

  /** Dropping from `a + b` no more than `a` holds drops from `a` alone. */
  lemma DropOfAppend<T>(a: seq<T>, b: seq<T>, n: nat)
    requires n <= |a|
    ensures (a + b)[n..] == a[n..] + b
  {
  }

  /** `validUpTo` is exact: the prefix before it decodes. */
  lemma {:induction false} ValidUpToPrefixDecodes(b: seq<byte>)
    requires Decode(b).Failure?
    ensures Decode(b[..Decode(b).error.validUpTo]).Success?
  {
    var v := Decode(b).error.validUpTo;
    if v == 0 {
      assert b[..v] == [];
    } else {
      var n := SequenceLength(b);
      var tail := b[n..];
      assert n > 0;
      assert Decode(tail).Failure? && v == n + Decode(tail).error.validUpTo by {
        DecodeStep(b);
      }
      var v' := Decode(tail).error.validUpTo;
      assert Decode(tail[..v']).Success? by {
        ValidUpToPrefixDecodes(tail);
      }
      assert Decode(b[..n]).Success? by {
        LeadingSequenceDecodes(b);
      }
      PrefixSplits(b, n, v');
      DecodeAppend(b[..n], tail[..v']);
    }
  }

  /** Decoding goes left to right: after a prefix that decodes, the whole
      decodes exactly when the rest does, and its characters follow the prefix's. */
  lemma DecodeAppend(a: seq<byte>, b: seq<byte>)
    requires Decode(a).Success?
    ensures Decode(a + b).Success? <==> Decode(b).Success?
    ensures Decode(b).Success? ==> Decode(a + b).value == Decode(a).value + Decode(b).value
  {
    if Decode(b).Success? {
      DecodeAppendSuccess(a, b);
    } else {
      DecodeAppendFailure(a, b);
    }
  }

  /** The first well-formed sequence of `a` stays the first one of `a + b`. */
  lemma AppendStep(a: seq<byte>, b: seq<byte>)
    requires |a| > 0 && Decode(a).Success?
    ensures var n := SequenceLength(a);
            && n > 0
            && (a + b)[n..] == a[n..] + b
            && Decode(a[n..]).Success?
            && Decode(a).value == [ScalarOf(a, n) as char] + Decode(a[n..]).value
            && SequenceLength(a + b) == n
            && ScalarOf(a + b, n) == ScalarOf(a, n)
  {
    var n := SequenceLength(a);
    DropOfAppend(a, b, n);
    SequenceExtends(a, b);
    DecodeStep(a);
  }

  lemma {:induction false} DecodeAppendSuccess(a: seq<byte>, b: seq<byte>)
    requires Decode(a).Success? && Decode(b).Success?
    ensures Decode(a + b) == Success(Decode(a).value + Decode(b).value)
  {
    if |a| == 0 {
      assert a + b == b;
      assert Decode(a).value == [];
      assert Decode(a).value + Decode(b).value == Decode(b).value;
    } else {
      AppendStep(a, b);
      var n := SequenceLength(a);
      var ab := a + b;
      var c := ScalarOf(a, n) as char;
      var x := Decode(a[n..]).value;
      var y := Decode(b).value;
      assert Decode(ab[n..]) == Success(x + y) by {
        DecodeAppendSuccess(a[n..], b);
      }
      assert Decode(ab) == Success([c] + (x + y)) by {
        DecodeStep(ab);
      }
      assert [c] + (x + y) == ([c] + x) + y;
    }
  }

  lemma {:induction false} DecodeAppendFailure(a: seq<byte>, b: seq<byte>)
    requires Decode(a).Success? && Decode(b).Failure?
    ensures Decode(a + b).Failure?
  {
    if |a| == 0 {
      assert a + b == b;
    } else {
      var n := SequenceLength(a);
      var ab := a + b;
      AppendStep(a, b);
      DecodeAppendFailure(a[n..], b);
      DecodeStep(ab);
    }
  }
}
