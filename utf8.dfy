/** UTF-8 as the two ends of the feed use it: the client turns message text
    into bytes with `Buffer.from(text)`, and the program accepts instruction
    data only when Rust's `std::str::from_utf8` accepts it. Both follow the
    well-formed byte sequences of RFC 3629, section 4. Dafny's `char` is a
    Unicode scalar value, so a string here has no lone surrogates. */
module Utf8 {
  import opened Bytes

  /** The scalar value of `c` as an integer. */
  function Scalar(c: char): (n: int)
    ensures 0 <= n < 0xD800 || 0xE000 <= n < 0x11_0000
  {
    c as int
  }

  /** The UTF-8 encoding of one scalar value (RFC 3629, section 3). */
  function EncodeScalar(c: char): (b: seq<byte>)
    ensures 1 <= |b| <= 4
  {
    var n := Scalar(c);
    if n < 0x80 then [n]
    else if n < 0x800 then [0xC0 + n / 64, 0x80 + n % 64]
    else if n < 0x1_0000 then [0xE0 + n / 4096, 0x80 + (n / 64) % 64, 0x80 + n % 64]
    else [0xF0 + n / 262144, 0x80 + (n / 4096) % 64, 0x80 + (n / 64) % 64, 0x80 + n % 64]
  }

  /** `Buffer.from(text)`: the UTF-8 bytes of a whole string. */
  function Encode(s: string): (b: seq<byte>)
    ensures |s| <= |b| <= 4 * |s|
  {
    if s == [] then [] else EncodeScalar(s[0]) + Encode(s[1..])
  }

  predicate IsContinuation(x: byte) { 0x80 <= x <= 0xBF }

  /** The length of the well-formed sequence that starts `b`, or 0 when `b` is
      empty or does not start with one (the table in RFC 3629, section 4:
      no overlong forms, no surrogates, nothing above U+10FFFF). */
  function Width(b: seq<byte>): (w: nat)
    ensures w <= 4 && w <= |b|
  {
    if |b| == 0 then 0
    else if b[0] <= 0x7F then 1
    else if 0xC2 <= b[0] <= 0xDF then
      if |b| >= 2 && IsContinuation(b[1]) then 2 else 0
    else if 0xE0 <= b[0] <= 0xEF then
      var lo := if b[0] == 0xE0 then 0xA0 else 0x80;
      var hi := if b[0] == 0xED then 0x9F else 0xBF;
      if |b| >= 3 && lo <= b[1] <= hi && IsContinuation(b[2]) then 3 else 0
    else if 0xF0 <= b[0] <= 0xF4 then
      var lo := if b[0] == 0xF0 then 0x90 else 0x80;
      var hi := if b[0] == 0xF4 then 0x8F else 0xBF;
      if |b| >= 4 && lo <= b[1] <= hi && IsContinuation(b[2]) && IsContinuation(b[3]) then 4 else 0
    else 0
  }

  /** Rust's `from_utf8(b).is_ok()`: `b` is a concatenation of well-formed
      sequences. */
  predicate Valid(b: seq<byte>)
    decreases |b|
  {
    b == [] || (Width(b) > 0 && Valid(b[Width(b)..]))
  }

  /** The number a lead byte and its continuation bytes spell, `w` of them in
      all: the payload bits of each byte, most significant first. */
  function Combine(b: seq<byte>, w: nat): int
    requires 1 <= w <= 4 && w <= |b|
  {
    var x0 := b[0] as int;
    if w == 1 then x0
    else
      var x1 := b[1] as int - 0x80;
      if w == 2 then (x0 - 0xC0) * 64 + x1
      else
        var x2 := b[2] as int - 0x80;
        if w == 3 then (x0 - 0xE0) * 4096 + x1 * 64 + x2
        else (x0 - 0xF0) * 262144 + x1 * 4096 + x2 * 64 + (b[3] as int - 0x80)
  }

  /** The scalar value a well-formed sequence of width `Width(b)` stands for. */
  function DecodeFirst(b: seq<byte>): (c: char)
    requires Width(b) > 0
  {
    var w := Width(b);
    var n := Combine(b, w);
    assert w == 3 ==> n < 0xD800 || 0xE000 <= n;
    n as char
  }

  /** Decoding of UTF-8 bytes into a string; `None` on ill-formed input. */
  function Decode(b: seq<byte>): (r: Option<string>)
    decreases |b|
  {
    if b == [] then Some([])
    else if Width(b) == 0 then None
    else match Decode(b[Width(b)..])
      case None => None
      case Some(rest) => Some([DecodeFirst(b)] + rest)
  }

  /** Decoding succeeds exactly on the inputs `from_utf8` accepts. */
  lemma {:induction false} DecodeSucceedsIffValid(b: seq<byte>)
    ensures Decode(b).Some? <==> Valid(b)
    decreases |b|
  {
    if b != [] && Width(b) > 0 {
      DecodeSucceedsIffValid(b[Width(b)..]);
    }
  }

  /** The encoding of one scalar value is a well-formed sequence, whatever
      follows it, and decodes back to that scalar value. */
  lemma EncodeScalarDecodes(c: char, rest: seq<byte>)
    ensures Width(EncodeScalar(c) + rest) == |EncodeScalar(c)|
    ensures DecodeFirst(EncodeScalar(c) + rest) == c
  {
    var n := Scalar(c);
    var b := EncodeScalar(c) + rest;
    if n < 0x80 {
    } else if n < 0x800 {
      TwoByteForm(n, b);
    } else if n < 0x1_0000 {
      ThreeByteForm(n, b);
    } else {
      FourByteForm(n, b);
    }
  }

  lemma TwoByteForm(n: int, b: seq<byte>)
    requires 0x80 <= n < 0x800 && |b| >= 2
    requires b[0] == 0xC0 + n / 64 && b[1] == 0x80 + n % 64
    ensures Width(b) == 2 && Combine(b, 2) == n
  {
  }

  lemma ThreeByteForm(n: int, b: seq<byte>)
    requires 0x800 <= n < 0x1_0000 && !(0xD800 <= n < 0xE000) && |b| >= 3
    requires b[0] == 0xE0 + n / 4096 && b[1] == 0x80 + (n / 64) % 64 && b[2] == 0x80 + n % 64
    ensures Width(b) == 3 && Combine(b, 3) == n
  {
    var d0, d1, d2 := n / 4096, (n / 64) % 64, n % 64;
    assert n / 64 == d0 * 64 + d1;
    assert n == d0 * 4096 + d1 * 64 + d2;
    assert d0 == 0 ==> d1 >= 32;
    assert d0 == 13 ==> d1 < 32;
  }

  lemma FourByteForm(n: int, b: seq<byte>)
    requires 0x1_0000 <= n < 0x11_0000 && |b| >= 4
    requires b[0] == 0xF0 + n / 262144 && b[1] == 0x80 + (n / 4096) % 64
    requires b[2] == 0x80 + (n / 64) % 64 && b[3] == 0x80 + n % 64
    ensures Width(b) == 4 && Combine(b, 4) == n
  {
    var d0, d1, d2, d3 := n / 262144, (n / 4096) % 64, (n / 64) % 64, n % 64;
    assert n / 4096 == d0 * 64 + d1;
    assert n / 64 == (n / 4096) * 64 + d2;
    assert n == d0 * 262144 + d1 * 4096 + d2 * 64 + d3;
    assert d0 == 0 ==> d1 >= 16;
    assert d0 == 4 ==> d1 < 16;
  }

  /** Every string's encoding passes `from_utf8`. */
  lemma {:induction false} EncodeIsValid(s: string)
    ensures Valid(Encode(s))
  {
    if s != [] {
      EncodeScalarDecodes(s[0], Encode(s[1..]));
      assert Encode(s)[|EncodeScalar(s[0])|..] == Encode(s[1..]);
      EncodeIsValid(s[1..]);
    }
  }

  /** Round trip: decoding the encoding of a string gives the string back. */
  lemma {:induction false} DecodeEncode(s: string)
    ensures Decode(Encode(s)) == Some(s)
  {
    if s != [] {
      var e, rest := EncodeScalar(s[0]), Encode(s[1..]);
      assert Encode(s) == e + rest;
      EncodeScalarDecodes(s[0], rest);
      assert (e + rest)[|e|..] == rest;
      DecodeEncode(s[1..]);
      calc {
        Decode(e + rest);
        Some([DecodeFirst(e + rest)] + Decode(rest).value);
        Some([s[0]] + s[1..]);
        { assert s == [s[0]] + s[1..]; }
        Some(s);
      }
    }
  }

  /** Encoding the result of a well-formed sequence's decoding gives back that
      sequence. */
  lemma EncodeDecodeFirst(b: seq<byte>)
    requires Width(b) > 0
    ensures EncodeScalar(DecodeFirst(b)) == b[..Width(b)]
  {
    var w := Width(b);
    var n := Scalar(DecodeFirst(b));
    assert n == Combine(b, w);
    if w == 2 {
      SplitTwo(b[0] as int - 0xC0, b[1] as int - 0x80);
    } else if w == 3 {
      SplitThree(b[0] as int - 0xE0, b[1] as int - 0x80, b[2] as int - 0x80);
    } else if w == 4 {
      SplitFour(b[0] as int - 0xF0, b[1] as int - 0x80, b[2] as int - 0x80, b[3] as int - 0x80);
    }
  }

  lemma SplitTwo(x0: int, x1: int)
    requires 0 <= x0 && 0 <= x1 < 64
    ensures (x0 * 64 + x1) / 64 == x0 && (x0 * 64 + x1) % 64 == x1
  {
  }

  lemma SplitThree(x0: int, x1: int, x2: int)
    requires 0 <= x0 && 0 <= x1 < 64 && 0 <= x2 < 64
    ensures var n := x0 * 4096 + x1 * 64 + x2;
      n / 4096 == x0 && (n / 64) % 64 == x1 && n % 64 == x2
  {
    var n := x0 * 4096 + x1 * 64 + x2;
    SplitTwo(x0 * 64 + x1, x2);
    SplitTwo(x0, x1);
    assert n / 64 == x0 * 64 + x1;
    assert n == (x0 * 64 + x1) * 64 + x2;
  }

  lemma SplitFour(x0: int, x1: int, x2: int, x3: int)
    requires 0 <= x0 && 0 <= x1 < 64 && 0 <= x2 < 64 && 0 <= x3 < 64
    ensures var n := x0 * 262144 + x1 * 4096 + x2 * 64 + x3;
      n / 262144 == x0 && (n / 4096) % 64 == x1 && (n / 64) % 64 == x2 && n % 64 == x3
  {
    var m := x0 * 4096 + x1 * 64 + x2;
    var n := x0 * 262144 + x1 * 4096 + x2 * 64 + x3;
    assert n == m * 64 + x3;
    SplitTwo(m, x3);
    SplitThree(x0, x1, x2);
    assert n / 64 == m;
    assert n / 4096 == m / 64 by {
      SplitTwo(x0 * 64 + x1, x2);
      SplitThree(x0 * 64 + x1, x2, x3);
      assert n == (x0 * 64 + x1) * 4096 + x2 * 64 + x3;
    }
    SplitTwo(x0 * 64 + x1, x2);
    SplitTwo(x0, x1);
  }

  /** The other direction of the round trip: bytes that decode are the
      encoding of what they decode to, so the encoding is a bijection between
      strings and valid byte sequences. */
  lemma {:induction false} EncodeDecode(b: seq<byte>)
    requires Decode(b).Some?
    ensures Encode(Decode(b).value) == b
    decreases |b|
  {
    if b != [] {
      var w := Width(b);
      EncodeDecodeFirst(b);
      EncodeDecode(b[w..]);
      var s := Decode(b).value;
      assert s[0] == DecodeFirst(b) && s[1..] == Decode(b[w..]).value;
      assert b == b[..w] + b[w..];
    }
  }

  /** A zero byte occurs in the encoding exactly where the string holds
      U+0000. */
  lemma {:induction false} ZeroByteIffNul(s: string)
    ensures (0 in Encode(s)) <==> ('\0' in s)
  {
    if s != [] {
      ZeroByteIffNul(s[1..]);
      var e := EncodeScalar(s[0]);
      assert Encode(s) == e + Encode(s[1..]);
      assert (0 in e) <==> s[0] == '\0';
      assert s == [s[0]] + s[1..];
    }
  }

  /** Cutting valid UTF-8 at its first zero byte leaves valid UTF-8: a zero
      byte never sits inside a multi-byte sequence. */
  lemma {:induction false} PrefixBeforeZeroIsValid(b: seq<byte>)
    requires Valid(b)
    ensures Valid(b[..IndexOfZero(b, 0)])
    decreases |b|
  {
    var k := IndexOfZero(b, 0);
    if b != [] && k > 0 {
      var w := Width(b);
      var t := b[w..];
      assert forall j :: 0 <= j < w ==> b[j] != 0;
      assert w <= k;
      IndexOfZeroShift(b, w);
      PrefixBeforeZeroIsValid(t);
      assert b[..k][..w] == b[..w];
      assert Width(b[..k]) == w;
      assert b[..k][w..] == t[..k - w];
    }
  }

  /** Encoding is a homomorphism: the encoding of a concatenation is the
      concatenation of the encodings. */
  lemma {:induction false} EncodeAppend(s: string, t: string)
    ensures Encode(s + t) == Encode(s) + Encode(t)
  {
    if s == [] {
      assert s + t == t;
    } else {
      calc {
        Encode(s + t);
        == { assert (s + t)[0] == s[0] && (s + t)[1..] == s[1..] + t; }
        EncodeScalar(s[0]) + Encode(s[1..] + t);
        == { EncodeAppend(s[1..], t); }
        EncodeScalar(s[0]) + (Encode(s[1..]) + Encode(t));
        ==
        Encode(s) + Encode(t);
      }
    }
  }
}
