/** Base64 with the standard alphabet and '=' padding (section 4 of RFC 4648),
    as Python's `base64.b64encode` produces it.  `Decode` is its inverse on
    well-formed text and is proved to undo `Encode`. */
module Base64 {
  import opened Bits
  import opened Wrappers

  /** A 6-bit value as a character of the alphabet A-Z, a-z, 0-9, '+', '/'. */
  function CharOf(i: nat): (c: char)
    requires i < 64
  {
    if i < 26 then ('A' as int + i) as char
    else if i < 52 then ('a' as int + (i - 26)) as char
    else if i < 62 then ('0' as int + (i - 52)) as char
    else if i == 62 then '+'
    else '/'
  }

  /** The 6-bit value of an alphabet character; None for anything else ('=' included). */
  function IndexOf(c: char): (r: Option<nat>)
    ensures r.Some? ==> r.value < 64
  {
    if 'A' <= c <= 'Z' then Some(c as int - 'A' as int)
    else if 'a' <= c <= 'z' then Some(c as int - 'a' as int + 26)
    else if '0' <= c <= '9' then Some(c as int - '0' as int + 52)
    else if c == '+' then Some(62)
    else if c == '/' then Some(63)
    else None
  }

  lemma IndexOfCharOf(i: nat)
    requires i < 64
    ensures IndexOf(CharOf(i)) == Some(i)
    ensures CharOf(i) != '='
  {
  }

  /** A byte as an integer. */
  type Octet = x: nat | x < 256

  // The four 6-bit values of a group of three bytes a, b, c, and the bytes
  // they give back.

  function S0(a: Octet): (r: nat)
    ensures r < 64
  {
    a / 4
  }

  function S1(a: Octet, b: Octet): (r: nat)
    ensures r < 64
  {
    a % 4 * 16 + b / 16
  }

  function S2(b: Octet, c: Octet): (r: nat)
    ensures r < 64
  {
    b % 16 * 4 + c / 64
  }

  function S3(c: Octet): (r: nat)
    ensures r < 64
  {
    c % 64
  }

  function D0(i0: nat, i1: nat): (r: Octet)
    requires i0 < 64 && i1 < 64
  {
    i0 * 4 + i1 / 16
  }

  function D1(i1: nat, i2: nat): (r: Octet)
    requires i1 < 64 && i2 < 64
  {
    i1 % 16 * 16 + i2 / 4
  }

  function D2(i2: nat, i3: nat): (r: Octet)
    requires i2 < 64 && i3 < 64
  {
    i2 % 4 * 64 + i3
  }

  /** Splitting three bytes into four sextets and joining them again is the identity. */
  lemma SextetsRoundTrip(a: Octet, b: Octet, c: Octet)
    ensures D0(S0(a), S1(a, b)) == a
    ensures D1(S1(a, b), S2(b, c)) == b
    ensures D2(S2(b, c), S3(c)) == c
  {
  }

  /** Encoding of byte values, three at a time; a final group of one or two
      bytes is padded with '='. */
  function EncodeValues(v: seq<Octet>): (r: string)
    decreases |v|
  {
    if |v| == 0 then ""
    else if |v| == 1 then
      [CharOf(S0(v[0])), CharOf(S1(v[0], 0)), '=', '=']
    else if |v| == 2 then
      [CharOf(S0(v[0])), CharOf(S1(v[0], v[1])), CharOf(S2(v[1], 0)), '=']
    else
      [CharOf(S0(v[0])), CharOf(S1(v[0], v[1])), CharOf(S2(v[1], v[2])), CharOf(S3(v[2]))]
      + EncodeValues(v[3..])
  }

  /** Decoding four characters at a time; None for text that is not the
      encoding of some byte string. */
  function DecodeValues(s: string): (r: Option<seq<Octet>>)
    decreases |s|
  {
    if |s| == 0 then Some([])
    else if |s| < 4 then None
    else
      var i0, i1, i2, i3 := IndexOf(s[0]), IndexOf(s[1]), IndexOf(s[2]), IndexOf(s[3]);
      if i0.None? || i1.None? then None
      else if |s| == 4 && s[2] == '=' && s[3] == '=' then
        Some([D0(i0.value, i1.value)])
      else if |s| == 4 && i2.Some? && s[3] == '=' then
        Some([D0(i0.value, i1.value), D1(i1.value, i2.value)])
      else if i2.None? || i3.None? then None
      else
        var rest := DecodeValues(s[4..]);
        if rest.None? then None
        else Some([D0(i0.value, i1.value), D1(i1.value, i2.value), D2(i2.value, i3.value)] + rest.value)
  }

  lemma {:induction false} DecodeEncodeValues(v: seq<Octet>)
    ensures DecodeValues(EncodeValues(v)) == Some(v)
    decreases |v|
  {
    if |v| == 1 {
      var a := v[0];
      assert v == [a];
      DecodeOne(a);
    } else if |v| == 2 {
      var a, b := v[0], v[1];
      assert v == [a, b];
      DecodeTwo(a, b);
    } else if |v| > 2 {
      var a, b, c, rest := v[0], v[1], v[2], v[3..];
      DecodeEncodeValues(rest);
      assert v == [a, b, c] + rest;
      DecodeGroup(a, b, c, rest);
    }
  }

  lemma DecodeOne(a: Octet)
    ensures DecodeValues(EncodeValues([a])) == Some([a])
  {
    var s := EncodeValues([a]);
    assert s == [CharOf(S0(a)), CharOf(S1(a, 0)), '=', '='];
    DecodeQuad(s, S0(a), S1(a, 0), 64, 64);
    SextetsRoundTrip(a, 0, 0);
  }

  lemma DecodeTwo(a: Octet, b: Octet)
    ensures DecodeValues(EncodeValues([a, b])) == Some([a, b])
  {
    var s := EncodeValues([a, b]);
    assert s == [CharOf(S0(a)), CharOf(S1(a, b)), CharOf(S2(b, 0)), '='];
    DecodeQuad(s, S0(a), S1(a, b), S2(b, 0), 64);
    SextetsRoundTrip(a, b, 0);
  }

  lemma DecodeGroup(a: Octet, b: Octet, c: Octet, rest: seq<Octet>)
    requires DecodeValues(EncodeValues(rest)) == Some(rest)
    ensures DecodeValues(EncodeValues([a, b, c] + rest)) == Some([a, b, c] + rest)
  {
    var v := [a, b, c] + rest;
    var s := EncodeValues(v);
    var q := [CharOf(S0(a)), CharOf(S1(a, b)), CharOf(S2(b, c)), CharOf(S3(c))];
    assert s == q + EncodeValues(rest) by {
      assert v[3..] == rest;
    }
    assert s[4..] == EncodeValues(rest);
    assert DecodeValues(s) == Some([D0(S0(a), S1(a, b)), D1(S1(a, b), S2(b, c)), D2(S2(b, c), S3(c))] + rest) by {
      DecodeQuad(s, S0(a), S1(a, b), S2(b, c), S3(c));
    }
    SextetsRoundTrip(a, b, c);
  }

  /** Decoding one group of four characters; a sextet of 64 stands for '='. */
  lemma DecodeQuad(s: string, x0: nat, x1: nat, x2: nat, x3: nat)
    requires x0 < 64 && x1 < 64 && x2 <= 64 && x3 <= 64 && (x2 == 64 ==> x3 == 64)
    requires |s| >= 4 && s[0] == CharOf(x0) && s[1] == CharOf(x1)
    requires s[2] == (if x2 == 64 then '=' else CharOf(x2))
    requires s[3] == (if x3 == 64 then '=' else CharOf(x3))
    requires x3 == 64 ==> |s| == 4
    ensures x2 == 64 ==> DecodeValues(s) == Some([D0(x0, x1)])
    ensures x2 < 64 && x3 == 64 ==> DecodeValues(s) == Some([D0(x0, x1), D1(x1, x2)])
    ensures x3 < 64 && DecodeValues(s[4..]).Some? ==>
      DecodeValues(s) == Some([D0(x0, x1), D1(x1, x2), D2(x2, x3)] + DecodeValues(s[4..]).value)
  {
    IndexOfCharOf(x0);
    IndexOfCharOf(x1);
    if x2 < 64 { IndexOfCharOf(x2); }
    if x3 < 64 { IndexOfCharOf(x3); }
  }

  /** The integer values of a byte string. */
  function ByteValues(d: seq<Byte>): (r: seq<Octet>)
    ensures |r| == |d|
    ensures forall k :: 0 <= k < |r| ==> r[k] == Value(d[k])
  {
    Pow2Of8();
    seq(|d|, k requires 0 <= k < |d| => Value(d[k]))
  }

  lemma {:induction false} EncodeValuesLength(v: seq<Octet>)
    ensures |EncodeValues(v)| == 4 * ((|v| + 2) / 3)
    decreases |v|
  {
    if |v| > 2 {
      var m := |v| - 3;
      EncodeValuesLength(v[3..]);
      assert |EncodeValues(v)| == 4 + |EncodeValues(v[3..])|;
      assert (m + 3 + 2) / 3 == (m + 2) / 3 + 1;
    }
  }

  /** `base64.b64encode(d)`: four characters for every three bytes, rounded up. */
  function Encode(d: seq<Byte>): (r: string)
    ensures |r| == 4 * ((|d| + 2) / 3)
  {
    EncodeValuesLength(ByteValues(d));
    EncodeValues(ByteValues(d))
  }

  function ByteOf(x: nat): Byte
  {
    FromValue(x, 8)
  }

  /** The bytes a well-formed base64 text denotes. */
  function Decode(s: string): (r: Option<seq<Byte>>)
  {
    match DecodeValues(s)
    case None => None
    case Some(v) =>
      var bytes: seq<Byte> := seq(|v|, k requires 0 <= k < |v| => ByteOf(v[k]));
      Some(bytes)
  }

  /** Encoding loses nothing: decoding the text gives the bytes back. */
  lemma DecodeEncode(d: seq<Byte>)
    ensures Decode(Encode(d)) == Some(d)
  {
    var v := ByteValues(d);
    assert DecodeValues(Encode(d)) == Some(v) by {
      DecodeEncodeValues(v);
    }
    var bytes: seq<Byte> := seq(|v|, k requires 0 <= k < |v| => ByteOf(v[k]));
    forall k | 0 <= k < |d|
      ensures bytes[k] == d[k]
    {
      FromValueOfValue(d[k]);
    }
    assert bytes == d;
  }

  /** The text of n zero bytes: all 'A' apart from the padding. */
  function ZeroText(n: nat): string
  {
    if n == 0 then "" else if n == 1 then "AA==" else if n == 2 then "AAA=" else "AAAA" + ZeroText(n - 3)
  }

  lemma {:induction false} EncodeZeroValues(v: seq<Octet>)
    requires forall k :: 0 <= k < |v| ==> v[k] == 0
    ensures EncodeValues(v) == ZeroText(|v|)
    decreases |v|
  {
    var a := CharOf(0);
    assert a == 'A';
    if |v| == 1 {
      assert v[0] == 0;
      assert EncodeValues(v) == [a, a, '=', '='];
    } else if |v| == 2 {
      assert v[0] == 0 && v[1] == 0;
      assert EncodeValues(v) == [a, a, a, '='];
    } else if |v| >= 3 {
      assert v[0] == 0 && v[1] == 0 && v[2] == 0;
      EncodeZeroValues(v[3..]);
      assert EncodeValues(v) == [a, a, a, a] + EncodeValues(v[3..]);
    }
  }

  /** n copies of 'A'. */
  function RepeatA(n: nat): (r: string)
    ensures |r| == n && forall k :: 0 <= k < n ==> r[k] == 'A'
  {
    if n == 0 then "" else "A" + RepeatA(n - 1)
  }

  lemma {:induction false} ZeroTextPadded(k: nat)
    ensures ZeroText(3 * k + 2) == RepeatA(4 * k + 3) + "="
  {
    if k > 0 {
      ZeroTextPadded(k - 1);
      var m := 4 * (k - 1) + 3;
      assert RepeatA(m + 4) == "AAAA" + RepeatA(m);
    }
  }

  /** Twenty zero bytes encode as 27 'A' and one '='. */
  lemma EncodeZeros(d: seq<Byte>)
    requires |d| == 20 && forall k :: 0 <= k < |d| ==> d[k] == ZeroByte
    ensures Encode(d) == RepeatA(27) + "="
  {
    assert Encode(d) == ZeroText(20) by {
      assert Value(ZeroByte) == 0 by { ZeroValue(8); }
      EncodeZeroValues(ByteValues(d));
    }
    ZeroTextPadded(6);
  }

  lemma {:induction false} ZeroValue(n: nat)
    ensures Value(Zeros(n)) == 0
  {
    if n > 0 {
      ZeroValue(n - 1);
      assert Zeros(n)[1..] == Zeros(n - 1);
    }
  }
}
