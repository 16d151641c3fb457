/** UTF-8 (section 3 of RFC 3629) over Unicode scalar values: the encoding that file contents,
    byte limits and on-disk segment names go through. */
module Utf8 {
  import opened Wrappers
  import opened KeyOrder

  type Byte = n: int | 0 <= n < 256

  function EncodeChar(c: char): (b: seq<Byte>)
    ensures 1 <= |b| <= 4
  {
    var n := c as int;
    var high := n / 0x40;
    var higher := high / 0x40;
    if n < 0x80 then [n]
    else if n < 0x800 then [0xC0 + high, 0x80 + n % 0x40]
    else if n < 0x1_0000 then [0xE0 + higher, 0x80 + high % 0x40, 0x80 + n % 0x40]
    else [0xF0 + higher / 0x40, 0x80 + higher % 0x40, 0x80 + high % 0x40, 0x80 + n % 0x40]
  }

  function Encode(s: string): (b: seq<Byte>)
    ensures s != [] ==> b != []
  {
    if s == "" then [] else EncodeChar(s[0]) + Encode(s[1..])
  }

  predicate IsTail(b: Byte) {
    0x80 <= b < 0xC0
  }

  predicate IsScalar(n: int) {
    0 <= n < 0xD800 || 0xE000 <= n < 0x11_0000
  }

  /** `n` followed by the six payload bits of a continuation byte. */
  function Shift(n: int, b: Byte): int {
    n * 0x40 + (b as int - 0x80)
  }

  /** The payload of a leading byte whose marker bits are `marker`. */
  function Lead(b: Byte, marker: int): int {
    b as int - marker
  }

  /** The first encoded character of `b` and its length; None for a malformed, overlong,
      surrogate or out-of-range start. */
  function DecodeChar(b: seq<Byte>): (r: Option<(char, nat)>)
    ensures r.Some? ==> 1 <= r.value.1 <= |b|
  {
    if |b| == 0 then None
    else if b[0] < 0x80 then Some((b[0] as char, 1))
    else if 0xC2 <= b[0] < 0xE0 && |b| >= 2 && IsTail(b[1]) then
      Some((Shift(Lead(b[0], 0xC0), b[1]) as char, 2))
    else if 0xE0 <= b[0] < 0xF0 && |b| >= 3 && IsTail(b[1]) && IsTail(b[2]) then
      var n := Shift(Shift(Lead(b[0], 0xE0), b[1]), b[2]);
      if n >= 0x800 && IsScalar(n) then Some((n as char, 3)) else None
    else if 0xF0 <= b[0] < 0xF5 && |b| >= 4 && IsTail(b[1]) && IsTail(b[2]) && IsTail(b[3]) then
      var n := Shift(Shift(Shift(Lead(b[0], 0xF0), b[1]), b[2]), b[3]);
      if n >= 0x1_0000 && IsScalar(n) then Some((n as char, 4)) else None
    else None
  }

  function Decode(b: seq<Byte>): (r: Option<string>) {
    if b == [] then Some("")
    else
      var first := DecodeChar(b);
      if first.None? then None
      else
        var rest := Decode(b[first.value.1..]);
        if rest.None? then None else Some([first.value.0] + rest.value)
  }

  /** The table of section 3 of RFC 3629: which bytes encode a character, and what they add up to. */
  lemma EncodingTable(c: char)
    ensures var n, b := c as int, EncodeChar(c);
            && (0x0 <= n <= 0x7F ==> |b| == 1 && b[0] == n)
            && (0x80 <= n <= 0x7FF ==>
                  && |b| == 2 && 0xC2 <= b[0] <= 0xDF && 0x80 <= b[1] <= 0xBF
                  && (b[0] as int - 0xC0) * 64 + (b[1] as int - 0x80) == n)
            && (0x800 <= n <= 0xFFFF ==>
                  && |b| == 3 && 0xE0 <= b[0] <= 0xEF && 0x80 <= b[1] <= 0xBF && 0x80 <= b[2] <= 0xBF
                  && (b[0] as int - 0xE0) * 4096 + (b[1] as int - 0x80) * 64 + (b[2] as int - 0x80) == n)
            && (0x10000 <= n <= 0x10FFFF ==>
                  && |b| == 4 && 0xF0 <= b[0] <= 0xF4 && 0x80 <= b[1] <= 0xBF && 0x80 <= b[2] <= 0xBF && 0x80 <= b[3] <= 0xBF
                  && (b[0] as int - 0xF0) * 262144 + (b[1] as int - 0x80) * 4096
                     + (b[2] as int - 0x80) * 64 + (b[3] as int - 0x80) == n)
  {
    ShiftBack(c as int);
    ShiftBack(c as int / 0x40);
    ShiftBack(c as int / 0x40 / 0x40);
  }

  lemma ShiftBack(n: int)
    requires n >= 0
    ensures Shift(n / 0x40, 0x80 + n % 0x40) == n
  {
  }

  lemma ShiftParts(n: int, b: Byte)
    requires n >= 0 && IsTail(b)
    ensures Shift(n, b) / 0x40 == n && 0x80 + Shift(n, b) % 0x40 == b
  {
  }

  lemma DecodeEncodedChar(c: char, rest: seq<Byte>)
    ensures DecodeChar(EncodeChar(c) + rest) == Some((c, |EncodeChar(c)|))
  {
    var n := c as int;
    ShiftBack(n);
    ShiftBack(n / 0x40);
    ShiftBack(n / 0x40 / 0x40);
    assert (EncodeChar(c) + rest)[..|EncodeChar(c)|] == EncodeChar(c);
  }

  lemma EncodeDecodedChar(b: seq<Byte>)
    requires DecodeChar(b).Some?
    ensures var (c, n) := DecodeChar(b).value; b[..n] == EncodeChar(c)
  {
    var n := DecodeChar(b).value.1;
    if n == 2 {
      ShiftParts(Lead(b[0], 0xC0), b[1]);
    } else if n == 3 {
      var high := Shift(Lead(b[0], 0xE0), b[1]);
      ShiftParts(Lead(b[0], 0xE0), b[1]);
      ShiftParts(high, b[2]);
    } else if n == 4 {
      var higher := Shift(Lead(b[0], 0xF0), b[1]);
      ShiftParts(Lead(b[0], 0xF0), b[1]);
      ShiftParts(higher, b[2]);
      ShiftParts(Shift(higher, b[2]), b[3]);
    }
  }

  /** Every string decodes back from its encoding. */
  lemma {:induction false} DecodeEncode(s: string)
    ensures Decode(Encode(s)) == Some(s)
  {
    if s == "" {
    } else {
      var head, tail := EncodeChar(s[0]), Encode(s[1..]);
      DecodeEncodedChar(s[0], tail);
      assert (head + tail)[|head|..] == tail;
      DecodeEncode(s[1..]);
      assert s == [s[0]] + s[1..];
    }
  }

  /** Only the exact encoding of a string decodes to it. */
  lemma {:induction false} EncodeDecode(b: seq<Byte>)
    requires Decode(b).Some?
    ensures Encode(Decode(b).value) == b
  {
    hide DecodeChar, EncodeChar;
    if b == [] {
    } else {
      DecodedFirst(b);
      var (c, n) := DecodeChar(b).value;
      EncodeDecodedChar(b);
      EncodeDecode(b[n..]);
      assert Decode(b).value[1..] == Decode(b[n..]).value;
      assert b == b[..n] + b[n..];
    }
  }

  lemma DecodedFirst(b: seq<Byte>)
    requires b != [] && Decode(b).Some?
    ensures DecodeChar(b).Some? && Decode(b[DecodeChar(b).value.1..]).Some?
    ensures Decode(b).value == [DecodeChar(b).value.0] + Decode(b[DecodeChar(b).value.1..]).value
  {
    hide DecodeChar;
  }

  lemma EncodeInjective(s: string, t: string)
    requires Encode(s) == Encode(t)
    ensures s == t
  {
    DecodeEncode(s);
    DecodeEncode(t);
  }

  /** Byte order, as an object store that compares encoded names uses it. */
  predicate BytesLt(a: seq<Byte>, b: seq<Byte>) {
    b != [] && (a == [] || a[0] < b[0] || (a[0] == b[0] && BytesLt(a[1..], b[1..])))
  }

  lemma {:induction false} BytesLtPrefix(p: seq<Byte>, a: seq<Byte>, b: seq<Byte>)
    ensures BytesLt(p + a, p + b) <==> BytesLt(a, b)
  {
    if p == [] {
      assert p + a == a && p + b == b;
    } else {
      BytesLtPrefix(p[1..], a, b);
      assert (p + a)[1..] == p[1..] + a && (p + b)[1..] == p[1..] + b;
    }
  }

  lemma CharOrder(c: char, d: char, a: seq<Byte>, b: seq<Byte>)
    requires c < d
    ensures BytesLt(EncodeChar(c) + a, EncodeChar(d) + b)
    ensures !BytesLt(EncodeChar(d) + b, EncodeChar(c) + a)
  {
    var x, y := EncodeChar(c) + a, EncodeChar(d) + b;
    var i := FirstDifference(c, d);
    BytesLtPrefix(x[..i], x[i..], y[i..]);
    BytesLtPrefix(x[..i], y[i..], x[i..]);
    assert x == x[..i] + x[i..] && y == x[..i] + y[i..] by {
      assert x[..i] == EncodeChar(c)[..i] && y[..i] == EncodeChar(d)[..i];
    }
  }

  /** Where the encodings of two characters first differ, and that the difference goes their way. */
  lemma FirstDifference(c: char, d: char) returns (i: nat)
    requires c < d
    ensures i < |EncodeChar(c)| && i < |EncodeChar(d)|
    ensures EncodeChar(c)[..i] == EncodeChar(d)[..i] && EncodeChar(c)[i] < EncodeChar(d)[i]
  {
    var m, n := c as int, d as int;
    var x, y := EncodeChar(c), EncodeChar(d);
    ShiftBack(m);
    ShiftBack(n);
    ShiftBack(m / 0x40);
    ShiftBack(n / 0x40);
    ShiftBack(m / 0x40 / 0x40);
    ShiftBack(n / 0x40 / 0x40);
    if x[0] != y[0] {
      i := 0;
    } else if x[1] != y[1] {
      i := 1;
    } else if x[2] != y[2] {
      i := 2;
    } else {
      i := 3;
    }
  }

  /** Comparing strings by code point is comparing their encodings by byte. */
  lemma {:induction false} OrderAgrees(a: string, b: string)
    ensures Lt(a, b) <==> BytesLt(Encode(a), Encode(b))
  {
    if a == "" || b == "" {
    } else {
      if a[0] == b[0] {
        BytesLtPrefix(EncodeChar(a[0]), Encode(a[1..]), Encode(b[1..]));
        OrderAgrees(a[1..], b[1..]);
      } else if a[0] < b[0] {
        CharOrder(a[0], b[0], Encode(a[1..]), Encode(b[1..]));
      } else {
        CharOrder(b[0], a[0], Encode(b[1..]), Encode(a[1..]));
      }
    }
  }
}
