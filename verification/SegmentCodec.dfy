/** File names for key segments: percent-encoding in the style of section 2.1 of RFC 3986, over the
    segment's UTF-8 bytes. */
module SegmentCodec {
  import opened Wrappers
  import opened Utf8
  import opened Paths

  const BODY_SUFFIX := "%obj"
  const SIDECAR_SUFFIX := "%meta"
  const MAX_SEGMENT_BYTES := 200

  /** The bytes that stand for themselves: lower-case letters, digits, "_", "-" and ".". */
  predicate IsLiteral(b: Byte) {
    0x61 <= b <= 0x7A || 0x30 <= b <= 0x39 || b == 0x5F || b == 0x2D || b == 0x2E
  }

  predicate IsHex(c: char) {
    '0' <= c <= '9' || 'A' <= c <= 'F'
  }

  function HexDigit(n: nat): (c: char)
    requires n < 16
    ensures IsHex(c) && HexValue(c) == n
  {
    if n < 10 then '0' + n as char else 'A' + (n - 10) as char
  }

  function HexValue(c: char): (n: nat)
    requires IsHex(c)
    ensures n < 16
  {
    if c <= '9' then c as nat - '0' as nat else c as nat - 'A' as nat + 10
  }

  /** A byte of a segment; a leading "." is escaped. */
  function EncodeByte(b: Byte, first: bool): (s: string)
    ensures |s| == 1 || |s| == 3
  {
    if IsLiteral(b) && !(first && b == 0x2E) then [b as char]
    else ['%', HexDigit(b / 16), HexDigit(b % 16)]
  }

  function EncodeBytes(raw: seq<Byte>, first: bool): string {
    if raw == [] then "" else EncodeByte(raw[0], first) + EncodeBytes(raw[1..], false)
  }

  /** The file name of a segment; None if it would be too long. */
  function Encoded(segment: string): Option<string> {
    if segment == "" then Some("%")
    else
      var name := EncodeBytes(Encode(segment), true);
      if |name| > MAX_SEGMENT_BYTES then None else Some(name)
  }

  /** One byte off the front of a name, and how many characters spell it. */
  function DecodeByte(name: string): (r: Option<(Byte, nat)>)
    requires name != ""
    ensures r.Some? ==> 1 <= r.value.1 <= |name|
  {
    if name[0] == '%' then
      if |name| >= 3 && IsHex(name[1]) && IsHex(name[2])
      then Some((HexValue(name[1]) * 16 + HexValue(name[2]), 3)) else None
    else if name[0] as int < 128 then Some((name[0] as int, 1))
    else None
  }

  function DecodeBytes(name: string): Option<seq<Byte>> {
    if name == "" then Some([])
    else
      match DecodeByte(name)
      case None => None
      case Some((b, n)) =>
        var rest := DecodeBytes(name[n..]);
        if rest.None? then None else Some([b] + rest.value)
  }

  /** The segment a name stands for; None if the name is not the exact encoding of one. */
  function Decoded(name: string): Option<string> {
    if name == "%" then Some("")
    else
      match DecodeBytes(name)
      case None => None
      case Some(raw) =>
        match Decode(raw)
        case None => None
        case Some(segment) => if Encoded(segment) == Some(name) then Some(segment) else None
  }

  lemma DecodeEncodedByte(b: Byte, first: bool, rest: string)
    ensures DecodeByte(EncodeByte(b, first) + rest) == Some((b, |EncodeByte(b, first)|))
  {
    var name := EncodeByte(b, first) + rest;
    if name[0] == '%' {
      assert name[1] == HexDigit(b / 16) && name[2] == HexDigit(b % 16);
    }
  }

  lemma {:induction false} DecodeEncodedBytes(raw: seq<Byte>, first: bool)
    ensures DecodeBytes(EncodeBytes(raw, first)) == Some(raw)
  {
    if raw == [] {
    } else {
      var head, tail := EncodeByte(raw[0], first), EncodeBytes(raw[1..], false);
      DecodeEncodedByte(raw[0], first, tail);
      assert (head + tail)[|head|..] == tail;
      DecodeEncodedBytes(raw[1..], false);
      assert raw == [raw[0]] + raw[1..];
    }
  }

  /** The codec is a canonical bijection: a name decodes to a segment exactly when it is that
      segment's encoding. */
  lemma CodecIsBijection(segment: string, name: string)
    ensures Decoded(name) == Some(segment) <==> Encoded(segment) == Some(name)
  {
    if segment != "" && Encoded(segment) == Some(name) {
      var raw := Encode(segment);
      DecodeEncodedBytes(raw, true);
      DecodeEncode(segment);
      assert DecodeBytes("%").None?;
    }
  }

  /** The encoding, byte by byte into a list. */
  method EncodeSegment(segment: string) returns (r: Option<string>)
    ensures r == Encoded(segment)
  {
    if segment == "" {
      return Some("%");
    }
    var raw := Encode(segment);
    var name: string := "";
    hide Encode, EncodeBytes, HexDigit;
    EncodeBegins(raw);
    for i := 0 to |raw|
      invariant EncodeBytes(raw, true) == name + EncodeBytes(raw[i..], i == 0)
    {
      EncodeStep(raw, i, name);
      var b := raw[i];
      if b < 128 && IsLiteral(b) && !(i == 0 && b == 0x2E) {
        name := name + [b as char];
      } else {
        name := name + ['%', HexDigit(b / 16), HexDigit(b % 16)];
      }
    }
    EncodeNothing(raw[|raw|..], |raw| == 0, name);
    return if |name| > MAX_SEGMENT_BYTES then None else Some(name);
  }

  lemma EncodeBegins(raw: seq<Byte>)
    ensures EncodeBytes(raw, true) == "" + EncodeBytes(raw[0..], true)
  {
    assert raw[0..] == raw;
  }

  lemma EncodeStep(raw: seq<Byte>, i: nat, name: string)
    requires i < |raw|
    ensures name + EncodeBytes(raw[i..], i == 0) == name + EncodeByte(raw[i], i == 0) + EncodeBytes(raw[i + 1..], false)
  {
    assert raw[i..][1..] == raw[i + 1..];
    var head, tail := EncodeByte(raw[i], i == 0), EncodeBytes(raw[i + 1..], false);
    assert name + (head + tail) == name + head + tail;
  }

  lemma EncodeNothing(raw: seq<Byte>, first: bool, name: string)
    requires raw == []
    ensures name + EncodeBytes(raw, first) == name
  {
  }

  /** The decoding, character by character, and the check that the name is canonical. */
  method DecodeSegment(name: string) returns (r: Option<string>)
    ensures r == Decoded(name)
  {
    if name == "%" {
      return Some("");
    }
    hide DecodeBytes, Decode, Encoded, HexValue;
    var raw: seq<Byte> := [];
    var index: nat := 0;
    DecodeBegins(name);
    while index < |name|
      invariant index <= |name|
      invariant DecodeBytes(name) == Prepend(raw, DecodeBytes(name[index..]))
    {
      DecodeStep(name[index..], raw);
      var c := name[index];
      if c == '%' {
        if index + 3 > |name| || !IsHex(name[index + 1]) || !IsHex(name[index + 2]) {
          return None;
        }
        raw := raw + [HexValue(name[index + 1]) * 16 + HexValue(name[index + 2])];
        assert name[index..][3..] == name[index + 3..];
        index := index + 3;
      } else if c as int < 128 {
        raw := raw + [c as int];
        assert name[index..][1..] == name[index + 1..];
        index := index + 1;
      } else {
        return None;
      }
    }
    DecodeEnds(name[index..], raw);
    var segment := Decode(raw);
    if segment.None? {
      return None;
    }
    var canonical := EncodeSegment(segment.value);
    return if canonical == Some(name) then segment else None;
  }

  function Prepend(raw: seq<Byte>, rest: Option<seq<Byte>>): Option<seq<Byte>> {
    if rest.None? then None else Some(raw + rest.value)
  }

  lemma DecodeBegins(name: string)
    ensures DecodeBytes(name) == Prepend([], DecodeBytes(name[0..]))
  {
    assert name[0..] == name;
    if DecodeBytes(name).Some? {
      assert [] + DecodeBytes(name).value == DecodeBytes(name).value;
    }
  }

  lemma DecodeStep(rest: string, raw: seq<Byte>)
    requires rest != ""
    ensures Prepend(raw, DecodeBytes(rest))
            == if DecodeByte(rest).None? then None
               else Prepend(raw + [DecodeByte(rest).value.0], DecodeBytes(rest[DecodeByte(rest).value.1..]))
  {
    if DecodeBytes(rest).Some? {
      var (b, n) := DecodeByte(rest).value;
      assert raw + ([b] + DecodeBytes(rest[n..]).value) == raw + [b] + DecodeBytes(rest[n..]).value;
    }
  }

  lemma DecodeEnds(rest: string, raw: seq<Byte>)
    requires rest == ""
    ensures Prepend(raw, DecodeBytes(rest)) == Some(raw)
  {
    assert raw + [] == raw;
  }

  /** Every "%" of an encoding starts an escape. */
  predicate EscapesOnly(name: string) {
    forall i :: 0 <= i < |name| && name[i] == '%' ==> i + 2 < |name| && IsHex(name[i + 1]) && IsHex(name[i + 2])
  }

  predicate Plain(name: string) {
    forall i :: 0 <= i < |name| ==> name[i] as int < 128 && name[i] != '/'
  }

  lemma {:induction false} EncodingShape(raw: seq<Byte>, first: bool)
    ensures var name := EncodeBytes(raw, first);
            EscapesOnly(name) && Plain(name) && (raw != [] ==> name != "" && (first ==> name[0] != '.'))
  {
    if raw == [] {
    } else {
      var head, tail := EncodeByte(raw[0], first), EncodeBytes(raw[1..], false);
      EncodingShape(raw[1..], false);
      var name := head + tail;
      forall i | 0 <= i < |name| && name[i] == '%'
        ensures i + 2 < |name| && IsHex(name[i + 1]) && IsHex(name[i + 2])
      {
        if i >= |head| {
          assert tail[i - |head|] == '%';
          assert name[i + 1] == tail[i - |head| + 1] && name[i + 2] == tail[i - |head| + 2];
        }
      }
      forall i | 0 <= i < |name|
        ensures name[i] as int < 128 && name[i] != '/'
      {
        if i >= |head| {
          assert name[i] == tail[i - |head|];
        }
      }
    }
  }

  /** What makes a name safe on disk. */
  predicate SafeName(name: string) {
    && name != "" && name[0] != '.' && Plain(name) && |name| <= MAX_SEGMENT_BYTES
    && !EndsWith(name, BODY_SUFFIX) && !EndsWith(name, SIDECAR_SUFFIX)
  }

  lemma EncodedIsSafe(segment: string)
    requires Encoded(segment).Some?
    ensures SafeName(Encoded(segment).value)
  {
    var name := Encoded(segment).value;
    if segment != "" {
      EncodingShape(Encode(segment), true);
      if EndsWith(name, BODY_SUFFIX) {
        NotEscape(name, |name| - 4, BODY_SUFFIX);
      }
      if EndsWith(name, SIDECAR_SUFFIX) {
        NotEscape(name, |name| - 5, SIDECAR_SUFFIX);
      }
    }
  }

  lemma NotEscape(name: string, i: nat, suffix: string)
    requires i + 2 < |name| && name[i..] == suffix && |suffix| > 2 && suffix[0] == '%' && !IsHex(suffix[1])
    ensures !EscapesOnly(name)
  {
    assert name[i] == suffix[0] && name[i + 1] == suffix[1];
  }

  /** A character, case ignored. */
  function FoldChar(c: char): char {
    if 'A' <= c <= 'Z' then (c as int - 'A' as int + 'a' as int) as char else c
  }

  /** A name, as a file system that ignores the case of ASCII letters takes it. */
  function Fold(name: string): (f: string)
    ensures |f| == |name| && forall i :: 0 <= i < |name| ==> f[i] == FoldChar(name[i])
  {
    seq(|name|, i requires 0 <= i < |name| => FoldChar(name[i]))
  }

  lemma FoldJoin(a: string, b: string)
    ensures Fold(a + b) == Fold(a) + Fold(b)
  {
  }

  /** The spelling of a byte starts a name in one way only, whatever the case. */
  lemma EncodedByteFolds(x: Byte, y: Byte, first: bool, s: string, t: string)
    requires Fold(EncodeByte(x, first) + s) == Fold(EncodeByte(y, first) + t)
    ensures x == y && Fold(s) == Fold(t)
  {
    var a, b := EncodeByte(x, first) + s, EncodeByte(y, first) + t;
    assert Fold(a)[0] == FoldChar(a[0]) && Fold(b)[0] == FoldChar(b[0]);
    if a[0] == '%' {
      assert Fold(a)[1] == Fold(b)[1] && Fold(a)[2] == Fold(b)[2];
      assert a[1] == HexDigit(x / 16) && a[2] == HexDigit(x % 16);
      assert b[1] == HexDigit(y / 16) && b[2] == HexDigit(y % 16);
      HexFolds(x / 16, y / 16);
      HexFolds(x % 16, y % 16);
    }
    FoldJoin(EncodeByte(x, first), s);
    FoldJoin(EncodeByte(y, first), t);
    var n := |EncodeByte(x, first)|;
    assert Fold(s) == Fold(a)[n..] && Fold(t) == Fold(b)[n..];
  }

  lemma HexFolds(x: nat, y: nat)
    requires x < 16 && y < 16 && FoldChar(HexDigit(x)) == FoldChar(HexDigit(y))
    ensures x == y
  {
  }

  lemma {:induction false} EncodedBytesFold(raw: seq<Byte>, raw': seq<Byte>, first: bool)
    requires Fold(EncodeBytes(raw, first)) == Fold(EncodeBytes(raw', first))
    ensures raw == raw'
  {
    hide EncodeByte;
    if raw == [] || raw' == [] {
      assert |EncodeBytes(raw, first)| == |EncodeBytes(raw', first)|;
    } else {
      EncodedByteFolds(raw[0], raw'[0], first, EncodeBytes(raw[1..], false), EncodeBytes(raw'[1..], false));
      EncodedBytesFold(raw[1..], raw'[1..], false);
      assert raw == [raw[0]] + raw[1..] && raw' == [raw'[0]] + raw'[1..];
    }
  }

  /** Names of different segments differ in more than the case of letters. */
  lemma EncodedFolds(a: string, b: string)
    requires Encoded(a).Some? && Encoded(b).Some? && Fold(Encoded(a).value) == Fold(Encoded(b).value)
    ensures a == b
  {
    if a == "" || b == "" {
      OnlyEmptyIsShort(a);
      OnlyEmptyIsShort(b);
    } else {
      EncodedBytesFold(Encode(a), Encode(b), true);
      DecodeEncode(a);
      DecodeEncode(b);
    }
  }

  lemma OnlyEmptyIsShort(a: string)
    requires Encoded(a).Some?
    ensures Fold(Encoded(a).value) == Fold("%") ==> a == ""
  {
    var name := Encoded(a).value;
    if a != "" {
      EncodingShape(Encode(a), true);
      assert name[0] == '%' ==> |name| > 2;
      assert Fold(name)[0] == FoldChar(name[0]);
    }
  }

  /** An escape's digits, case ignored. */
  predicate IsFoldedHex(c: char) {
    '0' <= c <= '9' || 'a' <= c <= 'f'
  }

  /** Case ignored as well, an encoded name has no object suffix in it. */
  lemma FoldedNotSuffixed(segment: string, i: nat)
    requires Encoded(segment).Some? && i < |Encoded(segment).value| && segment != ""
    ensures var f := Fold(Encoded(segment).value);
            f[i] == '%' ==> i + 2 < |f| && IsFoldedHex(f[i + 1]) && IsFoldedHex(f[i + 2])
  {
    EncodingShape(Encode(segment), true);
    DecodeEncode(segment);
  }

  /** No body file, sidecar, directory, lock or temporary file is ever mistaken for another, even where
      the case of letters is ignored: the names of two segments' files are equal only for the same
      segment and the same kind. */
  lemma NamesNeverCollide(a: string, b: string)
    requires Encoded(a).Some? && Encoded(b).Some?
    ensures var n, m := Encoded(a).value, Encoded(b).value;
            && Fold(n + "%obj") != Fold(m) && Fold(n + "%meta") != Fold(m) && Fold(n + "%obj") != Fold(m + "%meta")
            && (Fold(n) == Fold(m) ==> a == b)
            && (Fold(n + "%obj") == Fold(m + "%obj") ==> a == b) && (Fold(n + "%meta") == Fold(m + "%meta") ==> a == b)
            && (n + "%obj")[0] != '.' && (n + "%meta")[0] != '.' && n[0] != '.'
            && BODY_SUFFIX == "%obj" && SIDECAR_SUFFIX == "%meta"
  {
    var n, m := Encoded(a).value, Encoded(b).value;
    EncodedIsSafe(a);
    EncodedIsSafe(b);
    FoldJoin(n, "%obj");
    FoldJoin(n, "%meta");
    FoldJoin(m, "%obj");
    FoldJoin(m, "%meta");
    NoSuffix(b, Fold(n), "%obj");
    NoSuffix(b, Fold(n), "%meta");
    assert Fold(n + "%obj")[|n| + 3] == 'j' && Fold(m + "%meta")[|m| + 4] == 'a';
    if Fold(n) == Fold(m) {
      EncodedFolds(a, b);
    }
    assert Fold(n + "%obj")[..|n|] == Fold(n) && Fold(m + "%obj")[..|m|] == Fold(m);
    assert Fold(n + "%meta")[..|n|] == Fold(n) && Fold(m + "%meta")[..|m|] == Fold(m);
  }

  lemma NoSuffix(segment: string, stem: string, suffix: string)
    requires Encoded(segment).Some? && stem != "" && (suffix == "%obj" || suffix == "%meta")
    ensures Fold(Encoded(segment).value) != stem + Fold(suffix)
  {
    var f := Fold(Encoded(segment).value);
    if f == stem + Fold(suffix) {
      assert f[|stem|] == '%' && !IsFoldedHex(f[|stem| + 1]);
      assert segment != "";
      FoldedNotSuffixed(segment, |stem|);
    }
  }

  const LETTERS := "abcdefghijklmnopqrstuvwxyz"
  const DIGITS := "0123456789"
  const LITERALS := LETTERS + DIGITS + "_-."
  const HEX_DIGITS := "0123456789ABCDEF"

  /** The literal characters stand for themselves, but for a leading "."; every other byte is "%" and its
      two upper-case digits. */
  lemma ByteSpelling(b: Byte, first: bool)
    ensures b as char in LITERALS && !(first && b as char == '.') ==> EncodeByte(b, first) == [b as char]
    ensures !(b as char in LITERALS && !(first && b as char == '.')) ==>
              b / 16 < 16 && EncodeByte(b, first) == ['%', HEX_DIGITS[b / 16], HEX_DIGITS[b % 16]]
  {
    LiteralsAre(b as char);
    HexDigitsAre(b / 16);
    HexDigitsAre(b % 16);
  }

  lemma LiteralsAre(c: char)
    ensures c in LITERALS <==> 'a' <= c <= 'z' || '0' <= c <= '9' || c == '_' || c == '-' || c == '.'
  {
    LettersAre(c);
    DigitsAre(c);
    assert c in LITERALS <==> c in LETTERS || c in DIGITS || c in "_-.";
  }

  lemma LettersAre(c: char)
    ensures c in LETTERS <==> 'a' <= c <= 'z'
  {
    assert forall i :: 0 <= i < 26 ==> LETTERS[i] == ('a' as int + i) as char;
    if 'a' <= c <= 'z' {
      assert LETTERS[c as int - 'a' as int] == c;
    }
  }

  lemma DigitsAre(c: char)
    ensures c in DIGITS <==> '0' <= c <= '9'
  {
    assert forall i :: 0 <= i < 10 ==> DIGITS[i] == ('0' as int + i) as char;
    if '0' <= c <= '9' {
      assert DIGITS[c as int - '0' as int] == c;
    }
  }

  lemma HexDigitsAre(n: nat)
    requires n < 16
    ensures HexDigit(n) == HEX_DIGITS[n]
  {
  }

  /** A segment is refused only for the length of its name. */
  lemma RefusedIff(segment: string)
    ensures Encoded(segment).None? <==> segment != "" && |EncodeBytes(Encode(segment), true)| > 200
  {
  }

  predicate Literal(c: char) {
    c in LITERALS
  }

  lemma {:induction false} AsciiBytes(s: string)
    requires forall i :: 0 <= i < |s| ==> s[i] as int < 128
    ensures |Encode(s)| == |s| && forall i :: 0 <= i < |s| ==> Encode(s)[i] == s[i] as int
  {
    if s == "" {
    } else {
      AsciiBytes(s[1..]);
      assert EncodeChar(s[0]) == [s[0] as int];
    }
  }

  /** A name is never shorter than the bytes it spells, and as long only if it is those bytes, all literal. */
  lemma {:induction false} SpelledLength(raw: seq<Byte>, first: bool)
    ensures var name := EncodeBytes(raw, first);
            && |name| >= |raw|
            && (|name| == |raw| ==> forall i :: 0 <= i < |raw| ==> name[i] as int == raw[i] && Literal(name[i]))
            && (|name| == |raw| && first && raw != [] ==> name[0] != '.')
            && ((forall i :: 0 <= i < |raw| ==> Literal(raw[i] as char)) && (first && raw != [] ==> raw[0] != 0x2E) ==>
                  |name| == |raw|)
  {
    if raw == [] {
    } else {
      ByteSpelling(raw[0], first);
      hide EncodeByte, Literal;
      SpelledLength(raw[1..], false);
      var head, tail := EncodeByte(raw[0], first), EncodeBytes(raw[1..], false);
      assert Literal(raw[0] as char) <==> raw[0] as char in LITERALS by {
        LiteralMeans(raw[0] as char);
      }
      assert EncodeBytes(raw, first) == head + tail;
    }
  }

  lemma LiteralMeans(c: char)
    ensures Literal(c) <==> c in LITERALS
  {
  }

  /** Exactly the segments of literal characters, not led by "." and not too long, are their own names. */
  lemma StandsForItselfIff(segment: string)
    ensures Encoded(segment) == Some(segment)
            <==> segment != "" && segment[0] != '.' && |segment| <= 200 && forall i :: 0 <= i < |segment| ==> Literal(segment[i])
  {
    hide EncodeBytes, Encode;
    if segment != "" {
      if Encoded(segment) == Some(segment) {
        EncodingShape(Encode(segment), true);
        AsciiBytes(segment);
        SpelledLength(Encode(segment), true);
      }
      if segment[0] != '.' && |segment| <= 200 && forall i :: 0 <= i < |segment| ==> Literal(segment[i]) {
        forall i | 0 <= i < |segment|
          ensures segment[i] as int < 128
        {
          LiteralsAre(segment[i]);
        }
        AsciiBytes(segment);
        SpelledLength(Encode(segment), true);
        assert EncodeBytes(Encode(segment), true) == segment;
      }
    }
  }
}
