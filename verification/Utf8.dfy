/**
 UTF-8 as RFC 3629 defines it (sections 3 and 4): a strict codec, the character
 boundaries of an encoded text, and the backward snap to such a boundary that
 the chunker uses.
 */
module Utf8 {
  import opened Basics

  /** `b & 0xC0 == 0x80`. */
  predicate IsContinuation(b: byte) {
    0x80 <= b < 0xC0
  }

  /** A position at which a character may start or the text ends. */
  predicate IsBoundary(data: bytes, p: nat) {
    p == 0 || p >= |data| || !IsContinuation(data[p])
  }

  // ----- Codec -----

  function EncodeChar(c: char): (s: bytes)
    ensures 1 <= |s| <= 4
    ensures !IsContinuation(s[0])
    ensures forall k :: 1 <= k < |s| ==> IsContinuation(s[k])
    ensures s[0] < 0x80 <==> |s| == 1
  {
    var n := c as int;
    if n < 0x80 then [n]
    else if n < 0x800 then [0xC0 + n / 64, 0x80 + n % 64]
    else if n < 0x1_0000 then [0xE0 + n / 4096, 0x80 + n / 64 % 64, 0x80 + n % 64]
    else [0xF0 + n / 0x4_0000, 0x80 + n / 4096 % 64, 0x80 + n / 64 % 64, 0x80 + n % 64]
  }

  function Encode(text: string): bytes {
    if text == [] then [] else EncodeChar(text[0]) + Encode(text[1..])
  }

  /** The scalar value spelled by a lead value and its continuation bytes. */
  function Scalar2(a: int, b: int): int {
    (a - 0xC0) * 64 + (b - 0x80)
  }

  function Scalar3(a: int, b: int, c: int): int {
    (a - 0xE0) * 4096 + (b - 0x80) * 64 + (c - 0x80)
  }

  function Scalar4(a: int, b: int, c: int, d: int): int {
    (a - 0xF0) * 0x4_0000 + (b - 0x80) * 4096 + (c - 0x80) * 64 + (d - 0x80)
  }

  /** The first character of `s` and its length, by the syntax table of RFC 3629 section 4. */
  function DecodeChar(s: bytes): (r: Option<(char, nat)>)
    ensures r.Some? ==> 1 <= r.value.1 <= |s|
  {
    if |s| == 0 then None
    else if s[0] < 0x80 then Some((s[0] as char, 1))
    else if |s| >= 2 && 0xC2 <= s[0] <= 0xDF && IsContinuation(s[1]) then
      Some((Scalar2(s[0], s[1]) as char, 2))
    else if |s| >= 3 && 0xE0 <= s[0] <= 0xEF && IsContinuation(s[1]) && IsContinuation(s[2])
      && (s[0] == 0xE0 ==> s[1] >= 0xA0) && (s[0] == 0xED ==> s[1] <= 0x9F) then
      Some((Scalar3(s[0], s[1], s[2]) as char, 3))
    else if |s| >= 4 && 0xF0 <= s[0] <= 0xF4
      && IsContinuation(s[1]) && IsContinuation(s[2]) && IsContinuation(s[3])
      && (s[0] == 0xF0 ==> s[1] >= 0x90) && (s[0] == 0xF4 ==> s[1] <= 0x8F) then
      Some((Scalar4(s[0], s[1], s[2], s[3]) as char, 4))
    else None
  }

  /** Strict decoding: `None` stands for UnicodeDecodeError. */
  function Decode(s: bytes): Option<string> {
    if s == [] then Some([])
    else match DecodeChar(s)
      case None => None
      case Some((c, n)) =>
        match Decode(s[n..])
        case None => None
        case Some(rest) => Some([c] + rest)
  }

  /**
   Decoding with errors="ignore". Dropping an ill-formed sequence byte by byte is
   the same as dropping its longest valid beginning at once, since what follows
   the first dropped byte are continuation bytes and none of them starts a character.
   */
  function DecodeIgnore(s: bytes): string {
    if s == [] then []
    else match DecodeChar(s)
      case None => DecodeIgnore(s[1..])
      case Some((c, n)) => [c] + DecodeIgnore(s[n..])
  }

  /** Characters of the examples in section 7 of RFC 3629, one of each length. */
  lemma {:induction false} EncodingExamples()
    ensures EncodeChar('A') == [0x41] && EncodeChar('\U{0391}') == [0xCE, 0x91]
    ensures EncodeChar('\U{2262}') == [0xE2, 0x89, 0xA2] && EncodeChar('\U{D55C}') == [0xED, 0x95, 0x9C]
    ensures EncodeChar('\U{65E5}') == [0xE6, 0x97, 0xA5] && EncodeChar('\U{233B4}') == [0xF0, 0xA3, 0x8E, 0xB4]
  {
    assert '\U{233B4}' as int == 0x233B4 && '\U{65E5}' as int == 0x65E5 && '\U{D55C}' as int == 0xD55C;
    assert '\U{2262}' as int == 0x2262 && '\U{0391}' as int == 0x391 && 'A' as int == 0x41;
  }

  /** The decoder reads back the digits the encoder wrote, in two, three and four bytes. */
  lemma {:induction false} Scalar2Digits(n: int)
    requires 0x80 <= n < 0x800
    ensures Scalar2(0xC0 + n / 64, 0x80 + n % 64) == n
  {
  }

  lemma {:induction false} Scalar3Digits(n: int)
    requires 0x800 <= n < 0x1_0000
    ensures Scalar3(0xE0 + n / 4096, 0x80 + n / 64 % 64, 0x80 + n % 64) == n
  {
  }

  lemma {:induction false} Scalar4Digits(n: int)
    requires 0x1_0000 <= n < 0x11_0000
    ensures Scalar4(0xF0 + n / 0x4_0000, 0x80 + n / 4096 % 64, 0x80 + n / 64 % 64, 0x80 + n % 64) == n
  {
    var q := n / 4096;
    assert q / 64 == n / 0x4_0000;
    assert q == q / 64 * 64 + q % 64;
    assert n / 64 == q * 64 + n / 64 % 64;
  }

  lemma {:induction false} DecodeEncodedChar(c: char, rest: bytes)
    ensures DecodeChar(EncodeChar(c) + rest) == Some((c, |EncodeChar(c)|))
  {
    DecodeEncodedAlone(c);
    DecodeStable(EncodeChar(c), rest);
  }

  lemma {:induction false} DecodeEncodedAlone(c: char)
    ensures DecodeChar(EncodeChar(c)) == Some((c, |EncodeChar(c)|))
  {
    var n := c as int;
    if n < 0x80 {
    } else if n < 0x800 {
      Scalar2Digits(n);
    } else if n < 0x1_0000 {
      Scalar3Digits(n);
    } else {
      Scalar4Digits(n);
    }
  }

  /** What follows a character does not change how it decodes. */
  lemma {:induction false} DecodeStable(s: bytes, rest: bytes)
    requires DecodeChar(s).Some?
    ensures DecodeChar(s + rest) == DecodeChar(s)
  {
    assert forall k :: 0 <= k < |s| ==> (s + rest)[k] == s[k];
  }

  lemma {:induction false} EncodeScalar2(a: byte, b: byte)
    requires 0xC2 <= a <= 0xDF && IsContinuation(b)
    ensures EncodeChar(Scalar2(a, b) as char) == [a, b]
  {
    Digits(a - 0xC0, b - 0x80);
  }

  lemma {:induction false} EncodeScalar3(a: byte, b: byte, c: byte)
    requires 0xE0 <= a <= 0xEF && IsContinuation(b) && IsContinuation(c)
    requires (a == 0xE0 ==> b >= 0xA0) && (a == 0xED ==> b <= 0x9F)
    ensures EncodeChar(Scalar3(a, b, c) as char) == [a, b, c]
  {
    Digits(a - 0xE0, b - 0x80);
    Digits((a - 0xE0) as int * 64 + (b - 0x80) as int, c - 0x80);
  }

  lemma {:induction false} EncodeScalar4(a: byte, b: byte, c: byte, d: byte)
    requires 0xF0 <= a <= 0xF4 && IsContinuation(b) && IsContinuation(c) && IsContinuation(d)
    requires (a == 0xF0 ==> b >= 0x90) && (a == 0xF4 ==> b <= 0x8F)
    ensures EncodeChar(Scalar4(a, b, c, d) as char) == [a, b, c, d]
  {
    Digits(a - 0xF0, b - 0x80);
    Digits((a - 0xF0) as int * 64 + (b - 0x80) as int, c - 0x80);
    Digits(((a - 0xF0) as int * 64 + (b - 0x80) as int) * 64 + (c - 0x80) as int, d - 0x80);
  }

  lemma {:induction false} EncodeDecodedChar(s: bytes)
    requires DecodeChar(s).Some?
    ensures s[..DecodeChar(s).value.1] == EncodeChar(DecodeChar(s).value.0)
  {
    var n := DecodeChar(s).value.1;
    if n == 2 {
      EncodeScalar2(s[0], s[1]);
    } else if n == 3 {
      EncodeScalar3(s[0], s[1], s[2]);
    } else if n == 4 {
      EncodeScalar4(s[0], s[1], s[2], s[3]);
    }
  }

  lemma {:induction false} Digits(high: int, low: int)
    requires 0 <= low < 64
    ensures (high * 64 + low) / 64 == high && (high * 64 + low) % 64 == low
  {
  }

  lemma {:induction false} DecodeEncoded(text: string)
    ensures Decode(Encode(text)) == Some(text)
  {
    if text != [] {
      var c := EncodeChar(text[0]);
      DecodeEncodedChar(text[0], Encode(text[1..]));
      DecodeEncoded(text[1..]);
      assert Encode(text)[|c|..] == Encode(text[1..]);
      assert text == [text[0]] + text[1..];
    }
  }

  lemma {:induction false} EncodeCons(c: char, rest: string)
    ensures Encode([c] + rest) == EncodeChar(c) + Encode(rest)
  {
    assert ([c] + rest)[1..] == rest;
  }

  lemma {:induction false} EncodeDecoded(s: bytes)
    requires Decode(s).Some?
    ensures Encode(Decode(s).value) == s
  {
    if s != [] {
      var n := DecodeChar(s).value.1;
      EncodeDecodedChar(s);
      EncodeDecoded(s[n..]);
      EncodeCons(DecodeChar(s).value.0, Decode(s[n..]).value);
      SplitAt(s, n);
    }
  }

  /** The strict decoder and the encoder are inverse, and only encodings decode. */
  lemma {:induction false} DecodesIffEncoding(s: bytes, text: string)
    ensures Decode(s) == Some(text) <==> s == Encode(text)
  {
    DecodeEncoded(text);
    if Decode(s) == Some(text) {
      EncodeDecoded(s);
    }
  }

  lemma {:induction false} EncodeConcat(a: string, b: string)
    ensures Encode(a + b) == Encode(a) + Encode(b)
  {
    if a == [] {
      assert a + b == b;
    } else {
      assert (a + b)[1..] == a[1..] + b;
      EncodeConcat(a[1..], b);
    }
  }

  // ----- Boundaries -----

  /** The byte cut at a boundary is a cut of the text between two characters. */
  lemma {:induction false} BoundaryCutsText(text: string, p: nat) returns (k: nat)
    requires p <= |Encode(text)| && IsBoundary(Encode(text), p)
    ensures k <= |text|
    ensures Encode(text[..k]) == Encode(text)[..p]
    ensures Encode(text[k..]) == Encode(text)[p..]
  {
    if p == 0 {
      k := 0;
      assert text[0..] == text;
    } else {
      var c, more := EncodeChar(text[0]), Encode(text[1..]);
      CutBehindFirst(c, more, p);
      var r := BoundaryCutsText(text[1..], p - |c|);
      k := r + 1;
      assert text[..k][1..] == text[1..][..r];
      assert text[k..] == text[1..][r..];
    }
  }

  /** A cut between characters is not inside the first. */
  lemma {:induction false} CutBehindFirst(c: bytes, more: bytes, p: nat)
    requires c != [] && forall j :: 1 <= j < |c| ==> IsContinuation(c[j])
    requires 0 < p <= |c + more| && IsBoundary(c + more, p)
    ensures |c| <= p && IsBoundary(more, p - |c|)
    ensures (c + more)[..p] == c + more[..p - |c|] && (c + more)[p..] == more[p - |c|..]
  {
    NotInsideFirst(c, more, p);
    assert |c| <= p < |c + more| ==> (c + more)[p] == more[p - |c|];
  }

  lemma {:induction false} NotInsideFirst(c: bytes, more: bytes, p: nat)
    requires forall j :: 1 <= j < |c| ==> IsContinuation(c[j])
    ensures 0 < p < |c| ==> !IsBoundary(c + more, p)
  {
    if 0 < p < |c| {
      assert (c + more)[p] == c[p];
    }
  }

  /** A slice between two boundaries of a well-formed text decodes. */
  lemma {:induction false} SliceDecodes(data: bytes, p: nat, q: nat)
    requires Decode(data).Some?
    requires p <= q <= |data| && IsBoundary(data, p) && IsBoundary(data, q)
    ensures Decode(data[p..q]).Some?
  {
    EncodeDecoded(data);
    var text := Decode(data).value;
    var k := BoundaryCutsText(text, q);
    var head := text[..k];
    assert data[..q][p..] == data[p..q];
    assert IsBoundary(data[..q], p);
    var j := BoundaryCutsText(head, p);
    DecodeEncoded(head[j..]);
  }

  /** After an ASCII byte of a well-formed text comes a boundary. */
  lemma {:induction false} AfterAscii(text: string, p: nat)
    requires p < |Encode(text)| && Encode(text)[p] < 0x80
    ensures IsBoundary(Encode(text), p + 1)
  {
    var k := BoundaryCutsText(text, p);
    assert Encode(text[k..])[0] == Encode(text)[p];
    var rest := text[k..];
    assert Encode(rest) == EncodeChar(rest[0]) + Encode(rest[1..]);
    if p + 1 < |Encode(text)| {
      assert Encode(text)[p + 1] == Encode(rest)[1] == Encode(rest[1..])[0];
      assert rest[1..] != [];
    }
  }

  /** Among any four consecutive positions of a well-formed text one is a boundary. */
  lemma {:induction false} BoundaryWithinThree(text: string, p: nat) returns (q: nat)
    requires p <= |Encode(text)|
    ensures q <= p <= q + 3 && IsBoundary(Encode(text), q)
  {
    if text == [] {
      q := p;
    } else {
      var c := EncodeChar(text[0]);
      if p < |c| {
        q := 0;
      } else {
        var r := BoundaryWithinThree(text[1..], p - |c|);
        q := r + |c|;
        if q < |Encode(text)| {
          assert Encode(text)[q] == Encode(text[1..])[r];
          if r == 0 {
            assert text[1..] != [];
          }
        }
      }
    }
  }

  // ----- The backward snap -----

  /** The greatest boundary at or before `offset`. */
  function Snap(data: bytes, offset: nat): (r: nat)
    requires offset <= |data|
    ensures r <= offset && IsBoundary(data, r)
    ensures forall k :: r < k <= offset ==> !IsBoundary(data, k)
  {
    if IsBoundary(data, offset) then offset else Snap(data, offset - 1)
  }

  lemma {:induction false} SnapDistance(data: bytes, offset: nat)
    requires Decode(data).Some? && offset <= |data|
    ensures offset - 3 <= Snap(data, offset)
  {
    EncodeDecoded(data);
    var q := BoundaryWithinThree(Decode(data).value, offset);
  }

  /** What a chunker needs of a text: characters have at most four bytes and ASCII bytes end one. */
  ghost predicate Aligned(data: bytes) {
    && (forall p :: 0 <= p <= |data| ==> p <= Snap(data, p) + 3)
    && forall p {:trigger IsBoundary(data, p)} :: 0 < p <= |data| && data[p - 1] < 0x80 ==> IsBoundary(data, p)
  }

  lemma {:induction false} DecodableIsAligned(data: bytes)
    requires Decode(data).Some?
    ensures Aligned(data)
  {
    EncodeDecoded(data);
    forall p | 0 <= p <= |data| ensures p <= Snap(data, p) + 3 {
      SnapDistance(data, p);
    }
    forall p | 0 < p <= |data| && data[p - 1] < 0x80 ensures IsBoundary(data, p) {
      AfterAscii(Decode(data).value, p - 1);
    }
  }

  /** Leading bytes too few for the character they start are dropped, all of them. */
  lemma {:induction false} IgnoreIncompleteChar(c: char, s: bytes)
    requires |s| < |EncodeChar(c)| && s == EncodeChar(c)[..|s|]
    ensures DecodeIgnore(s) == []
  {
    if s != [] {
      IgnoreContinuations(s[1..]);
    }
  }

  lemma {:induction false} IgnoreContinuations(s: bytes)
    requires forall k :: 0 <= k < |s| ==> IsContinuation(s[k])
    ensures DecodeIgnore(s) == []
  {
    if s != [] {
      assert DecodeChar(s).None? by { assert IsContinuation(s[0]); }
      IgnoreContinuations(s[1..]);
    }
  }

  lemma {:induction false} StartsAtBoundary(text: string)
    ensures Encode(text) == [] || !IsContinuation(Encode(text)[0])
  {
  }

  /** A cut keeps exactly the whole characters before it. */
  ghost predicate KeepsWholeChars(data: bytes, p: nat)
    requires p <= |data|
  {
    Encode(DecodeIgnore(data[..p])) == data[..Snap(data, p)]
  }

  lemma {:induction false} NothingKept(data: bytes)
    ensures KeepsWholeChars(data, 0)
  {
  }

  /** Cutting a well-formed text anywhere and ignoring errors keeps exactly the whole characters. */
  lemma {:induction false} IgnoreKeepsWholeChars(text: string, p: nat)
    requires p <= |Encode(text)|
    ensures KeepsWholeChars(Encode(text), p)
  {
    if p == 0 {
      NothingKept(Encode(text));
    } else {
      var n, more := |EncodeChar(text[0])|, Encode(text[1..]);
      if p >= n {
        IgnoreKeepsWholeChars(text[1..], p - n);
      }
      StartsAtBoundary(text[1..]);
      KeepsWithFirst(text[0], more, p);
    }
  }

  lemma {:induction false} KeepsWithFirst(c: char, more: bytes, p: nat)
    requires 0 < p <= |EncodeChar(c) + more| && (more == [] || !IsContinuation(more[0]))
    requires p >= |EncodeChar(c)| ==> KeepsWholeChars(more, p - |EncodeChar(c)|)
    ensures KeepsWholeChars(EncodeChar(c) + more, p)
  {
    var n := |EncodeChar(c)|;
    if p < n {
      CutInsideFirst(c, more, p);
    } else {
      IgnoreAfterChar(c, more, p - n);
    }
  }

  lemma {:induction false} CutInsideFirst(c: char, rest: bytes, p: nat)
    requires 0 < p < |EncodeChar(c)|
    ensures KeepsWholeChars(EncodeChar(c) + rest, p)
  {
    var first := EncodeChar(c);
    assert forall k :: 0 < k <= p ==> (first + rest)[k] == first[k];
    assert forall k :: 0 < k <= p ==> !IsBoundary(first + rest, k);
    assert (first + rest)[..p] == first[..p];
    IgnoreIncompleteChar(c, first[..p]);
  }

  lemma {:induction false} IgnoreAfterChar(c: char, rest: bytes, p: nat)
    requires p <= |rest|
    requires rest == [] || !IsContinuation(rest[0])
    requires KeepsWholeChars(rest, p)
    ensures KeepsWholeChars(EncodeChar(c) + rest, |EncodeChar(c)| + p)
  {
    var first, cut, q := EncodeChar(c), rest[..p], Snap(rest, p);
    SnapShift(first, rest, p);
    assert (first + rest)[..|first| + p] == first + cut;
    assert (first + rest)[..|first| + q] == first + rest[..q];
    DecodeEncodedChar(c, cut);
    assert (first + cut)[|first|..] == cut;
    EncodeCons(c, DecodeIgnore(cut));
  }

  lemma {:induction false} SnapShift(c: bytes, rest: bytes, p: nat)
    requires |c| > 0 && p <= |rest|
    requires rest == [] || !IsContinuation(rest[0])
    ensures Snap(c + rest, |c| + p) == |c| + Snap(rest, p)
  {
    var data := c + rest;
    assert forall k :: 0 <= k <= |rest| ==> IsBoundary(data, |c| + k) == IsBoundary(rest, k) by {
      forall k | 0 <= k <= |rest| ensures IsBoundary(data, |c| + k) == IsBoundary(rest, k) {
        if k < |rest| { assert data[|c| + k] == rest[k]; }
      }
    }
    var r := Snap(data, |c| + p);
    assert IsBoundary(data, |c| + Snap(rest, p));
    assert IsBoundary(rest, Snap(rest, p));
    if r < |c| + Snap(rest, p) {
      assert false;
    }
    assert IsBoundary(rest, r - |c|);
  }
}
