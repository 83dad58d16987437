/** Text conversion between host strings (UTF-16 code units) and UTF-8 bytes:
    the USVString reading of a host string (a lone surrogate reads as
    U+FFFD), UTF-8 as section 3 of RFC 3629 defines it, the `TextEncoder`
    operations `encode` and `encodeInto`, and the `TextDecoder` UTF-8 decoder
    of the WHATWG Encoding Standard (malformed input becomes U+FFFD, never an
    error). */
module Utf8 {
  import opened Numeric

  predicate IsHighSurrogate(u: int) { 0xD800 <= u < 0xDC00 }

  predicate IsLowSurrogate(u: int) { 0xDC00 <= u < 0xE000 }

  /** A Unicode scalar value: a code point that is not a surrogate. */
  type Scalar = c: int | 0 <= c < 0x11_0000 && !(0xD800 <= c < 0xE000)

  const Replacement: Scalar := 0xFFFD
  const ByteOrderMark: Scalar := 0xFEFF

  /** One decoded code point and how many input elements it took. */
  datatype Step = Step(cp: Scalar, len: nat)

  // ---------------------------------------------------------------------
  // Host strings as code points

  /** The code point at the head of a host string: a surrogate pair
      combines, a lone surrogate reads as U+FFFD. */
  function FirstCodePoint(s: seq<Unit>): (r: Step)
    requires |s| > 0
    ensures 1 <= r.len <= |s| && r.len <= 2
  {
    if IsHighSurrogate(s[0]) && |s| > 1 && IsLowSurrogate(s[1]) then
      Step(0x1_0000 + (s[0] as int - 0xD800) * 0x400 + (s[1] as int - 0xDC00), 2)
    else if 0xD800 <= s[0] < 0xE000 then
      Step(Replacement, 1)
    else
      Step(s[0], 1)
  }

  function CodePoints(s: seq<Unit>): seq<Scalar>
    decreases |s|
  {
    if s == [] then [] else
      var f := FirstCodePoint(s);
      [f.cp] + CodePoints(s[f.len..])
  }

  /** The UTF-16 form of one scalar value. */
  function Utf16Of(c: Scalar): (r: seq<Unit>)
    ensures |r| == if c < 0x1_0000 then 1 else 2
  {
    if c < 0x1_0000 then [c]
    else [0xD800 + (c - 0x1_0000) / 0x400, 0xDC00 + (c - 0x1_0000) % 0x400]
  }

  function Utf16(cps: seq<Scalar>): seq<Unit> {
    if cps == [] then [] else Utf16Of(cps[0]) + Utf16(cps[1..])
  }

  /** A host string with every lone surrogate replaced by U+FFFD. */
  function Sanitize(s: seq<Unit>): seq<Unit> {
    Utf16(CodePoints(s))
  }

  /** A high surrogate at `i` is followed by a low one, and a low surrogate
      at `i` follows a high one. */
  predicate PairedAt(s: seq<Unit>, i: nat)
    requires i < |s|
  {
    && (IsHighSurrogate(s[i]) ==> i + 1 < |s| && IsLowSurrogate(s[i + 1]))
    && (IsLowSurrogate(s[i]) ==> 0 < i && IsHighSurrogate(s[i - 1]))
  }

  /** Every surrogate in `s` is half of a pair. */
  predicate NoLoneSurrogates(s: seq<Unit>) {
    forall i :: 0 <= i < |s| ==> PairedAt(s, i)
  }

  predicate IsAscii(s: seq<Unit>) {
    forall i :: 0 <= i < |s| ==> s[i] < 0x80
  }

  // ---------------------------------------------------------------------
  // UTF-8 (section 3 of RFC 3629)

  function Utf8Of(c: Scalar): (r: seq<Byte>)
    ensures |r| == if c < 0x80 then 1 else if c < 0x800 then 2 else if c < 0x1_0000 then 3 else 4
  {
    if c < 0x80 then [c]
    else if c < 0x800 then [0xC0 + c / 0x40, 0x80 + c % 0x40]
    else if c < 0x1_0000 then [0xE0 + c / 0x1000, 0x80 + (c / 0x40) % 0x40, 0x80 + c % 0x40]
    else [0xF0 + c / 0x4_0000, 0x80 + (c / 0x1000) % 0x40, 0x80 + (c / 0x40) % 0x40, 0x80 + c % 0x40]
  }

  function Utf8(cps: seq<Scalar>): seq<Byte> {
    if cps == [] then [] else Utf8Of(cps[0]) + Utf8(cps[1..])
  }

  /** `TextEncoder.encode`: the UTF-8 form of the string's code points. */
  function Encode(s: seq<Unit>): seq<Byte> {
    Utf8(CodePoints(s))
  }

  /** Whether byte `i` exists and lies in `[lo, hi]`. */
  predicate InRange(b: seq<Byte>, i: nat, lo: int, hi: int) {
    i < |b| && lo <= b[i] <= hi
  }

  /** One step of the WHATWG UTF-8 decoder. A lead byte fixes how many
      continuation bytes follow and the range the first of them must lie in
      (narrower after E0, ED, F0 and F4, which excludes overlong forms,
      surrogates and values past U+10FFFF). When byte `i` is missing or out
      of range, the `i` bytes read so far become one U+FFFD and byte `i`
      starts the next step. */
  function DecodeStep(b: seq<Byte>): (r: Step)
    requires |b| > 0
    ensures 1 <= r.len <= |b|
  {
    var b0: int := b[0];
    if b0 < 0x80 then
      Step(b0, 1)
    else if 0xC2 <= b0 <= 0xDF then
      if !InRange(b, 1, 0x80, 0xBF) then Step(Replacement, 1)
      else Step((b0 - 0xC0) * 0x40 + (b[1] as int - 0x80), 2)
    else if 0xE0 <= b0 <= 0xEF then
      var lo := if b0 == 0xE0 then 0xA0 else 0x80;
      var hi := if b0 == 0xED then 0x9F else 0xBF;
      if !InRange(b, 1, lo, hi) then Step(Replacement, 1)
      else if !InRange(b, 2, 0x80, 0xBF) then Step(Replacement, 2)
      else Step((b0 - 0xE0) * 0x1000 + (b[1] as int - 0x80) * 0x40 + (b[2] as int - 0x80), 3)
    else if 0xF0 <= b0 <= 0xF4 then
      var lo := if b0 == 0xF0 then 0x90 else 0x80;
      var hi := if b0 == 0xF4 then 0x8F else 0xBF;
      if !InRange(b, 1, lo, hi) then Step(Replacement, 1)
      else if !InRange(b, 2, 0x80, 0xBF) then Step(Replacement, 2)
      else if !InRange(b, 3, 0x80, 0xBF) then Step(Replacement, 3)
      else Step((b0 - 0xF0) * 0x4_0000 + (b[1] as int - 0x80) * 0x1000 + (b[2] as int - 0x80) * 0x40 + (b[3] as int - 0x80), 4)
    else
      Step(Replacement, 1)
  }

  function DecodeCodePoints(b: seq<Byte>): seq<Scalar>
    decreases |b|
  {
    if b == [] then [] else
      var d := DecodeStep(b);
      [d.cp] + DecodeCodePoints(b[d.len..])
  }

  /** UTF-8 decoding with the byte order mark kept: a `TextDecoder` built
      with `ignoreBOM: true`. */
  function DecodeKeepingBom(b: seq<Byte>): seq<Unit> {
    Utf16(DecodeCodePoints(b))
  }

  /** `new TextDecoder('utf-8').decode(b)`: by default the decoder drops a
      leading U+FEFF. */
  function TextDecode(b: seq<Byte>): seq<Unit> {
    var cps := DecodeCodePoints(b);
    Utf16(if |cps| > 0 && cps[0] == ByteOrderMark then cps[1..] else cps)
  }

  // ---------------------------------------------------------------------
  // encodeInto

  /** What `encodeInto` reports (`read` in code units, `written` in bytes)
      and the bytes it wrote. */
  datatype Progress = Progress(read: nat, written: nat, bytes: seq<Byte>)

  /** What `encodeInto` promises about a result `r` for string `s` and a view
      of `cap` bytes: it read `r.read` units and wrote their encoding, which
      is a prefix of the whole encoding, within the view, and it stopped
      early only because the next code point did not fit. */
  predicate EncodedPrefix(s: seq<Unit>, cap: nat, r: Progress) {
    && r.read <= |s| && r.written == |r.bytes| <= cap
    && r.bytes + Encode(s[r.read..]) == Encode(s)
    && (r.read < |s| ==> cap - r.written < |Utf8Of(FirstCodePoint(s[r.read..]).cp)|)
  }

  /** `TextEncoder.encodeInto(s, view)` for a view of `cap` bytes: encode
      whole code points from the front while they fit, and stop at the first
      one that does not. */
  function EncodeInto(s: seq<Unit>, cap: nat): (r: Progress)
    ensures EncodedPrefix(s, cap, r)
    decreases |s|
  {
    if s == [] then Progress(0, 0, [])
    else
      var f := FirstCodePoint(s);
      var b := Utf8Of(f.cp);
      if |b| > cap then
        EncodeIntoStop(s, cap);
        Progress(0, 0, [])
      else
        var rest := EncodeInto(s[f.len..], cap - |b|);
        EncodeIntoCons(s, cap, rest);
        Progress(f.len + rest.read, |b| + rest.written, b + rest.bytes)
  }

  // ---------------------------------------------------------------------
  // Lemmas

  /** `EncodeInto`'s contract when the first code point does not fit. */
  lemma EncodeIntoStop(s: seq<Unit>, cap: nat)
    requires |s| > 0 && |Utf8Of(FirstCodePoint(s).cp)| > cap
    ensures EncodedPrefix(s, cap, Progress(0, 0, []))
  {
    assert s[0..] == s;
  }

  /** `EncodeInto`'s contract after the first code point was written and
      `rest` is what the remainder gave. */
  lemma EncodeIntoCons(s: seq<Unit>, cap: nat, rest: Progress)
    requires |s| > 0
    requires |Utf8Of(FirstCodePoint(s).cp)| <= cap
    requires EncodedPrefix(s[FirstCodePoint(s).len..], cap - |Utf8Of(FirstCodePoint(s).cp)|, rest)
    ensures var f := FirstCodePoint(s);
      EncodedPrefix(s, cap, Progress(f.len + rest.read, |Utf8Of(f.cp)| + rest.written, Utf8Of(f.cp) + rest.bytes))
  {
    var f := FirstCodePoint(s);
    assert s[f.len..][rest.read..] == s[f.len + rest.read..];
    EncodeUnfold(s);
  }

  lemma Utf8Append(a: seq<Scalar>, b: seq<Scalar>)
    ensures Utf8(a + b) == Utf8(a) + Utf8(b)
  {
    if a == [] {
      assert a + b == b;
    } else {
      assert (a + b)[0] == a[0];
      assert (a + b)[1..] == a[1..] + b;
      Utf8Append(a[1..], b);
      assert Utf8(a + b) == Utf8Of(a[0]) + Utf8(a[1..] + b);
    }
  }

  lemma Utf16Append(a: seq<Scalar>, b: seq<Scalar>)
    ensures Utf16(a + b) == Utf16(a) + Utf16(b)
  {
    if a == [] {
      assert a + b == b;
    } else {
      assert (a + b)[0] == a[0];
      assert (a + b)[1..] == a[1..] + b;
      Utf16Append(a[1..], b);
      assert Utf16(a + b) == Utf16Of(a[0]) + Utf16(a[1..] + b);
    }
  }

  /** Encoding takes the first code point, then the rest. */
  lemma EncodeUnfold(s: seq<Unit>)
    requires |s| > 0
    ensures Encode(s) == Utf8Of(FirstCodePoint(s).cp) + Encode(s[FirstCodePoint(s).len..])
  {
    var f := FirstCodePoint(s);
    assert CodePoints(s) == [f.cp] + CodePoints(s[f.len..]);
    assert ([f.cp] + CodePoints(s[f.len..]))[1..] == CodePoints(s[f.len..]);
  }

  /** `encodeInto` reads the whole string whenever the view can hold its
      whole encoding. */
  lemma EncodeIntoFits(s: seq<Unit>, cap: nat)
    requires |Encode(s)| <= cap
    ensures EncodeInto(s, cap).read == |s|
    ensures EncodeInto(s, cap).bytes == Encode(s)
  {
    var r := EncodeInto(s, cap);
    if r.read < |s| {
      assert false;
    }
    assert s[r.read..] == [];
  }

  /** `encodeInto` consumes the whole string exactly when its encoding
      fits. */
  lemma EncodeIntoDone(s: seq<Unit>, cap: nat)
    ensures EncodeInto(s, cap).read == |s| <==> |Encode(s)| <= cap
  {
    var r := EncodeInto(s, cap);
    if |Encode(s)| <= cap {
      EncodeIntoFits(s, cap);
    }
    if r.read == |s| {
      assert s[r.read..] == [];
    }
  }

  /** UTF-8 takes at most three bytes per UTF-16 code unit: three for a code
      point of one unit, four for a surrogate pair. */
  lemma {:induction false} EncodeBound(s: seq<Unit>)
    ensures |Encode(s)| <= 3 * |s|
    decreases |s|
  {
    if s != [] {
      var f := FirstCodePoint(s);
      EncodeUnfold(s);
      EncodeBound(s[f.len..]);
    }
  }

  /** ASCII encodes byte for byte. */
  lemma {:induction false} EncodeAscii(s: seq<Unit>)
    requires IsAscii(s)
    ensures |Encode(s)| == |s|
    ensures forall i :: 0 <= i < |s| ==> Encode(s)[i] == s[i]
    decreases |s|
  {
    if s != [] {
      EncodeUnfold(s);
      assert IsAscii(s[1..]);
      EncodeAscii(s[1..]);
      assert Encode(s) == [s[0]] + Encode(s[1..]);
      forall i | 1 <= i < |s|
        ensures Encode(s)[i] == s[i]
      {
        assert Encode(s)[i] == Encode(s[1..])[i - 1];
      }
    }
  }

  /** The decoder reads the UTF-8 form of a scalar value back as that value,
      whatever follows it. */
  lemma DecodeStepUtf8Of(c: Scalar, rest: seq<Byte>)
    ensures DecodeStep(Utf8Of(c) + rest) == Step(c, |Utf8Of(c)|)
  {
    var b := Utf8Of(c) + rest;
    if c < 0x80 {
    } else if c < 0x800 {
      assert b[0] == 0xC0 + c / 0x40 && b[1] == 0x80 + c % 0x40;
    } else if c < 0x1_0000 {
      assert b[0] == 0xE0 + c / 0x1000 && b[1] == 0x80 + (c / 0x40) % 0x40 && b[2] == 0x80 + c % 0x40;
      assert (c / 0x40) / 0x40 == c / 0x1000;
    } else {
      assert b[0] == 0xF0 + c / 0x4_0000 && b[1] == 0x80 + (c / 0x1000) % 0x40;
      assert b[2] == 0x80 + (c / 0x40) % 0x40 && b[3] == 0x80 + c % 0x40;
      assert (c / 0x40) / 0x40 == c / 0x1000;
      assert (c / 0x1000) / 0x40 == c / 0x4_0000;
    }
  }

  /** Decoding well-formed UTF-8 gives back the scalar values encoded. */
  lemma {:induction false} DecodeUtf8(cps: seq<Scalar>)
    ensures DecodeCodePoints(Utf8(cps)) == cps
  {
    if cps != [] {
      var b := Utf8(cps);
      assert b == Utf8Of(cps[0]) + Utf8(cps[1..]);
      DecodeStepUtf8Of(cps[0], Utf8(cps[1..]));
      assert b[|Utf8Of(cps[0])|..] == Utf8(cps[1..]);
      DecodeUtf8(cps[1..]);
    }
  }

  /** Reading the UTF-16 form of a scalar value gives back that value,
      whatever follows it. */
  lemma FirstCodePointUtf16Of(c: Scalar, rest: seq<Unit>)
    ensures FirstCodePoint(Utf16Of(c) + rest) == Step(c, |Utf16Of(c)|)
  {
    var s := Utf16Of(c) + rest;
    if c >= 0x1_0000 {
      assert s[0] == 0xD800 + (c - 0x1_0000) / 0x400 && s[1] == 0xDC00 + (c - 0x1_0000) % 0x400;
    }
  }

  lemma {:induction false} CodePointsUtf16(cps: seq<Scalar>)
    ensures CodePoints(Utf16(cps)) == cps
  {
    if cps != [] {
      var s := Utf16(cps);
      assert s == Utf16Of(cps[0]) + Utf16(cps[1..]);
      FirstCodePointUtf16Of(cps[0], Utf16(cps[1..]));
      assert s[|Utf16Of(cps[0])|..] == Utf16(cps[1..]);
      CodePointsUtf16(cps[1..]);
    }
  }

  lemma NoLoneAppend(a: seq<Unit>, b: seq<Unit>)
    requires NoLoneSurrogates(a) && NoLoneSurrogates(b)
    ensures NoLoneSurrogates(a + b)
  {
    var s := a + b;
    forall i | 0 <= i < |s|
      ensures PairedAt(s, i)
    {
      if i < |a| {
        assert PairedAt(a, i);
        if i + 1 == |a| && |b| > 0 {
          assert PairedAt(b, 0);
        }
      } else {
        assert PairedAt(b, i - |a|);
        if i == |a| && |a| > 0 {
          assert PairedAt(a, |a| - 1);
        }
      }
    }
  }

  lemma Utf16OfNoLone(c: Scalar)
    ensures NoLoneSurrogates(Utf16Of(c))
  {
    var u := Utf16Of(c);
    if c >= 0x1_0000 {
      assert (c - 0x1_0000) / 0x400 < 0x400;
      assert IsHighSurrogate(u[0]) && IsLowSurrogate(u[1]);
    }
    forall i | 0 <= i < |u|
      ensures PairedAt(u, i)
    {
    }
  }

  lemma {:induction false} Utf16NoLone(cps: seq<Scalar>)
    ensures NoLoneSurrogates(Utf16(cps))
  {
    if cps != [] {
      Utf16NoLone(cps[1..]);
      Utf16OfNoLone(cps[0]);
      NoLoneAppend(Utf16Of(cps[0]), Utf16(cps[1..]));
    }
  }

  /** Reading a string without lone surrogates changes nothing. */
  lemma {:induction false} SanitizeKeeps(s: seq<Unit>)
    requires NoLoneSurrogates(s)
    ensures Sanitize(s) == s
    decreases |s|
  {
    if s != [] {
      var f := FirstCodePoint(s);
      var rest := s[f.len..];
      assert NoLoneSurrogates(rest) by {
        forall i | 0 <= i < |rest|
          ensures PairedAt(rest, i)
        {
          assert PairedAt(s, i + f.len);
          assert PairedAt(s, f.len - 1);
          assert PairedAt(s, 0);
        }
      }
      SanitizeKeeps(rest);
      assert Sanitize(s) == Utf16([f.cp] + CodePoints(rest));
      Utf16Append([f.cp], CodePoints(rest));
      assert Utf16([f.cp]) == Utf16Of(f.cp);
      assert PairedAt(s, 0);
      if f.len == 2 {
        assert Utf16Of(f.cp) == s[..2];
      } else {
        assert Utf16Of(f.cp) == s[..1];
      }
      assert s == s[..f.len] + rest;
    }
  }

  /** Reading a host string as code points changes it exactly when it has a
      lone surrogate. */
  lemma SanitizeIdentity(s: seq<Unit>)
    ensures Sanitize(s) == s <==> NoLoneSurrogates(s)
  {
    if NoLoneSurrogates(s) {
      SanitizeKeeps(s);
    }
    Utf16NoLone(CodePoints(s));
  }

  /** Encoding and decoding (with the byte order mark kept) gives back the
      string with its lone surrogates replaced. */
  lemma DecodeEncode(s: seq<Unit>)
    ensures DecodeKeepingBom(Encode(s)) == Sanitize(s)
  {
    DecodeUtf8(CodePoints(s));
  }

  /** The default decoder gives back the sanitized string, unless the string
      starts with U+FEFF, which it drops. */
  lemma TextDecodeEncode(s: seq<Unit>)
    ensures (s == [] || s[0] != ByteOrderMark) ==> TextDecode(Encode(s)) == Sanitize(s)
    ensures s != [] && s[0] == ByteOrderMark ==> TextDecode(Encode(s)) == Sanitize(s[1..])
  {
    DecodeUtf8(CodePoints(s));
    if s != [] {
      var f := FirstCodePoint(s);
      assert CodePoints(s) == [f.cp] + CodePoints(s[f.len..]);
      if s[0] == ByteOrderMark {
        assert f.len == 1;
        assert CodePoints(s)[1..] == CodePoints(s[1..]);
      }
    }
  }
}
