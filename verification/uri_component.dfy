/**
 Percent-decoding of one URI component, as JavaScript's `decodeURIComponent` does it
 (percent-encoding is section 2.1 of RFC 3986): every `%XY` escape is a byte, bytes
 are read as UTF-8, other characters stand for themselves, and a malformed escape or
 byte sequence is a `URIError`, modelled as `None`.

 `Encode` is `encodeURIComponent`, the partner the decoder is proved to invert.
 Characters are Unicode scalar values, so the lone surrogates a JavaScript string may
 hold are outside this model.
 */
module UriComponent {
  import opened Js

  predicate IsHexDigit(c: char) {
    '0' <= c <= '9' || 'a' <= c <= 'f' || 'A' <= c <= 'F'
  }

  /** The hexadecimal digits in value order, in both letter cases. */
  const LowerHexDigits := "0123456789abcdef"
  const UpperHexDigits := "0123456789ABCDEF"

  /** The value of a hexadecimal digit; the two letter cases mean the same. */
  function HexValue(c: char): (v: nat)
    requires IsHexDigit(c)
    ensures v < 16
    ensures c == LowerHexDigits[v] || c == UpperHexDigits[v]
  {
    if '0' <= c <= '9' then c as int - '0' as int
    else if 'a' <= c <= 'f' then c as int - 'a' as int + 10
    else c as int - 'A' as int + 10
  }

  /** The upper-case hexadecimal digit of `v`, which reads back as `v`. */
  function HexDigit(v: nat): (c: char)
    requires v < 16
    ensures c == UpperHexDigits[v]
    ensures IsHexDigit(c) && HexValue(c) == v
  {
    if v < 10 then ('0' as int + v) as char else ('A' as int + v - 10) as char
  }

  /** `s` starts with an escape `%XY`. */
  predicate StartsWithEscape(s: string) {
    |s| >= 3 && s[0] == '%' && IsHexDigit(s[1]) && IsHexDigit(s[2])
  }

  function EscapedByte(s: string): (b: nat)
    requires StartsWithEscape(s)
    ensures b < 256
  {
    HexValue(s[1]) * 16 + HexValue(s[2])
  }

  predicate AreBytes(bs: seq<nat>) {
    forall i :: 0 <= i < |bs| ==> bs[i] < 256
  }

  /** The length of the UTF-8 sequence a lead byte announces: 1 for ASCII, else its
      number of leading one bits; 0 when the byte cannot lead a sequence (one leading
      one bit, or more than four). */
  function SequenceLength(b: nat): (n: nat)
    ensures n <= 4
  {
    if b < 0x80 then 1
    else if b < 0xC0 then 0
    else if b < 0xE0 then 2
    else if b < 0xF0 then 3
    else if b < 0xF8 then 4
    else 0
  }

  /** The bytes of `n` consecutive escapes at the start of `s`, or `None` when one
      of them is missing or malformed. */
  function Octets(s: string, n: nat): (r: Option<seq<nat>>)
    ensures r.Some? ==> |r.value| == n && 3 * n <= |s| && AreBytes(r.value)
    decreases n
  {
    if n == 0 then Some([])
    else if !StartsWithEscape(s) then None
    else
      match Octets(s[3..], n - 1)
      case None => None
      case Some(rest) => Some([EscapedByte(s)] + rest)
  }

  predicate IsContinuation(b: nat) {
    0x80 <= b < 0xC0
  }

  predicate IsScalar(v: int) {
    0 <= v < 0xD800 || 0xE000 <= v < 0x110000
  }

  /** The payload bits of a lead byte of a sequence of `n` bytes. */
  function LeadBits(b: nat, n: nat): (bits: int) {
    if n == 1 then b else if n == 2 then b - 0xC0 else if n == 3 then b - 0xE0 else b - 0xF0
  }

  /** Appends six payload bits per continuation byte. */
  function Accumulate(acc: int, conts: seq<nat>): (value: int)
    decreases |conts|
  {
    if |conts| == 0 then acc else Accumulate(acc * 64 + conts[0] - 0x80, conts[1..])
  }

  /** The character a UTF-8 byte sequence encodes, or `None` when the sequence is not
      the shortest encoding of a Unicode scalar value. */
  function Utf8Decode(bytes: seq<nat>): (r: Option<char>)
    requires 1 <= |bytes| <= 4 && AreBytes(bytes)
    ensures r.Some? ==> SequenceLength(bytes[0]) == |bytes|
  {
    var n := |bytes|;
    if SequenceLength(bytes[0]) != n then None
    else if !(forall i :: 1 <= i < n ==> IsContinuation(bytes[i])) then None
    else
      var v := Accumulate(LeadBits(bytes[0], n), bytes[1..]);
      if (n == 2 && v < 0x80) || (n == 3 && v < 0x800) || (n == 4 && v < 0x10000) then None
      else if !IsScalar(v) then None
      else Some(v as char)
  }

  function Prepend(c: char, r: Option<string>): (r': Option<string>)
    ensures r'.Some? <==> r.Some?
    ensures r'.Some? ==> r'.value == [c] + r.value
  {
    match r
    case None => None
    case Some(t) => Some([c] + t)
  }

  /** `decodeURIComponent`. A decoded string is never longer than its encoding. */
  function Decode(s: string): (r: Option<string>)
    ensures r.Some? ==> |r.value| <= |s|
    decreases |s|
  {
    if |s| == 0 then Some("")
    else if s[0] != '%' then Prepend(s[0], Decode(s[1..]))
    else if !StartsWithEscape(s) then None
    else
      var n := SequenceLength(EscapedByte(s));
      if n == 0 then None
      else
        match Octets(s, n)
        case None => None
        case Some(bytes) =>
          match Utf8Decode(bytes)
          case None => None
          case Some(c) => Prepend(c, Decode(s[3 * n..]))
  }

  /** An escape of a character that need not be escaped decodes all the same: `%41`
      is `A`. */
  lemma EscapedLetterExample(s: string)
    requires s == "%41"
    ensures Decode(s) == Some("A")
  {
    assert s[0] == '%' && s[1] == '4' && s[2] == '1' && |s| == 3;
    assert HexValue(s[1]) == 4 && HexValue(s[2]) == 1;
    assert StartsWithEscape(s) && EscapedByte(s) == 0x41;
    var none: seq<nat> := [];
    assert Octets(s[3..], 0) == Some(none);
    assert [EscapedByte(s)] + none == [0x41];
    assert Octets(s, 1) == Some([0x41]);
    assert Utf8Decode([0x41]) == Some(0x41 as char);
    assert Decode(s[3..]) == Some("");
    assert SequenceLength(EscapedByte(s)) == 1 && s[3 * 1..] == s[3..];
    assert [0x41 as char] + "" == "A";
  }

  /** A lower-case escape of `/` decodes to `/`, which the encoder never leaves bare. */
  lemma EscapedSlashExample(s: string)
    requires s == "%2f"
    ensures Decode(s) == Some("/")
  {
    assert s[0] == '%' && s[1] == '2' && s[2] == 'f' && |s| == 3;
    assert HexValue(s[1]) == 2 && HexValue(s[2]) == 15;
    assert StartsWithEscape(s) && EscapedByte(s) == 0x2F;
    var none: seq<nat> := [];
    assert Octets(s[3..], 0) == Some(none);
    assert [EscapedByte(s)] + none == [0x2F];
    assert Octets(s, 1) == Some([0x2F]);
    assert Utf8Decode([0x2F]) == Some(0x2F as char);
    assert Decode(s[3..]) == Some("");
    assert SequenceLength(EscapedByte(s)) == 1 && s[3 * 1..] == s[3..];
    assert [0x2F as char] + "" == "/";
  }

  /** Text without a `%` decodes to itself. */
  lemma {:induction false} DecodePlain(s: string)
    requires '%' !in s
    ensures Decode(s) == Some(s)
    decreases |s|
  {
    if |s| > 0 {
      assert '%' !in s[1..] by {
        assert forall i :: 0 <= i < |s| - 1 ==> s[1..][i] == s[i + 1];
      }
      DecodePlain(s[1..]);
      assert s == [s[0]] + s[1..];
    }
  }

  // ---------------------------------------------------------------------------
  // The partner: `encodeURIComponent`.

  /** The characters `encodeURIComponent` leaves as they are. */
  predicate IsUnreserved(c: char) {
    'A' <= c <= 'Z' || 'a' <= c <= 'z' || '0' <= c <= '9' || c in "-_.!~*'()"
  }

  /** The UTF-8 encoding of a character. */
  function Utf8Encode(c: char): (bytes: seq<nat>)
    ensures 1 <= |bytes| <= 4 && AreBytes(bytes)
  {
    var v := c as int;
    var g0, t1 := v % 64, v / 64;
    var g1, t2 := t1 % 64, t1 / 64;
    var g2, t3 := t2 % 64, t2 / 64;
    if v < 0x80 then [v]
    else if v < 0x800 then [0xC0 + t1, 0x80 + g0]
    else if v < 0x10000 then [0xE0 + t2, 0x80 + g1, 0x80 + g0]
    else [0xF0 + t3, 0x80 + g2, 0x80 + g1, 0x80 + g0]
  }

  /** UTF-8 decoding inverts UTF-8 encoding. */
  lemma Utf8RoundTrip(c: char)
    ensures Utf8Decode(Utf8Encode(c)) == Some(c)
  {
    var bytes := Utf8Encode(c);
    var v := c as int;
    var g0, t1 := v % 64, v / 64;
    var g1, t2 := t1 % 64, t1 / 64;
    var g2, t3 := t2 % 64, t2 / 64;
    assert v == t1 * 64 + g0 && t1 == t2 * 64 + g1 && t2 == t3 * 64 + g2;
    if v < 0x80 {
    } else if v < 0x800 {
      assert bytes == [0xC0 + t1, 0x80 + g0] && bytes[1..] == [0x80 + g0];
      assert Accumulate(t1, [0x80 + g0]) == t1 * 64 + g0;
    } else if v < 0x10000 {
      assert bytes == [0xE0 + t2, 0x80 + g1, 0x80 + g0] && bytes[1..] == [0x80 + g1, 0x80 + g0];
      assert Accumulate(t2, [0x80 + g1, 0x80 + g0]) == Accumulate(t2 * 64 + g1, [0x80 + g0]);
      assert Accumulate(t1, [0x80 + g0]) == v;
    } else {
      assert bytes == [0xF0 + t3, 0x80 + g2, 0x80 + g1, 0x80 + g0];
      assert bytes[1..] == [0x80 + g2, 0x80 + g1, 0x80 + g0];
      assert Accumulate(t3, [0x80 + g2, 0x80 + g1, 0x80 + g0])
        == Accumulate(t3 * 64 + g2, [0x80 + g1, 0x80 + g0]);
      assert Accumulate(t2, [0x80 + g1, 0x80 + g0]) == Accumulate(t1, [0x80 + g0]);
      assert Accumulate(t1, [0x80 + g0]) == v;
    }
  }

  /** `%XY` for each byte, with upper-case digits. */
  function EscapeBytes(bytes: seq<nat>): (s: string)
    requires AreBytes(bytes)
    ensures |s| == 3 * |bytes|
  {
    if |bytes| == 0 then ""
    else ['%', HexDigit(bytes[0] / 16), HexDigit(bytes[0] % 16)] + EscapeBytes(bytes[1..])
  }

  function EncodeChar(c: char): (escaped: string) {
    if IsUnreserved(c) then [c] else EscapeBytes(Utf8Encode(c))
  }

  /** `encodeURIComponent`. */
  function Encode(s: string): (encoded: string)
    decreases |s|
  {
    if |s| == 0 then "" else EncodeChar(s[0]) + Encode(s[1..])
  }

  /** Escaped bytes read back as the same bytes. */
  lemma {:induction false} OctetsOfEscaped(bytes: seq<nat>, rest: string)
    requires AreBytes(bytes)
    ensures Octets(EscapeBytes(bytes) + rest, |bytes|) == Some(bytes)
    decreases |bytes|
  {
    if |bytes| > 0 {
      var s := EscapeBytes(bytes) + rest;
      assert StartsWithEscape(s);
      assert EscapedByte(s) == bytes[0];
      assert s[3..] == EscapeBytes(bytes[1..]) + rest;
      OctetsOfEscaped(bytes[1..], rest);
      assert [bytes[0]] + bytes[1..] == bytes;
    }
  }

  /** Decoding an encoded character yields the character and goes on after it. */
  lemma DecodeEncodedChar(c: char, rest: string)
    ensures Decode(EncodeChar(c) + rest) == Prepend(c, Decode(rest))
  {
    var s := EncodeChar(c) + rest;
    if IsUnreserved(c) {
      assert s[0] == c && s[1..] == rest;
    } else {
      var bytes := Utf8Encode(c);
      Utf8RoundTrip(c);
      OctetsOfEscaped(bytes, rest);
      assert s[0] == '%';
      assert StartsWithEscape(s);
      assert EscapedByte(s) == bytes[0];
      assert s[3 * |bytes|..] == rest;
    }
  }

  /** `decodeURIComponent` inverts `encodeURIComponent`. */
  lemma {:induction false} DecodeInvertsEncode(s: string)
    ensures Decode(Encode(s)) == Some(s)
    decreases |s|
  {
    if |s| > 0 {
      DecodeEncodedChar(s[0], Encode(s[1..]));
      DecodeInvertsEncode(s[1..]);
      assert s == [s[0]] + s[1..];
    }
  }

  /** The escape of a byte is `%` and two hexadecimal digits. */
  lemma {:induction false} EscapeHasNoSlash(bytes: seq<nat>)
    requires AreBytes(bytes)
    ensures '/' !in EscapeBytes(bytes)
    decreases |bytes|
  {
    if |bytes| > 0 {
      EscapeHasNoSlash(bytes[1..]);
      var head := ['%', HexDigit(bytes[0] / 16), HexDigit(bytes[0] % 16)];
      assert EscapeBytes(bytes) == head + EscapeBytes(bytes[1..]);
      assert '/' !in head;
    }
  }

  /** `encodeURIComponent` escapes every `/`. */
  lemma {:induction false} EncodingHasNoSlash(s: string)
    ensures '/' !in Encode(s)
    decreases |s|
  {
    if |s| > 0 {
      EncodingHasNoSlash(s[1..]);
      if !IsUnreserved(s[0]) {
        EscapeHasNoSlash(Utf8Encode(s[0]));
      }
      assert Encode(s) == EncodeChar(s[0]) + Encode(s[1..]);
    }
  }

  // ---------------------------------------------------------------------------
  // Where decoding fails.

  /** The well-formed UTF-8 sequences of one to four bytes, as tabulated in section 4
      of RFC 3629: no overlong forms, no surrogates, nothing above U+10FFFF. */
  predicate Utf8WellFormed(bytes: seq<nat>) {
    if |bytes| == 1 then bytes[0] <= 0x7F
    else if |bytes| == 2 then 0xC2 <= bytes[0] <= 0xDF && IsContinuation(bytes[1])
    else if |bytes| == 3 then
      && (|| (bytes[0] == 0xE0 && 0xA0 <= bytes[1] <= 0xBF)
          || (0xE1 <= bytes[0] <= 0xEC && IsContinuation(bytes[1]))
          || (bytes[0] == 0xED && 0x80 <= bytes[1] <= 0x9F)
          || (0xEE <= bytes[0] <= 0xEF && IsContinuation(bytes[1])))
      && IsContinuation(bytes[2])
    else if |bytes| == 4 then
      && (|| (bytes[0] == 0xF0 && 0x90 <= bytes[1] <= 0xBF)
          || (0xF1 <= bytes[0] <= 0xF3 && IsContinuation(bytes[1]))
          || (bytes[0] == 0xF4 && 0x80 <= bytes[1] <= 0x8F))
      && IsContinuation(bytes[2]) && IsContinuation(bytes[3])
    else false
  }

  /** The decoder accepts exactly the sequences the table admits. */
  lemma Utf8DecodeMatchesRfc3629(bytes: seq<nat>)
    requires 1 <= |bytes| <= 4 && AreBytes(bytes)
    ensures Utf8Decode(bytes).Some? <==> Utf8WellFormed(bytes)
  {
    var n := |bytes|;
    var b0: int := bytes[0];
    if n == 2 {
      assert bytes[1..][1..] == [];
      assert Accumulate(b0 - 0xC0, bytes[1..]) == (b0 - 0xC0) * 64 + bytes[1] - 0x80;
    } else if n == 3 {
      var w: int := (b0 - 0xE0) * 64 + bytes[1] - 0x80;
      assert bytes[1..][1..] == [bytes[2]] && bytes[1..][1..][1..] == [];
      assert Accumulate(b0 - 0xE0, bytes[1..]) == Accumulate(w, [bytes[2]]);
      assert Accumulate(w, [bytes[2]]) == w * 64 + bytes[2] - 0x80;
    } else if n == 4 {
      var w1: int := (b0 - 0xF0) * 64 + bytes[1] - 0x80;
      var w2: int := w1 * 64 + bytes[2] - 0x80;
      assert bytes[1..][1..] == [bytes[2], bytes[3]];
      assert Accumulate(b0 - 0xF0, bytes[1..]) == Accumulate(w1, [bytes[2], bytes[3]]);
      assert [bytes[2], bytes[3]][1..] == [bytes[3]];
      assert Accumulate(w1, [bytes[2], bytes[3]]) == Accumulate(w2, [bytes[3]]);
      assert Accumulate(w2, [bytes[3]]) == w2 * 64 + bytes[3] - 0x80;
    }
  }

  /** An escape `%XY` stands at unit `k` of `s`, that is at index `3 * k`. */
  predicate EscapeAt(s: string, k: nat) {
    3 * k <= |s| && StartsWithEscape(s[3 * k..])
  }

  /** `n` escapes can be read exactly when each of the first `n` units is one, and
      byte `k` is the value of escape `k`. */
  lemma {:induction false} OctetsReadEscapes(s: string, n: nat)
    ensures Octets(s, n).None? <==> exists k :: 0 <= k < n && !EscapeAt(s, k)
    ensures Octets(s, n).Some? ==>
      forall k :: 0 <= k < n ==> EscapeAt(s, k) && Octets(s, n).value[k] == EscapedByte(s[3 * k..])
    decreases n
  {
    assert s[3 * 0..] == s;
    if n > 0 && StartsWithEscape(s) {
      var tail := s[3..];
      OctetsReadEscapes(tail, n - 1);
      EscapesOfTail(s, n);
      if Octets(tail, n - 1).None? {
        var k :| 0 <= k < n - 1 && !EscapeAt(tail, k);
        assert !EscapeAt(s, k + 1);
      } else {
        OctetsStep(s, n);
      }
    } else if n > 0 {
      assert !EscapeAt(s, 0);
    }
  }

  /** Escape `k` of the text after a leading escape is escape `k + 1` of the whole. */
  lemma EscapesOfTail(s: string, n: nat)
    requires StartsWithEscape(s)
    ensures forall k :: 1 <= k < n ==> (EscapeAt(s, k) <==> EscapeAt(s[3..], k - 1))
    ensures forall k :: 1 <= k < n && 3 * k <= |s| ==> s[3..][3 * (k - 1)..] == s[3 * k..]
  {
    forall k | 1 <= k < n && 3 * k <= |s|
      ensures s[3..][3 * (k - 1)..] == s[3 * k..]
    {
    }
  }

  /** The inductive step of `OctetsReadEscapes` when every escape is present: the
      bytes read from the tail, behind the leading byte. */
  lemma OctetsStep(s: string, n: nat)
    requires n > 0 && StartsWithEscape(s) && Octets(s[3..], n - 1).Some?
    requires forall k :: 0 <= k < n - 1 ==>
      EscapeAt(s[3..], k) && Octets(s[3..], n - 1).value[k] == EscapedByte(s[3..][3 * k..])
    requires forall k :: 1 <= k < n ==> (EscapeAt(s, k) <==> EscapeAt(s[3..], k - 1))
    requires forall k :: 1 <= k < n && 3 * k <= |s| ==> s[3..][3 * (k - 1)..] == s[3 * k..]
    ensures Octets(s, n).Some?
    ensures forall k :: 0 <= k < n ==> EscapeAt(s, k) && Octets(s, n).value[k] == EscapedByte(s[3 * k..])
  {
    var tail := s[3..];
    var bytes := Octets(s, n).value;
    assert bytes == [EscapedByte(s)] + Octets(tail, n - 1).value;
    assert s[3 * 0..] == s;
    forall k | 0 <= k < n
      ensures EscapeAt(s, k) && bytes[k] == EscapedByte(s[3 * k..])
    {
      if k > 0 {
        assert EscapeAt(tail, k - 1);
        assert bytes[k] == Octets(tail, n - 1).value[k - 1];
      }
    }
  }

  /** Reading `n` escapes looks no further than the first `3 * n` characters. */
  lemma {:induction false} OctetsOfPrefix(s: string, u: string, n: nat)
    requires 3 * n <= |s|
    ensures Octets(s + u, n) == Octets(s, n)
    decreases n
  {
    if n > 0 {
      assert (s + u)[0] == s[0] && (s + u)[1] == s[1] && (s + u)[2] == s[2];
      assert (s + u)[3..] == s[3..] + u;
      OctetsOfPrefix(s[3..], u, n - 1);
    }
  }

  /** The unit at the start of `t` makes `decodeURIComponent` throw: a `%` without two
      hexadecimal digits; a byte that cannot lead a UTF-8 sequence; a sequence cut
      short of the escapes its lead byte announces; or escaped bytes that are not
      well-formed UTF-8 (a bad continuation byte, an overlong form, a surrogate, or a
      value above U+10FFFF). */
  predicate MalformedUnit(t: string) {
    && |t| > 0 && t[0] == '%'
    && (|| !StartsWithEscape(t)
        || (var lead := EscapedByte(t);
            var n := SequenceLength(lead);
            || (0x80 <= lead < 0xC0 || 0xF8 <= lead)
            || (exists k :: 0 < k < n && !EscapeAt(t, k))
            || (Octets(t, n).Some? && !Utf8WellFormed(Octets(t, n).value))))
  }

  /** A malformed unit throws, whatever follows it. */
  lemma MalformedUnitFails(t: string)
    requires MalformedUnit(t)
    ensures Decode(t).None?
  {
    if StartsWithEscape(t) {
      var n := SequenceLength(EscapedByte(t));
      OctetsReadEscapes(t, n);
      if n > 0 && Octets(t, n).Some? {
        Utf8DecodeMatchesRfc3629(Octets(t, n).value);
      }
    }
  }

  /** An escaped UTF-8 sequence of `n` units at the start of `p` that decodes to `c`
      contributes `c` and nothing else, whatever follows `p`. */
  lemma EscapeUnitStep(p: string, u: string, n: nat, c: char)
    requires StartsWithEscape(p) && n == SequenceLength(EscapedByte(p)) && n > 0
    requires Octets(p, n).Some? && Utf8Decode(Octets(p, n).value) == Some(c)
    ensures 3 * n <= |p|
    ensures Decode(p) == Prepend(c, Decode(p[3 * n..]))
    ensures Decode(p + u) == Prepend(c, Decode(p[3 * n..] + u))
  {
    OctetsOfPrefix(p, u, n);
    assert (p + u)[0] == p[0] && (p + u)[1] == p[1] && (p + u)[2] == p[2];
    assert (p + u)[3 * n..] == p[3 * n..] + u;
  }

  /** The result `DecodeAppend` promises for `p + t`. */
  function Joined(dp: Option<string>, dt: Option<string>): (joined: Option<string>)
    requires dp.Some?
  {
    if dt.Some? then Some(dp.value + dt.value) else None
  }

  /** One step of `DecodeAppend` over a leading character `c` that decodes to
      itself or an escaped sequence: the joined result carries over. */
  lemma JoinedAfterChar(c: char, dq: Option<string>, dqt: Option<string>, dt: Option<string>)
    requires dq.Some? && dqt == Joined(dq, dt)
    ensures Prepend(c, dqt) == Joined(Prepend(c, dq), dt)
  {
    if dt.Some? {
      assert [c] + (dq.value + dt.value) == ([c] + dq.value) + dt.value;
    }
  }

  /** A leading character other than `%` stands for itself, whatever follows. */
  lemma PlainStep(p: string, u: string)
    requires |p| > 0 && p[0] != '%'
    ensures Decode(p) == Prepend(p[0], Decode(p[1..]))
    ensures Decode(p + u) == Prepend(p[0], Decode(p[1..] + u))
  {
    assert (p + u)[0] == p[0] && (p + u)[1..] == p[1..] + u;
  }

  /** Decoding a prefix that decodes, followed by more text, decodes the two parts
      one after the other: the result is both results joined, or `URIError` when the
      rest throws. */
  lemma {:induction false} DecodeAppend(p: string, t: string)
    requires Decode(p).Some?
    ensures Decode(p + t) ==
      (if Decode(t).Some? then Some(Decode(p).value + Decode(t).value) else None)
    decreases |p|
  {
    if |p| == 0 {
      assert p + t == t;
      assert Decode(p).value == "";
      if Decode(t).Some? {
        assert "" + Decode(t).value == Decode(t).value;
      }
    } else if p[0] != '%' {
      PlainStep(p, t);
      DecodeAppend(p[1..], t);
      JoinedAfterChar(p[0], Decode(p[1..]), Decode(p[1..] + t), Decode(t));
    } else {
      var n := SequenceLength(EscapedByte(p));
      var c := Utf8Decode(Octets(p, n).value).value;
      var rest := p[3 * n..];
      EscapeUnitStep(p, t, n, c);
      DecodeAppend(rest, t);
      JoinedAfterChar(c, Decode(rest), Decode(rest + t), Decode(t));
    }
  }

  /** An escape unit that is not malformed announces a sequence of escapes that are
      all present and spell a character. */
  lemma UnitIsNotMalformed(s: string)
    requires |s| > 0 && s[0] == '%' && !MalformedUnit(s)
    ensures StartsWithEscape(s)
    ensures var n := SequenceLength(EscapedByte(s));
      && n > 0 && Octets(s, n).Some? && Utf8Decode(Octets(s, n).value).Some?
  {
    var n := SequenceLength(EscapedByte(s));
    OctetsReadEscapes(s, n);
    Utf8DecodeMatchesRfc3629(Octets(s, n).value);
  }

  /** A unit at the start of `s` that is an escape but not malformed decodes to one
      character, so decoding it followed by any text succeeds exactly when decoding
      the text does. */
  lemma WellFormedUnitIsTransparent(s: string, u: string)
    requires |s| > 0 && s[0] == '%' && !MalformedUnit(s)
    ensures var n := SequenceLength(EscapedByte(s));
      && 0 < n && 3 * n <= |s|
      && (Decode(s[..3 * n] + u).Some? <==> Decode(u).Some?)
  {
    UnitIsNotMalformed(s);
    var n := SequenceLength(EscapedByte(s));
    var c := Utf8Decode(Octets(s, n).value).value;
    var head := s[..3 * n];
    assert s == head + s[3 * n..];
    OctetsOfPrefix(head, s[3 * n..], n);
    assert head[0] == s[0] && head[1] == s[1] && head[2] == s[2];
    EscapeUnitStep(head, u, n, c);
    assert head[3 * n..] + u == u;
  }

  /** A character other than `%` in front of a prefix that decodes gives a longer
      prefix that decodes. */
  lemma PrefixAfterChar(s: string, p: string)
    requires |s| > 0 && s[0] != '%' && Decode(p).Some?
    ensures Decode([s[0]] + p).Some?
  {
    var p' := [s[0]] + p;
    PlainStep(p', "");
    assert p'[1..] == p;
  }

  /** A malformed unit at index `i` of the text after a leading plain character is
      one at index `i + 1` of the whole, after a prefix that still decodes. */
  lemma CauseAfterChar(s: string, i: nat)
    requires |s| > 0 && s[0] != '%'
    requires i <= |s| - 1 && Decode(s[1..][..i]).Some? && MalformedUnit(s[1..][i..])
    ensures Decode(s[..i + 1]).Some? && MalformedUnit(s[i + 1..])
  {
    PrefixAfterChar(s, s[1..][..i]);
    assert s[..i + 1] == [s[0]] + s[1..][..i];
    assert s[i + 1..] == s[1..][i..];
  }

  /** A malformed unit at index `i` of the text after a well-formed leading unit of
      `n` escapes is one at index `3 * n + i` of the whole. */
  lemma CauseAfterUnit(s: string, n: nat, i: nat)
    requires |s| > 0 && s[0] == '%' && !MalformedUnit(s)
    requires n == SequenceLength(EscapedByte(s)) && 3 * n <= |s|
    requires i <= |s| - 3 * n && Decode(s[3 * n..][..i]).Some? && MalformedUnit(s[3 * n..][i..])
    ensures Decode(s[..3 * n + i]).Some? && MalformedUnit(s[3 * n + i..])
  {
    PrefixAfterUnit(s, n, i);
    assert s[3 * n + i..] == s[3 * n..][i..];
  }

  /** The prefix half of `CauseAfterUnit`: a well-formed unit in front of a prefix
      that decodes gives a longer prefix that decodes. */
  lemma PrefixAfterUnit(s: string, n: nat, i: nat)
    requires |s| > 0 && s[0] == '%' && !MalformedUnit(s)
    requires n == SequenceLength(EscapedByte(s)) && 3 * n <= |s|
    requires i <= |s| - 3 * n && Decode(s[3 * n..][..i]).Some?
    ensures Decode(s[..3 * n + i]).Some?
  {
    var pre := s[3 * n..][..i];
    WellFormedUnitIsTransparent(s, pre);
    assert s[..3 * n + i] == s[..3 * n] + pre;
  }

  /** The decoder goes on past a leading unit: a plain character, or a well-formed
      escape unit of `n` escapes. */
  lemma FailureContinues(s: string)
    requires Decode(s).None?
    ensures |s| > 0
    ensures s[0] != '%' ==> Decode(s[1..]).None?
    ensures s[0] == '%' && !MalformedUnit(s) ==>
      var n := SequenceLength(EscapedByte(s));
      3 * n <= |s| && Decode(s[3 * n..]).None?
  {
    if s[0] != '%' {
      PlainStep(s, "");
    } else if !MalformedUnit(s) {
      LeadingUnitIsTransparent(s);
    }
  }

  /** A well-formed leading unit is transparent to failure: the text decodes exactly
      when the text after the unit does. */
  lemma LeadingUnitIsTransparent(s: string)
    requires |s| > 0 && s[0] == '%' && !MalformedUnit(s)
    ensures var n := SequenceLength(EscapedByte(s));
      3 * n <= |s| && (Decode(s).Some? <==> Decode(s[3 * n..]).Some?)
  {
    var n := SequenceLength(EscapedByte(s));
    UnitIsNotMalformed(s);
    assert 3 * n <= |s| by { assert Octets(s, n).Some?; }
    var head, rest := s[..3 * n], s[3 * n..];
    WellFormedUnitIsTransparent(s, rest);
    assert head + rest == s;
  }

  /** Every `URIError` has a cause: a malformed unit at some index `i`, after a prefix
      that decodes. */
  lemma {:induction false} DecodeFailureHasACause(s: string)
    requires Decode(s).None?
    ensures exists i :: 0 <= i <= |s| && Decode(s[..i]).Some? && MalformedUnit(s[i..])
    decreases |s|
  {
    FailureContinues(s);
    if s[0] != '%' {
      DecodeFailureHasACause(s[1..]);
      var i :| 0 <= i <= |s[1..]| && Decode(s[1..][..i]).Some? && MalformedUnit(s[1..][i..]);
      CauseAfterChar(s, i);
    } else if MalformedUnit(s) {
      assert s[..0] == "" && s[0..] == s;
    } else {
      var n := SequenceLength(EscapedByte(s));
      DecodeFailureHasACause(s[3 * n..]);
      var i :| 0 <= i <= |s[3 * n..]| && Decode(s[3 * n..][..i]).Some? && MalformedUnit(s[3 * n..][i..]);
      CauseAfterUnit(s, n, i);
    }
  }

  /** A malformed unit after a prefix that decodes makes the whole text throw. */
  lemma MalformedUnitAfterPrefixFails(s: string, i: nat)
    requires i <= |s| && Decode(s[..i]).Some? && MalformedUnit(s[i..])
    ensures Decode(s).None?
  {
    MalformedUnitFails(s[i..]);
    DecodeAppend(s[..i], s[i..]);
    assert s[..i] + s[i..] == s;
  }

  /** `decodeURIComponent` throws exactly when the text has a malformed unit after a
      prefix that decodes. */
  lemma DecodeFailsExactlyAtMalformedUnit(s: string)
    ensures Decode(s).None? <==>
      exists i :: 0 <= i <= |s| && Decode(s[..i]).Some? && MalformedUnit(s[i..])
  {
    if Decode(s).None? {
      DecodeFailureHasACause(s);
    } else {
      forall i | 0 <= i <= |s| && Decode(s[..i]).Some? && MalformedUnit(s[i..])
        ensures Decode(s).None?
      {
        MalformedUnitAfterPrefixFails(s, i);
      }
    }
  }
}
