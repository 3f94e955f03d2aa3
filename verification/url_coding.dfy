/** Percent-coding of URLs: mg_url_encode and mg_url_decode of lib/mongoose/mongoose.c, against section 2.1 of RFC 3986. */
module UrlCoding {
  import opened Words

  const PERCENT: Byte := '%' as int
  const PLUS: Byte := '+' as int
  const SPACE: Byte := ' ' as int

  // ---------- characters ----------

  predicate IsDigit(b: Byte) {
    '0' as int <= b <= '9' as int
  }

  predicate IsAlphanumeric(b: Byte) {
    IsDigit(b) || 'A' as int <= b <= 'Z' as int || 'a' as int <= b <= 'z' as int
  }

  /** Written as it is. */
  predicate IsPlain(b: Byte) {
    IsAlphanumeric(b) || b == '.' as int || b == '_' as int || b == '-' as int || b == '$' as int || b == ',' as int
    || b == ';' as int || b == '~' as int || b == '(' as int || b == ')' as int
  }

  predicate IsHex(b: Byte) {
    IsDigit(b) || 'A' as int <= b <= 'F' as int || 'a' as int <= b <= 'f' as int
  }

  function ToLower(b: Byte): Byte {
    if 'A' as int <= b <= 'Z' as int then b + 32 else b
  }

  function HexValue(b: Byte): (n: nat)
    requires IsHex(b)
    ensures n < 16
  {
    if IsDigit(b) then b - '0' as int else ToLower(b) - 'W' as int
  }

  function HexDigit(n: nat): Byte
    requires n < 16
  {
    if n < 10 then '0' as int + n else 'W' as int + n
  }

  /** The digits of section 2.1, written out. */
  const LOWER_DIGITS := "0123456789abcdef"
  const UPPER_DIGITS := "0123456789ABCDEF"

  /** b is the digit for n, in either case. */
  predicate Stands(b: Byte, n: nat) {
    n < 16 && (b == LOWER_DIGITS[n] as int || b == UPPER_DIGITS[n] as int)
  }

  /** A hexadecimal digit, and its value, are what the two lists say, and nothing else. */
  lemma HexDigits(b: Byte, n: nat)
    ensures Stands(b, n) <==> IsHex(b) && HexValue(b) == n
  {
    if IsHex(b) && HexValue(b) == n {
      assert if IsDigit(b) || b >= 97 then LOWER_DIGITS[n] as int == b else UPPER_DIGITS[n] as int == b;
    }
  }

  /** The encoder writes the lower-case ones. */
  lemma DigitWritten(n: nat)
    requires n < 16
    ensures HexDigit(n) == LOWER_DIGITS[n] as int
  {
  }

  /** The bytes written as they are: letters, digits and the marks of `dont_escape`. */
  lemma PlainBytes(b: Byte)
    ensures IsPlain(b) <==>
            || '0' <= b as char <= '9' || 'A' <= b as char <= 'Z' || 'a' <= b as char <= 'z'
            || b as char in "._-$,;~()"
  {
    var marks := "._-$,;~()";
    assert marks == ['.', '_', '-', '$', ',', ';', '~', '(', ')'];
  }

  // ---------- the two codings ----------

  function Coded(b: Byte): seq<Byte> {
    if IsPlain(b) then [b] else [PERCENT, HexDigit(b / 16), HexDigit(b % 16)]
  }

  lemma CodedIs(b: Byte)
    ensures Coded(b) ==
            if || '0' <= b as char <= '9' || 'A' <= b as char <= 'Z' || 'a' <= b as char <= 'z'
               || b as char in "._-$,;~()"
            then [b]
            else ['%' as int, LOWER_DIGITS[b / 16] as int, LOWER_DIGITS[b % 16] as int]
  {
    PlainBytes(b);
    DigitWritten(b / 16);
    DigitWritten(b % 16);
  }

  function Encoded(s: seq<Byte>): seq<Byte> {
    if s == [] then [] else Encoded(s[..|s| - 1]) + Coded(s[|s| - 1])
  }

  lemma {:induction false} EncodedFront(s: seq<Byte>)
    requires s != []
    ensures Encoded(s) == Coded(s[0]) + Encoded(s[1..])
    decreases |s|
  {
    var n := |s| - 1;
    if n == 0 {
      assert s[..0] == [] && s[1..] == [];
    } else {
      EncodedFront(s[..n]);
      assert s[..n][1..] == s[1..][..n - 1] && s[1..][n - 1] == s[n];
      var middle := Encoded(s[1..][..n - 1]);
      assert Encoded(s[..n]) == Coded(s[0]) + middle && Encoded(s[1..]) == middle + Coded(s[n]);
      assert Coded(s[0]) + middle + Coded(s[n]) == Coded(s[0]) + (middle + Coded(s[n]));
    }
  }

  /** An escape stands at i. */
  predicate IsEscape(t: seq<Byte>, i: nat) {
    i + 2 < |t| && t[i] == PERCENT && IsHex(t[i + 1]) && IsHex(t[i + 2])
  }

  /** What the text at i stands for, and how much of it; in form data a plus sign is a space. */
  function Unit(t: seq<Byte>, i: nat, form: bool): (unit: (Byte, nat))
    requires i < |t|
    ensures 0 < unit.1 <= |t| - i
  {
    if IsEscape(t, i) then (16 * HexValue(t[i + 1]) + HexValue(t[i + 2]), 3)
    else if form && t[i] == PLUS then (SPACE, 1)
    else (t[i], 1)
  }

  function DecodedFrom(t: seq<Byte>, form: bool, i: nat): seq<Byte>
    requires i <= |t|
    decreases |t| - i
  {
    if i == |t| then [] else [Unit(t, i, form).0] + DecodedFrom(t, form, i + Unit(t, i, form).1)
  }

  function Decoded(t: seq<Byte>, form: bool): seq<Byte> {
    DecodedFrom(t, form, 0)
  }

  /** A percent sign at i, with the two digits for n behind it. */
  predicate Escapes(t: seq<Byte>, i: nat, n: Byte) {
    i + 2 < |t| && t[i] == '%' as int && Stands(t[i + 1], n / 16) && Stands(t[i + 2], n % 16)
  }

  /** What stands for what: an escape for its byte, a plus sign in form data for a space, any other byte for itself. */
  lemma UnitIs(t: seq<Byte>, i: nat, form: bool, n: Byte)
    requires i < |t|
    ensures Unit(t, i, form) == (n, 3) <==> Escapes(t, i, n)
    ensures Unit(t, i, form) == (n, 1) <==>
            (forall b: Byte :: !Escapes(t, i, b)) && n == if form && t[i] == '+' as int then ' ' as int else t[i]
    ensures Unit(t, i, form).1 == 1 || Unit(t, i, form).1 == 3
  {
    if i + 2 < |t| {
      HexDigits(t[i + 1], n / 16);
      HexDigits(t[i + 2], n % 16);
      if IsEscape(t, i) {
        var b: Byte := 16 * HexValue(t[i + 1]) + HexValue(t[i + 2]);
        HexDigits(t[i + 1], b / 16);
        HexDigits(t[i + 2], b % 16);
        assert Escapes(t, i, b);
      } else {
        forall b: Byte
          ensures !Escapes(t, i, b)
        {
          HexDigits(t[i + 1], b / 16);
          HexDigits(t[i + 2], b % 16);
        }
      }
    }
  }

  /**
   * t from i on codes s: every byte stands for itself or is written as an escape with digits of either case. A byte
   * that would be read as something else has to be escaped.
   */
  ghost predicate Codes(t: seq<Byte>, i: nat, s: seq<Byte>, form: bool)
    requires i <= |t|
    decreases |s|
  {
    if s == [] then i == |t|
    else
      || (Escapes(t, i, s[0]) && Codes(t, i + 3, s[1..], form))
      || (i < |t| && t[i] == s[0] && s[0] != '%' as int && !(form && s[0] == '+' as int) && Codes(t, i + 1, s[1..], form))
  }

  lemma {:induction false} EncodedCodes(front: seq<Byte>, s: seq<Byte>, form: bool)
    ensures Codes(front + Encoded(s), |front|, s, form)
    decreases |s|
  {
    if s != [] {
      EncodedFront(s);
      EncodedCodes(front + Coded(s[0]), s[1..], form);
      CodedFront(front, s[0], Encoded(s[1..]));
      assert front + (Coded(s[0]) + Encoded(s[1..])) == front + Coded(s[0]) + Encoded(s[1..]);
    }
  }

  lemma CodedFront(front: seq<Byte>, b: Byte, rest: seq<Byte>)
    ensures var t, i := front + Coded(b) + rest, |front|;
      if IsPlain(b) then t[i] == b && b != PERCENT && b != PLUS
      else Escapes(t, i, b)
  {
    var t, i := front + Coded(b) + rest, |front|;
    assert t[i] == Coded(b)[0];
    if !IsPlain(b) {
      DigitWritten(b / 16);
      DigitWritten(b % 16);
      assert t[i + 1] == Coded(b)[1] && t[i + 2] == Coded(b)[2];
    }
  }

  /** Any coding of s is decoded to s. */
  lemma {:induction false} CodingIsDecoded(t: seq<Byte>, i: nat, s: seq<Byte>, form: bool)
    requires i <= |t| && Codes(t, i, s, form)
    ensures DecodedFrom(t, form, i) == s
    decreases |s|
  {
    if s != [] {
      UnitIs(t, i, form, s[0]);
      if Escapes(t, i, s[0]) {
        CodingIsDecoded(t, i + 3, s[1..], form);
      } else {
        CodingIsDecoded(t, i + 1, s[1..], form);
      }
    }
  }

  /** Decoding undoes encoding, for form data and otherwise. */
  lemma RoundTrip(s: seq<Byte>, form: bool)
    ensures Decoded(Encoded(s), form) == s
  {
    EncodedCodes([], s, form);
    assert [] + Encoded(s) == Encoded(s);
    CodingIsDecoded(Encoded(s), 0, s, form);
  }

  lemma {:induction false} EncodedSize(s: seq<Byte>)
    ensures |s| <= |Encoded(s)| <= 3 * |s|
  {
    if s != [] {
      EncodedSize(s[..|s| - 1]);
    }
  }

  // ---------- encoding into a buffer ----------

  /**
   * What one byte becomes at position d of a buffer that held `space`: an escape that does not fit is skipped, and
   * the byte in its place stays as it was.
   */
  function Piece(b: Byte, space: seq<Byte>, d: nat): (t: seq<Byte>)
    requires d < |space|
    ensures 1 <= |t| <= |space| - d
  {
    if IsPlain(b) then [b] else if d + 2 < |space| then Coded(b) else [space[d]]
  }

  /** What the encoder leaves in a buffer that held `space`. */
  function Squeezed(s: seq<Byte>, space: seq<Byte>): (t: seq<Byte>)
    ensures |t| <= |space|
  {
    if s == [] then []
    else
      var t := Squeezed(s[..|s| - 1], space);
      if |t| == |space| then t else t + Piece(s[|s| - 1], space, |t|)
  }

  /** Nothing happens to a full buffer. */
  lemma {:induction false} SqueezedFull(s: seq<Byte>, space: seq<Byte>, i: nat)
    requires i <= |s| && |Squeezed(s[..i], space)| == |space|
    ensures Squeezed(s, space) == Squeezed(s[..i], space)
    decreases |s|
  {
    if i < |s| {
      assert s[..|s| - 1][..i] == s[..i];
      SqueezedFull(s[..|s| - 1], space, i);
    } else {
      assert s[..i] == s;
    }
  }

  /** The buffer receives the encoding exactly when that fits. */
  lemma {:induction false} SqueezedIsEncodedIff(s: seq<Byte>, space: seq<Byte>)
    ensures Squeezed(s, space) == Encoded(s) <==> |Encoded(s)| <= |space|
  {
    if s != [] && |Encoded(s)| <= |space| {
      SqueezedIsEncodedIff(s[..|s| - 1], space);
    }
  }

  /** Every byte of the buffer comes from the encoding, or is as it was. */
  lemma {:induction false} SqueezedBytes(s: seq<Byte>, space: seq<Byte>)
    ensures forall k :: 0 <= k < |Squeezed(s, space)| ==> Squeezed(s, space)[k] == space[k] || Squeezed(s, space)[k] in Encoded(s)
  {
    if s != [] {
      SqueezedBytes(s[..|s| - 1], space);
    }
  }

  /** A destination of three bytes per source byte and one more is enough to get the source back. */
  lemma RoomForRoundTrip(s: seq<Byte>, space: seq<Byte>, form: bool)
    requires |space| >= 3 * |s|
    ensures Decoded(Squeezed(s, space), form) == s
  {
    EncodedSize(s);
    SqueezedIsEncodedIff(s, space);
    RoundTrip(s, form);
  }

  /** `done` was written to the front, the rest is as it was. */
  ghost predicate Replaced(was: seq<Byte>, done: seq<Byte>, now: seq<Byte>) {
    && |done| <= |was| == |now|
    && (forall k :: 0 <= k < |done| ==> now[k] == done[k])
    && forall k :: |done| <= k < |was| ==> now[k] == was[k]
  }

  /** One byte, written at d or, for want of room, passed over. */
  method PutCoded(b: Byte, dst: array<Byte>, d: nat, end: nat) returns (next: nat)
    requires d < end < dst.Length
    modifies dst
    ensures var t := Piece(b, old(dst[..end]), d);
      next == d + |t| && Replaced(old(dst[..]), old(dst[..d]) + t, dst[..])
  {
    next := d + 1;
    if IsPlain(b) {
      dst[d] := b;
    } else if d + 2 < end {
      dst[d], dst[d + 1], dst[d + 2] := PERCENT, HexDigit(b / 16), HexDigit(b % 16);
      next := d + 3;
    }
  }

  /** Encode a C string into a buffer of the given size, with a terminator. */
  method UrlEncode(src: seq<Byte>, dst: array<Byte>, dstLen: nat)
    requires 1 <= dstLen <= dst.Length && 0 !in src
    modifies dst
    ensures Replaced(old(dst[..]), Squeezed(src, old(dst[..dstLen - 1])) + [0], dst[..])
  {
    var end := dstLen - 1;
    ghost var was, space, done: seq<Byte> := dst[..], dst[..end], [];
    var i, d := 0, 0;
    while i < |src| && d < end
      invariant 0 <= i <= |src| && |done| == d <= end
      invariant done == Squeezed(src[..i], space) && Replaced(was, done, dst[..])
    {
      assert src[..i + 1][..i] == src[..i];
      ghost var now := dst[..];
      var next := PutCoded(src[i], dst, d, end);
      ReplacedMore(was, done, now, end, src[i], dst[..]);
      done := done + Piece(src[i], space, d);
      i, d := i + 1, next;
    }
    assert src[..|src|] == src;
    if d == end {
      SqueezedFull(src, space, i);
    }
    dst[d] := 0;
  }

  lemma ReplacedMore(was: seq<Byte>, done: seq<Byte>, now: seq<Byte>, end: nat, b: Byte, after: seq<Byte>)
    requires Replaced(was, done, now) && |done| < end < |was|
    requires Replaced(now, now[..|done|] + Piece(b, now[..end], |done|), after)
    ensures Replaced(was, done + Piece(b, was[..end], |done|), after)
  {
  }

  // ---------- decoding into a buffer, which may be the source ----------

  /** The byte the text at i stands for, and the size of that text. */
  method ReadUnit(src: array<Byte>, i: nat, srcLen: nat, form: bool) returns (b: Byte, size: nat)
    requires i < srcLen <= src.Length
    ensures (b, size) == Unit(src[..srcLen], i, form)
  {
    b, size := src[i], 1;
    if src[i] == PERCENT && i < srcLen - 2 && IsHex(src[i + 1]) && IsHex(src[i + 2]) {
      b, size := 16 * HexValue(src[i + 1]) + HexValue(src[i + 2]), 3;
    } else if form && src[i] == PLUS {
      b := SPACE;
    }
  }

  lemma SameUnit(t: seq<Byte>, u: seq<Byte>, i: nat, form: bool)
    requires i < |t| == |u| && forall k :: i <= k < |t| ==> t[k] == u[k]
    ensures Unit(t, i, form) == Unit(u, i, form)
  {
  }

  lemma ReplacedByte(was: seq<Byte>, done: seq<Byte>, now: seq<Byte>, b: Byte)
    requires Replaced(was, done, now) && |done| < |was|
    ensures Replaced(was, done + [b], now[|done| := b])
  {
  }

  /** Decode the text at i into position j, which is not behind it. */
  method DecodeUnit(src: array<Byte>, i: nat, srcLen: nat, dst: array<Byte>, j: nat, form: bool,
                    ghost text: seq<Byte>, ghost was: seq<Byte>, ghost done: seq<Byte>) returns (b: Byte, size: nat)
    requires j <= i < srcLen == |text| <= src.Length && j < dst.Length && |done| == j
    requires Replaced(was, done, dst[..]) && forall k :: i <= k < srcLen ==> src[k] == text[k]
    modifies dst
    ensures (b, size) == Unit(text, i, form)
    ensures Replaced(was, done + [b], dst[..]) && forall k :: i + size <= k < srcLen ==> src[k] == text[k]
  {
    SameUnit(src[..srcLen], text, i, form);
    b, size := ReadUnit(src, i, srcLen, form);
    ReplacedByte(was, done, dst[..], b);
    dst[j] := b;
  }

  /** The text before i was decoded to `done`. */
  ghost predicate DecodedUpTo(t: seq<Byte>, form: bool, i: nat, done: seq<Byte>)
    requires i <= |t|
  {
    Decoded(t, form) == done + DecodedFrom(t, form, i)
  }

  lemma DecodedMore(t: seq<Byte>, form: bool, i: nat, done: seq<Byte>)
    requires i < |t| && DecodedUpTo(t, form, i, done)
    ensures DecodedUpTo(t, form, i + Unit(t, i, form).1, done + [Unit(t, i, form).0])
  {
    var (b, size) := Unit(t, i, form);
    var rest := DecodedFrom(t, form, i + size);
    assert done + ([b] + rest) == done + [b] + rest;
  }

  /** Some text left means some bytes left. */
  lemma DecodedSoFar(t: seq<Byte>, form: bool, i: nat, done: seq<Byte>)
    requires i <= |t| && DecodedUpTo(t, form, i, done)
    ensures done <= Decoded(t, form) && (i == |t| <==> done == Decoded(t, form))
  {
    assert i == |t| ==> done + [] == done;
  }

  /**
   * The decoded bytes with a terminator behind them, as many as fit; -1 if not all do. The destination may be
   * the buffer that is decoded.
   */
  method UrlDecode(src: array<Byte>, srcLen: nat, dst: array<Byte>, dstLen: nat, form: bool) returns (size: int)
    requires srcLen <= src.Length && 1 <= dstLen <= dst.Length
    modifies dst
    ensures var all := Decoded(old(src[..srcLen]), form);
      && size == (if |all| < dstLen then |all| else -1)
      && Replaced(old(dst[..]), (if |all| < dstLen then all else all[..dstLen - 1]) + [0], dst[..])
  {
    ghost var was, text, done: seq<Byte> := dst[..], src[..srcLen], [];
    var i, j := 0, 0;
    while i < srcLen && j < dstLen - 1
      invariant 0 <= j <= i <= srcLen && j < dstLen && |done| == j
      invariant DecodedUpTo(text, form, i, done)
      invariant Replaced(was, done, dst[..])
      invariant forall k :: i <= k < srcLen ==> src[k] == text[k]
    {
      DecodedMore(text, form, i, done);
      var b, size := DecodeUnit(src, i, srcLen, dst, j, form, text, was, done);
      done := done + [b];
      i, j := i + size, j + 1;
    }
    DecodedSoFar(text, form, i, done);
    ReplacedByte(was, done, dst[..], 0);
    dst[j] := 0;
    size := if i >= srcLen then j else -1;
  }
}
