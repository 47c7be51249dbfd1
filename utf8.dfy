/** The part of Go's unicode/utf8 package that the line editor relies on.
    The editor keeps its line as a Go string, that is as UTF-8 bytes: typing
    a character appends `string(r)` (Encode below) and Backspace cuts off as
    many bytes as `utf8.DecodeLastRuneInString` reports for the end of the
    line (DecodeLastRune below, built on DecodeRune). */
module Utf8 {

  type Byte = b: int | 0 <= b < 0x100
  type Bytes = seq<Byte>

  /** A Unicode scalar value: every rune a `bufio.Reader` hands back from
      ReadRune is one (malformed input comes back as RuneError). */
  type Rune = r: int | 0 <= r < 0xD800 || 0xE000 <= r < 0x11_0000

  const RuneError: Rune := 0xFFFD
  const RuneSelf := 0x80
  const UtfMax := 4

  /** A byte that is not a continuation byte `10xxxxxx`. */
  predicate IsRuneStart(b: Byte) {
    !(0x80 <= b < 0xC0)
  }

  /** The UTF-8 encoding of r, as Go's `string(r)` produces it. */
  function Encode(r: Rune): (e: Bytes)
    ensures 1 <= |e| <= UtfMax
    ensures |e| == 1 <==> r < RuneSelf
    ensures IsRuneStart(e[0])
    ensures forall i :: 1 <= i < |e| ==> !IsRuneStart(e[i])
  {
    if r < 0x80 then [r]
    else if r < 0x800 then [0xC0 + r / 0x40, 0x80 + r % 0x40]
    else if r < 0x1_0000 then [0xE0 + r / 0x1000, 0x80 + r / 0x40 % 0x40, 0x80 + r % 0x40]
    else [0xF0 + r / 0x4_0000, 0x80 + r / 0x1000 % 0x40, 0x80 + r / 0x40 % 0x40, 0x80 + r % 0x40]
  }

  /** The encodings of rs, one after the other. */
  function Encoding(rs: seq<Rune>): (s: Bytes)
    ensures |s| >= |rs|
  {
    if rs == [] then [] else Encoding(rs[..|rs| - 1]) + Encode(rs[|rs| - 1])
  }

  /** How many bytes an encoding that starts with b occupies, or 0 when b
      cannot start one (Go's `first` table). */
  function LeadSize(b: Byte): nat {
    if b < 0x80 then 1
    else if b < 0xC2 then 0
    else if b < 0xE0 then 2
    else if b < 0xF0 then 3
    else if b < 0xF5 then 4
    else 0
  }

  /** The range the byte after the lead byte b must lie in (Go's
      `acceptRanges`); it rules out overlong forms, surrogates and values
      above U+10FFFF. */
  function SecondLo(b: Byte): Byte {
    if b == 0xE0 then 0xA0 else if b == 0xF0 then 0x90 else 0x80
  }

  function SecondHi(b: Byte): Byte {
    if b == 0xED then 0x9F else if b == 0xF4 then 0x8F else 0xBF
  }

  /** The rune a two-, three- or four-byte encoding carries: the payload
      bits of the lead byte followed by six bits from each continuation
      byte. */
  function Value2(b0: int, b1: int): int {
    (b0 - 0xC0) * 0x40 + (b1 - 0x80)
  }

  function Value3(b0: int, b1: int, b2: int): int {
    (b0 - 0xE0) * 0x1000 + (b1 - 0x80) * 0x40 + (b2 - 0x80)
  }

  function Value4(b0: int, b1: int, b2: int, b3: int): int {
    (b0 - 0xF0) * 0x4_0000 + (b1 - 0x80) * 0x1000 + (b2 - 0x80) * 0x40 + (b3 - 0x80)
  }

  /** `utf8.DecodeRuneInString`: the first rune of s and its width in bytes;
      (RuneError, 1) when s does not start with a well-formed encoding and
      (RuneError, 0) when s is empty. */
  function DecodeRune(s: Bytes): (d: (Rune, nat))
    ensures d.1 <= |s|
    ensures d.1 == 0 <==> |s| == 0
  {
    if |s| == 0 then (RuneError, 0)
    else
      var n := LeadSize(s[0]);
      if n == 1 then (s[0], 1)
      else if n == 0 || |s| < n then (RuneError, 1)
      else if s[1] < SecondLo(s[0]) || SecondHi(s[0]) < s[1] then (RuneError, 1)
      else if n == 2 then (Value2(s[0], s[1]), 2)
      else if IsRuneStart(s[2]) then (RuneError, 1)
      else if n == 3 then (Value3(s[0], s[1], s[2]), 3)
      else if IsRuneStart(s[3]) then (RuneError, 1)
      else (Value4(s[0], s[1], s[2], s[3]), 4)
  }

  /** The backward scan of `utf8.DecodeLastRuneInString`: from index start
      down to lim, the first position holding a byte that can start an
      encoding; when there is none, lim - 1, or 0 if that is negative. */
  function ScanBack(s: Bytes, start: int, lim: nat): (k: nat)
    requires -1 <= start < |s| && lim <= start + 1
    ensures k < |s| || (|s| == 0 && k == 0)
    ensures (lim <= k <= start && IsRuneStart(s[k])) || k == if lim == 0 then 0 else lim - 1
    decreases start + 1
  {
    if start < lim then (if start < 0 then 0 else start)
    else if IsRuneStart(s[start]) then start
    else ScanBack(s, start - 1, lim)
  }

  /** `utf8.DecodeLastRuneInString`: the last rune of s and its width in
      bytes; (RuneError, 1) when s does not end with a well-formed encoding
      and (RuneError, 0) when s is empty. */
  function DecodeLastRune(s: Bytes): (d: (Rune, nat))
    ensures d.1 <= |s|
    ensures d.1 == 0 <==> |s| == 0
  {
    if |s| == 0 then (RuneError, 0)
    else if s[|s| - 1] < RuneSelf then (s[|s| - 1], 1)
    else
      var lim := if |s| < UtfMax then 0 else |s| - UtfMax;
      var start := ScanBack(s, |s| - 2, lim);
      var d := DecodeRune(s[start..]);
      if start + d.1 != |s| then (RuneError, 1) else d
  }

  /** Division by one of the field widths 2^6, 2^12, 2^18 recovers the
      quotient and remainder x was built from. */
  lemma DivMod(x: int, q: int, m: int, k: int)
    requires k == 0x40 || k == 0x1000 || k == 0x4_0000
    requires 0 <= m < k && x == q * k + m
    ensures x / k == q && x % k == m
  {
    if k == 0x40 {
      assert x == q * 0x40 + m;
    } else if k == 0x1000 {
      assert x == q * 0x1000 + m;
    } else {
      assert x == q * 0x4_0000 + m;
    }
  }

  /** The payload fields Encode cuts r into put r back together. */
  lemma Fields3(r: int)
    requires 0 <= r
    ensures r / 0x1000 * 0x1000 + r / 0x40 % 0x40 * 0x40 + r % 0x40 == r
  {
    var a, b := r / 0x1000, r % 0x1000;
    var c, d := b / 0x40, b % 0x40;
    DivMod(r, a * 0x40 + c, d, 0x40);
    DivMod(r / 0x40, a, c, 0x40);
  }

  lemma Fields4(r: int)
    requires 0 <= r
    ensures r / 0x4_0000 * 0x4_0000 + r / 0x1000 % 0x40 * 0x1000 + r / 0x40 % 0x40 * 0x40 + r % 0x40 == r
  {
    var a, b := r / 0x4_0000, r % 0x4_0000;
    var c, d := b / 0x1000, b % 0x1000;
    DivMod(r, a * 0x40 + c, d, 0x1000);
    DivMod(r / 0x1000, a, c, 0x40);
    Fields3(d);
    DivMod(r, (a * 0x40 + c) * 0x40 + d / 0x40, d % 0x40, 0x40);
    DivMod(r / 0x40, a * 0x40 + c, d / 0x40, 0x40);
  }

  /** Decoding the front of an encoding gives back the rune and the
      encoding's width, whatever follows it. */
  lemma DecodeEncoded(r: Rune, rest: Bytes)
    ensures DecodeRune(Encode(r) + rest) == (r, |Encode(r)|)
  {
    var s := Encode(r) + rest;
    if r < 0x80 {
    } else if r < 0x800 {
      assert s[0] == 0xC0 + r / 0x40 && s[1] == 0x80 + r % 0x40;
    } else if r < 0x1_0000 {
      assert s[0] == 0xE0 + r / 0x1000 && s[1] == 0x80 + r / 0x40 % 0x40 && s[2] == 0x80 + r % 0x40;
      Fields3(r);
    } else {
      assert s[0] == 0xF0 + r / 0x4_0000 && s[1] == 0x80 + r / 0x1000 % 0x40;
      assert s[2] == 0x80 + r / 0x40 % 0x40 && s[3] == 0x80 + r % 0x40;
      Fields4(r);
    }
  }

  /** Every well-formed encoding DecodeRune accepts is the one Encode
      produces for the rune it decodes to. */
  lemma DecodedIsEncoding(s: Bytes)
    requires |s| > 0 && (s[0] < RuneSelf || DecodeRune(s).1 > 1)
    ensures s[..DecodeRune(s).1] == Encode(DecodeRune(s).0)
  {
    var (r, n) := DecodeRune(s);
    if n == 2 {
      DivMod(r, s[0] - 0xC0, s[1] - 0x80, 0x40);
    } else if n == 3 {
      var x: int := s[0] - 0xE0;
      var y: int := s[1] - 0x80;
      var z: int := s[2] - 0x80;
      DivMod(r, x, y * 0x40 + z, 0x1000);
      DivMod(r, x * 0x40 + y, z, 0x40);
      DivMod(r / 0x40, x, y, 0x40);
    } else if n == 4 {
      var w: int := s[0] - 0xF0;
      var x: int := s[1] - 0x80;
      var y: int := s[2] - 0x80;
      var z: int := s[3] - 0x80;
      DivMod(r, w, x * 0x1000 + y * 0x40 + z, 0x4_0000);
      DivMod(r, w * 0x40 + x, y * 0x40 + z, 0x1000);
      DivMod(r / 0x1000, w, x, 0x40);
      DivMod(r, (w * 0x40 + x) * 0x40 + y, z, 0x40);
      DivMod(r / 0x40, w * 0x40 + x, y, 0x40);
    }
  }

  /** The backward scan over p + Encode(r) stops exactly at the lead byte
      of that last encoding. */
  lemma ScanFindsLead(p: Bytes, r: Rune)
    requires |Encode(r)| >= 2
    ensures var s := p + Encode(r);
            ScanBack(s, |s| - 2, if |s| < UtfMax then 0 else |s| - UtfMax) == |p|
  {
    var e := Encode(r);
    var s := p + e;
    var lim := if |s| < UtfMax then 0 else |s| - UtfMax;
    assert s[|p|] == e[0];
    if |e| == 2 {
      assert ScanBack(s, |p|, lim) == |p|;
    } else if |e| == 3 {
      assert s[|p| + 1] == e[1];
      assert ScanBack(s, |p|, lim) == |p|;
      assert ScanBack(s, |p| + 1, lim) == ScanBack(s, |p|, lim);
    } else {
      assert s[|p| + 1] == e[1] && s[|p| + 2] == e[2];
      assert ScanBack(s, |p|, lim) == |p|;
      assert ScanBack(s, |p| + 1, lim) == ScanBack(s, |p|, lim);
      assert ScanBack(s, |p| + 2, lim) == ScanBack(s, |p| + 1, lim);
    }
  }

  /** Backspace's key fact: the last rune of p + Encode(r) is r, and it is
      |Encode(r)| bytes wide, whatever p holds. */
  lemma DecodeLastOfEncoded(p: Bytes, r: Rune)
    ensures DecodeLastRune(p + Encode(r)) == (r, |Encode(r)|)
  {
    var e := Encode(r);
    var s := p + e;
    assert s[|s| - 1] == e[|e| - 1];
    if |e| >= 2 {
      ScanFindsLead(p, r);
      assert s[|p|..] == e + [];
      DecodeEncoded(r, []);
    }
  }

  /** An encoding is never empty, so only the empty rune sequence encodes
      to no bytes. */
  lemma {:induction false} EncodingEmpty(rs: seq<Rune>)
    ensures Encoding(rs) == [] <==> rs == []
  {
  }

  /** Cutting the width DecodeLastRune reports off an encoded rune sequence
      removes exactly its last rune. */
  lemma DropLastRune(rs: seq<Rune>)
    requires rs != []
    ensures var s := Encoding(rs);
            s[..|s| - DecodeLastRune(s).1] == Encoding(rs[..|rs| - 1])
  {
    var p := Encoding(rs[..|rs| - 1]);
    DecodeLastOfEncoded(p, rs[|rs| - 1]);
  }
}
