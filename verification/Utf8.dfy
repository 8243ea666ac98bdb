/** UTF-8 encoding as unicode.c performs it, against the bit layout of section 3 of RFC 3629.
    Bytes and code points are unsigned integers, so `x & 0x3f` is written `x % 64`, `x >> 6` is `x / 64`, and
    joining a mark to bits that do not overlap it is a sum; `BitReading` proves these readings on bits. */
module Utf8 {
  import opened Bytes

  type Codepoint = c: int | 0 <= c < 0x1_0000_0000

  /** First code point whose encoding no longer fits the four-byte layout. */
  const LAYOUT_LIMIT: nat := 0x20_0000

  lemma BitReading(b: bv8)
    ensures b & 0x3f == b % 64 && b & 0x0f == b % 16
    ensures b < 64 ==> b | 0x80 == 0x80 + b
    ensures b < 32 ==> b | 0xc0 == 0xc0 + b
    ensures b < 16 ==> b | 0xe0 == 0xe0 + b
    ensures b | 0xf0 == 0xf0 + b % 16
    ensures b & 0xc0 == 0x80 <==> 0x80 <= b < 0xc0
  {}

  function ChSize(ch: Codepoint): (n: nat)
    ensures 1 <= n <= 4
  {
    if ch < 0x80 then 1 else if ch < 0x800 then 2 else if ch < 0x1_0000 then 3 else 4
  }

  /** What is left of `ch` after `k` continuation bytes have been taken from its low end. */
  function Rest(ch: Codepoint, k: nat): Codepoint {
    if k == 0 then ch else Rest(ch, k - 1) / 64
  }

  /** The last `k` bytes of an encoding: six bits each, the lowest six last. */
  function Tails(ch: Codepoint, k: nat): (bytes: seq<Byte>)
    ensures |bytes| == k
  {
    if k == 0 then [] else [0x80 + Rest(ch, k - 1) % 64] + Tails(ch, k - 1)
  }

  /** The lead byte of an `n`-byte form: the mark of the length joined to the remaining bits, cut to eight
      bits by the store into a `char`. */
  function LeadFrom(rest: Codepoint, n: nat): Byte {
    if n <= 1 then rest % 128
    else if n == 2 then 0xc0 + rest % 32
    else if n == 3 then 0xe0 + rest % 16
    else 0xf0 + rest % 16
  }

  /** The bytes that utf8_encode writes; total on 32-bit values. */
  function Encode(ch: Codepoint): (bytes: seq<Byte>)
    ensures |bytes| == ChSize(ch)
  {
    [LeadFrom(Rest(ch, ChSize(ch) - 1), ChSize(ch))] + Tails(ch, ChSize(ch) - 1)
  }

  /** The table in section 3 of RFC 3629, read as numbers. Above the layout limit its four-byte row is
      extended by what the lead byte keeps of the excess bits. */
  function Rfc3629(ch: Codepoint): seq<Byte> {
    if ch < 0x80 then
      [ch]
    else if ch < 0x800 then
      Row2(ch / 64, ch % 64)
    else if ch < 0x1_0000 then
      Row3(ch / 4096, ch / 64 % 64, ch % 64)
    else
      Row4(ch / 26_2144, ch / 4096 % 64, ch / 64 % 64, ch % 64)
  }

  function Row2(a: nat, b: nat): seq<Byte>
    requires a < 32 && b < 64
  {
    [0xC0 + a, 0x80 + b]
  }

  function Row3(a: nat, b: nat, c: nat): seq<Byte>
    requires a < 16 && b < 64 && c < 64
  {
    [0xE0 + a, 0x80 + b, 0x80 + c]
  }

  function Row4(a: nat, b: nat, c: nat, d: nat): seq<Byte>
    requires b < 64 && c < 64 && d < 64
  {
    [0xF0 + a % 16, 0x80 + b, 0x80 + c, 0x80 + d]
  }

  lemma RestQuotients(ch: Codepoint)
    ensures Rest(ch, 0) == ch
    ensures Rest(ch, 1) == ch / 64
    ensures Rest(ch, 2) == ch / 4096
    ensures Rest(ch, 3) == ch / 26_2144
  {
    assert Rest(ch, 1) == Rest(ch, 0) / 64;
    assert Rest(ch, 2) == Rest(ch, 1) / 64;
    assert Rest(ch, 3) == Rest(ch, 2) / 64;
  }

  lemma TailsForms(ch: Codepoint)
    ensures Tails(ch, 0) == []
    ensures Tails(ch, 1) == [0x80 + ch % 64]
    ensures Tails(ch, 2) == [0x80 + ch / 64 % 64, 0x80 + ch % 64]
    ensures Tails(ch, 3) == [0x80 + ch / 4096 % 64, 0x80 + ch / 64 % 64, 0x80 + ch % 64]
  {
    RestQuotients(ch);
    assert Tails(ch, 1) == [0x80 + Rest(ch, 0) % 64] + Tails(ch, 0);
    assert Tails(ch, 2) == [0x80 + Rest(ch, 1) % 64] + Tails(ch, 1);
    assert Tails(ch, 3) == [0x80 + Rest(ch, 2) % 64] + Tails(ch, 2);
  }

  /** The bytes written are those of the standard's table. */
  lemma EncodeFollowsRfc3629(ch: Codepoint)
    ensures Encode(ch) == Rfc3629(ch)
  {
    RestQuotients(ch);
    TailsForms(ch);
  }

  predicate IsContinuation(b: Byte) {
    0x80 <= b < 0xC0
  }

  /** The lead byte is never a continuation byte, all the others are, and only code point 0 has a NUL:
      this is what lets a backwards scan find a character boundary, for every 32-bit value. */
  lemma EncodeShape(ch: Codepoint)
    ensures !IsContinuation(Encode(ch)[0])
    ensures forall i | 0 < i < ChSize(ch) :: IsContinuation(Encode(ch)[i])
    ensures NoNul(Encode(ch)) <==> ch != 0
  {
    EncodeFollowsRfc3629(ch);
    if ch == 0 {
      assert Encode(ch)[0] == 0;
    }
  }

  method Classify(ch: Codepoint) returns (first: Byte, len: nat)
    ensures len == ChSize(ch)
    ensures first == if len == 1 then 0 else if len == 2 then 0xc0 else if len == 3 then 0xe0 else 0xf0
  {
    if ch < 0x80 {
      first, len := 0, 1;
    } else if ch < 0x800 {
      first, len := 0xc0, 2;
    } else if ch < 0x1_0000 {
      first, len := 0xe0, 3;
    } else {
      first, len := 0xf0, 4;
    }
  }

  /** `ch | first` on the remaining bits: they overlap the mark only in the four-byte form, above the
      layout limit. */
  method Lead(ghost ch: Codepoint, first: Byte, rest: Codepoint, ghost len: nat) returns (b: Byte)
    requires len == ChSize(ch) && rest == Rest(ch, len - 1)
    requires first == if len == 1 then 0 else if len == 2 then 0xc0 else if len == 3 then 0xe0 else 0xf0
    ensures b == LeadFrom(rest, len)
  {
    RestQuotients(ch);
    b := if first == 0xf0 then first + rest % 16 else first + rest;
  }

  /** utf8_encode: fills the continuation bytes from the last one down, six bits at a time. */
  method EncodeAt(str: array<Byte>, off: nat, ch: Codepoint) returns (len: nat)
    requires off + ChSize(ch) <= str.Length
    modifies str
    ensures len == ChSize(ch)
    ensures str[off..off + len] == Encode(ch)
    ensures forall i | 0 <= i < str.Length && !(off <= i < off + len) :: str[i] == old(str[i])
  {
    var first: Byte;
    first, len := Classify(ch);
    var rest: Codepoint := ch;
    var i := len - 1;
    while i > 0
      invariant 0 <= i < len == ChSize(ch)
      invariant rest == Rest(ch, len - 1 - i)
      invariant str[off + i + 1..off + len] == Tails(ch, len - 1 - i)
      invariant forall j | 0 <= j < str.Length && !(off <= j < off + len) :: str[j] == old(str[j])
    {
      ghost var done := str[off + i + 1..off + len];
      str[off + i] := 0x80 + rest % 64;
      assert str[off + i..off + len] == [str[off + i]] + done;
      rest := rest / 64;
      i := i - 1;
    }
    ghost var done := str[off + 1..off + len];
    str[off] := Lead(ch, first, rest, len);
    assert str[off..off + len] == [str[off]] + done;
  }

  /** Joins the payload bits of one encoded character, as section 3 of RFC 3629 defines decoding. */
  function Decode(s: seq<Byte>): Codepoint {
    if |s| == 1 then s[0]
    else if |s| == 2 then 64 * (s[0] % 32) as int + s[1] % 64
    else if |s| == 3 then 64 * (64 * (s[0] % 16) as int + s[1] % 64) + s[2] % 64
    else if |s| == 4 then 64 * (64 * (64 * (s[0] % 8) as int + s[1] % 64) + s[2] % 64) + s[3] % 64
    else 0
  }

  /** The encoding decodes back exactly for the values that fit the layout; beyond them the lead byte has
      lost bits and the round trip always fails. */
  lemma DecodeEncode(ch: Codepoint)
    ensures Decode(Encode(ch)) == ch <==> ch < LAYOUT_LIMIT
  {
    EncodeFollowsRfc3629(ch);
    Digits(ch);
    if 0x80 <= ch < 0x800 {
      DecodeRow2(ch / 64, ch % 64);
    } else if 0x800 <= ch < 0x1_0000 {
      DecodeRow3(ch / 4096, ch / 64 % 64, ch % 64);
    } else if 0x1_0000 <= ch {
      DecodeRow4(ch / 26_2144, ch / 4096 % 64, ch / 64 % 64, ch % 64);
      ThreeBits(ch / 26_2144);
    }
  }

  lemma DecodeRow2(a: nat, b: nat)
    requires a < 32 && b < 64
    ensures Decode(Row2(a, b)) == 64 * a + b
  {
    Mod64(b);
    assert (0xC0 + a) % 32 == a;
  }

  lemma DecodeRow3(a: nat, b: nat, c: nat)
    requires a < 16 && b < 64 && c < 64
    ensures Decode(Row3(a, b, c)) == 64 * (64 * a + b) + c
  {
    Mod64(b);
    Mod64(c);
    assert (0xE0 + a) % 16 == a;
  }

  lemma DecodeRow4(a: nat, b: nat, c: nat, d: nat)
    requires b < 64 && c < 64 && d < 64
    ensures Decode(Row4(a, b, c, d)) == 64 * (64 * (64 * (a % 8) + b) + c) + d
  {
    Mod64(b);
    Mod64(c);
    Mod64(d);
    LeadKeepsThreeBits(a);
  }

  lemma Mod64(b: nat)
    requires b < 64
    ensures (0x80 + b) % 64 == b
  {}

  lemma LeadKeepsThreeBits(a: nat)
    ensures (0xF0 + a % 16) % 8 == a % 8
  {}

  lemma ThreeBits(a: nat)
    ensures a % 8 == a <==> a < 8
  {}

  /** The six-bit digits of a code point. */
  lemma Digits(ch: Codepoint)
    ensures ch == 64 * (64 * (ch / 4096) + ch / 64 % 64) + ch % 64
    ensures ch == 64 * (64 * (64 * (ch / 26_2144) + ch / 4096 % 64) + ch / 64 % 64) + ch % 64
  {
    assert ch / 4096 == ch / 64 / 64;
    assert ch / 26_2144 == ch / 4096 / 64;
  }

  // ----- utf8_size -----

  datatype SizeRow = SizeRow(mask: Byte, result: Byte, octets: int)

  const SIZES: seq<SizeRow> := [
    SizeRow(0x80, 0x00, 1), SizeRow(0xE0, 0xC0, 2), SizeRow(0xF0, 0xE0, 3), SizeRow(0xF8, 0xF0, 4),
    SizeRow(0xFC, 0xF8, 5), SizeRow(0xFE, 0xF8, 6), SizeRow(0x80, 0x80, -1)
  ]

  /** `c & mask` for a mask of leading ones. */
  function HighBits(c: Byte, mask: Byte): Byte
    requires mask >= 0x80
  {
    c - c % (256 - mask)
  }

  lemma HighBitsReading(b: bv8)
    ensures b & 0x80 == b - b % 128 && b & 0xe0 == b - b % 32 && b & 0xf0 == b - b % 16
    ensures b & 0xf8 == b - b % 8 && b & 0xfc == b - b % 4 && b & 0xfe == b - b % 2
  {}

  predicate RowMatches(c: Byte, i: nat)
    requires i < |SIZES|
  {
    HighBits(c, SIZES[i].mask) == SIZES[i].result
  }

  /** The size that a lead byte announces, by the ranges that the mask table cuts the bytes into. */
  function AnnouncedSize(lead: Byte): int {
    if lead < 0x80 then 1
    else if 0xC0 <= lead < 0xE0 then 2
    else if 0xE0 <= lead < 0xF0 then 3
    else if 0xF0 <= lead < 0xF8 then 4
    else if 0xF8 <= lead < 0xFC then 5
    else -1
  }

  /** utf8_size: the first row of the table whose mask matches decides. The six-octet row can never be
      reached, because its range lies inside the row before it. */
  method Size(s: seq<Byte>) returns (octets: int)
    requires |s| > 0
    ensures octets == AnnouncedSize(s[0])
  {
    var c := s[0];
    for i := 0 to |SIZES|
      invariant forall j | 0 <= j < i :: !RowMatches(c, j)
    {
      if HighBits(c, SIZES[i].mask) == SIZES[i].result {
        EarlierRows(c, i);
        return SIZES[i].octets;
      }
    }
    EarlierRows(c, |SIZES|);
    return -1;
  }

  /** What is known of a byte that no row before `i` has matched. */
  lemma EarlierRows(c: Byte, i: nat)
    requires i <= |SIZES| && forall j | 0 <= j < i :: !RowMatches(c, j)
    ensures i > 0 ==> c >= 0x80
    ensures i > 1 ==> !(0xC0 <= c < 0xE0)
    ensures i > 2 ==> !(0xE0 <= c < 0xF0)
    ensures i > 3 ==> !(0xF0 <= c < 0xF8)
    ensures i > 4 ==> !(0xF8 <= c < 0xFC)
    ensures i <= 6
  {
    assert i > 0 ==> !RowMatches(c, 0);
    assert i > 1 ==> !RowMatches(c, 1);
    assert i > 2 ==> !RowMatches(c, 2);
    assert i > 3 ==> !RowMatches(c, 3);
    assert i > 4 ==> !RowMatches(c, 4);
    assert i > 6 ==> !RowMatches(c, 6);
  }

  lemma FourthBit(q: nat)
    ensures q % 16 < 8 <==> q / 8 % 2 == 0
  {}

  /** The size announced by the lead byte is the size written, exactly when bit 21 is clear; in
      particular below the layout limit. */
  lemma SizeAgrees(ch: Codepoint)
    ensures AnnouncedSize(Encode(ch)[0]) == ChSize(ch) <==> ch / LAYOUT_LIMIT % 2 == 0
    ensures ch < LAYOUT_LIMIT ==> AnnouncedSize(Encode(ch)[0]) == ChSize(ch)
  {
    EncodeFollowsRfc3629(ch);
    if ch >= 0x1_0000 {
      assert ch / LAYOUT_LIMIT == ch / 26_2144 / 8;
      FourthBit(ch / 26_2144);
    }
  }

  // ----- strings of code points -----

  ghost predicate NoZero(cps: seq<Codepoint>) {
    forall i | 0 <= i < |cps| :: cps[i] != 0
  }

  /** Concatenated encodings, built from the right end like a stack. */
  function EncodeAll(cps: seq<Codepoint>): (bytes: seq<Byte>)
    ensures cps == [] ==> bytes == []
  {
    if cps == [] then [] else EncodeAll(cps[..|cps| - 1]) + Encode(cps[|cps| - 1])
  }

  lemma EncodeAllPush(cps: seq<Codepoint>, ch: Codepoint)
    ensures EncodeAll(cps + [ch]) == EncodeAll(cps) + Encode(ch)
  {
    assert (cps + [ch])[..|cps|] == cps;
  }

  lemma {:induction false} EncodeAllNoNul(cps: seq<Codepoint>)
    requires NoZero(cps)
    ensures NoNul(EncodeAll(cps))
  {
    if cps != [] {
      EncodeAllNoNul(cps[..|cps| - 1]);
      EncodeShape(cps[|cps| - 1]);
    }
  }

  /** Number of bytes back to the last lead byte; 0 when there is none. */
  function LastSize(s: seq<Byte>): (n: nat)
    ensures n <= |s|
  {
    if s == [] then 0
    else if !IsContinuation(s[|s| - 1]) then 1
    else
      var n := LastSize(s[..|s| - 1]);
      if n == 0 then 0 else n + 1
  }

  lemma {:induction false} LastSizeSkips(s: seq<Byte>, t: seq<Byte>)
    requires s != [] && !IsContinuation(s[|s| - 1])
    requires forall i | 0 <= i < |t| :: IsContinuation(t[i])
    ensures LastSize(s + t) == 1 + |t|
  {
    if t == [] {
      assert s + t == s;
    } else {
      var u := t[..|t| - 1];
      LastSizeSkips(s, u);
      assert (s + t)[..|s + t| - 1] == s + u;
      assert (s + t)[|s + t| - 1] == t[|t| - 1];
    }
  }

  lemma LastSizeOfAppended(before: seq<Byte>, last: seq<Byte>)
    requires last != [] && !IsContinuation(last[0])
    requires forall i | 0 < i < |last| :: IsContinuation(last[i])
    ensures LastSize(before + last) == |last|
  {
    LastSizeSkips(before + last[..1], last[1..]);
    assert before + last == before + last[..1] + last[1..];
  }

  /** The backwards scan over a non-empty string of encodings stops at the start of the last one. */
  lemma LastSizeOfEncoded(cps: seq<Codepoint>)
    requires cps != []
    ensures LastSize(EncodeAll(cps)) == ChSize(cps[|cps| - 1])
  {
    EncodeShape(cps[|cps| - 1]);
    LastSizeOfAppended(EncodeAll(cps[..|cps| - 1]), Encode(cps[|cps| - 1]));
  }

  /** Dropping what the backwards scan measures undoes an append, for every 32-bit value. */
  lemma DropLastUndoesAppend(cps: seq<Codepoint>, ch: Codepoint)
    ensures var s := EncodeAll(cps + [ch]); s[..|s| - LastSize(s)] == EncodeAll(cps)
  {
    LastSizeOfEncoded(cps + [ch]);
    EncodeAllPush(cps, ch);
  }

  /** Splits off the last character by the backwards scan and decodes it, until nothing is left. */
  function DecodeAll(s: seq<Byte>): (cps: seq<Codepoint>)
    decreases |s|
  {
    var n := LastSize(s);
    if n == 0 then [] else DecodeAll(s[..|s| - n]) + [Decode(s[|s| - n..])]
  }

  ghost predicate InLayout(cps: seq<Codepoint>) {
    forall i | 0 <= i < |cps| :: cps[i] < LAYOUT_LIMIT
  }

  /** Strings of code points within the layout are recovered exactly, so their encodings are unique. */
  lemma {:induction false} DecodeAllEncodeAll(cps: seq<Codepoint>)
    requires InLayout(cps)
    ensures DecodeAll(EncodeAll(cps)) == cps
  {
    if cps != [] {
      var init, ch := cps[..|cps| - 1], cps[|cps| - 1];
      DecodeAllEncodeAll(init);
      LastSizeOfEncoded(cps);
      DecodeEncode(ch);
      SplitLast(cps);
    }
  }

  lemma SplitLast(cps: seq<Codepoint>)
    requires cps != []
    ensures var s, ch := EncodeAll(cps), cps[|cps| - 1];
            && |s| >= ChSize(ch)
            && s[..|s| - ChSize(ch)] == EncodeAll(cps[..|cps| - 1]) && s[|s| - ChSize(ch)..] == Encode(ch)
  {}

  lemma EncodeAllInjective(a: seq<Codepoint>, b: seq<Codepoint>)
    requires InLayout(a) && InLayout(b)
    requires EncodeAll(a) == EncodeAll(b)
    ensures a == b
  {
    DecodeAllEncodeAll(a);
    DecodeAllEncodeAll(b);
  }
}
