/** Hexadecimal text as Go's encoding/hex and strconv read and write it. */
module Hex {
  import opened Bytes
  import opened Sequences
  import opened Wrappers

  predicate IsDigit(c: char) {
    '0' <= c <= '9' || 'a' <= c <= 'f' || 'A' <= c <= 'F'
  }

  function DigitValue(c: char): (v: nat)
    requires IsDigit(c)
    ensures v < 16
  {
    if '0' <= c <= '9' then (c - '0') as int
    else if 'a' <= c <= 'f' then (c - 'a') as int + 10
    else (c - 'A') as int + 10
  }

  function Digit(v: nat): (c: char)
    requires v < 16
    ensures IsDigit(c) && DigitValue(c) == v
  {
    if v < 10 then '0' + v as char else 'a' + (v - 10) as char
  }

  predicate IsHex(s: string) {
    |s| % 2 == 0 && forall i :: 0 <= i < |s| ==> IsDigit(s[i])
  }

  function Encode(b: Bytes): (s: string)
    ensures |s| == 2 * |b|
    ensures IsHex(s)
  {
    if b == [] then ""
    else [Digit(b[0] as nat / 16), Digit(b[0] as nat % 16)] + Encode(b[1..])
  }

  /** The bytes decoded before the first malformed pair; Go returns these beside the error. */
  function DecodePrefix(s: string): (b: Bytes)
    ensures 2 * |b| <= |s|
  {
    if |s| < 2 || !IsDigit(s[0]) || !IsDigit(s[1]) then []
    else [(16 * DigitValue(s[0]) + DigitValue(s[1])) as byte] + DecodePrefix(s[2..])
  }

  function Decode(s: string): Option<Bytes> {
    if IsHex(s) then Some(DecodePrefix(s)) else None
  }

  lemma {:induction false} EncodeDecode(b: Bytes)
    ensures Decode(Encode(b)) == Some(b)
  {
    if b != [] {
      EncodeDecode(b[1..]);
      assert Encode(b)[2..] == Encode(b[1..]);
      assert [b[0]] + b[1..] == b;
    }
  }

  lemma {:induction false} DecodeLength(s: string)
    requires IsHex(s)
    ensures |DecodePrefix(s)| == |s| / 2
  {
    if s != [] {
      DecodeLength(s[2..]);
    }
  }

  lemma DecodePair(a: char, b: char, rest: string)
    requires IsDigit(a) && IsDigit(b)
    ensures DecodePrefix([a, b] + rest) == [(16 * DigitValue(a) + DigitValue(b)) as byte] + DecodePrefix(rest)
  {
    assert ([a, b] + rest)[2..] == rest;
  }

  lemma FirstPair(s: string, t: string)
    requires |s| >= 2
    ensures s == [s[0], s[1]] + s[2..] && s + t == [s[0], s[1]] + (s[2..] + t)
  {
  }

  lemma {:induction false} DecodeAppend(s: string, t: string)
    requires IsHex(s)
    ensures DecodePrefix(s + t) == DecodePrefix(s) + DecodePrefix(t)
    ensures IsHex(s + t) == IsHex(t)
  {
    HexAppend(s, t);
    if s == [] {
      assert s + t == t;
    } else {
      var rest, first := s[2..], [(16 * DigitValue(s[0]) + DigitValue(s[1])) as byte];
      DecodeAppend(rest, t);
      FirstPair(s, t);
      DecodePair(s[0], s[1], rest);
      DecodePair(s[0], s[1], rest + t);
      Assoc(first, DecodePrefix(rest), DecodePrefix(t));
    }
  }

  lemma HexAppend(s: string, t: string)
    requires IsHex(s)
    ensures IsHex(s + t) == IsHex(t)
  {
    if IsHex(s + t) {
      assert forall i :: 0 <= i < |t| ==> t[i] == (s + t)[|s| + i];
    }
  }

  /** hexReverseBytes: a malformed tail is dropped, as the decoder's error is ignored. */
  function ReverseHex(s: string): (r: string)
    ensures IsHex(r)
  {
    Encode(Reverse(DecodePrefix(s)))
  }

  method HexReverseBytes(s: string) returns (r: string)
    ensures r == ReverseHex(s)
  {
    var d := DecodePrefix(s);
    var b := new byte[|d|](i requires 0 <= i < |d| => d[i]);
    var i, j := 0, b.Length - 1;
    while i < j
      invariant 0 <= i <= j + 1 == b.Length - i
      invariant forall k :: 0 <= k < i || j < k < |d| ==> b[k] == d[|d| - 1 - k]
      invariant forall k :: i <= k <= j ==> b[k] == d[k]
    {
      b[i], b[j] := b[j], b[i];
      i, j := i + 1, j - 1;
    }
    assert b[..] == Reverse(d);
    r := Encode(b[..]);
  }

  lemma ReverseHexDecodes(s: string)
    ensures Decode(ReverseHex(s)) == Some(Reverse(DecodePrefix(s)))
  {
    EncodeDecode(Reverse(DecodePrefix(s)));
  }

  // ----- strconv.ParseUint(s, 16, 32) -----

  /** The value Go returns and whether the error is nil; the value matters where the error is dropped. */
  datatype Parsed = Parsed(value: uint32, ok: bool)

  function ParseDigits(s: string, n: uint32): Parsed {
    if s == "" then Parsed(n, true)
    else if !IsDigit(s[0]) then Parsed(0, false)
    else if 16 * n + DigitValue(s[0]) > 0xffff_ffff then Parsed(0xffff_ffff, false)
    else ParseDigits(s[1..], 16 * n + DigitValue(s[0]))
  }

  function ParseUint32(s: string): Parsed {
    if s == "" then Parsed(0, false) else ParseDigits(s, 0)
  }

  lemma ParsePair(s: string, n: uint32)
    requires |s| >= 2 && IsDigit(s[0]) && IsDigit(s[1])
    requires 256 * n + 16 * DigitValue(s[0]) + DigitValue(s[1]) < 0x1_0000_0000
    ensures ParseDigits(s, n) == ParseDigits(s[2..], 256 * n + 16 * DigitValue(s[0]) + DigitValue(s[1]))
  {
  }

  function PairValue(s: string, i: nat): (d: byte)
    requires i + 1 < |s| && IsDigit(s[i]) && IsDigit(s[i + 1])
  {
    (16 * DigitValue(s[i]) + DigitValue(s[i + 1])) as byte
  }

  lemma DecodeEight(s: string)
    requires IsHex(s) && |s| == 8
    ensures DecodePrefix(s) == [PairValue(s, 0), PairValue(s, 2), PairValue(s, 4), PairValue(s, 6)]
  {
    assert s[2..][2..] == s[4..] && s[4..][2..] == s[6..] && s[6..][2..] == [];
    assert DecodePrefix(s[6..]) == [PairValue(s, 6)];
    assert DecodePrefix(s[4..]) == [PairValue(s, 4)] + DecodePrefix(s[6..]);
    assert DecodePrefix(s[2..]) == [PairValue(s, 2)] + DecodePrefix(s[4..]);
  }

  lemma ParseFour(s: string, n: uint32)
    requires IsHex(s) && |s| >= 4 && n < 0x1_0000
    ensures ParseDigits(s, n) == ParseDigits(s[4..], 256 * (256 * n + PairValue(s, 0) as nat) + PairValue(s, 2) as nat)
  {
    ParsePair(s, n);
    ParsePair(s[2..], 256 * n + PairValue(s, 0) as nat);
    assert s[2..][2..] == s[4..];
  }

  lemma ParseEight(s: string)
    requires IsHex(s) && |s| == 8
    ensures var a, b, c, d :=
        PairValue(s, 0) as nat, PairValue(s, 2) as nat, PairValue(s, 4) as nat, PairValue(s, 6) as nat;
      ParseUint32(s) == Parsed(256 * (256 * (256 * a + b) + c) + d, true)
  {
    ParseFour(s, 0);
    ParseFour(s[4..], 256 * PairValue(s, 0) as nat + PairValue(s, 2) as nat);
    assert s[4..][4..] == [];
  }

  lemma FourBytes(a: byte, b: byte, c: byte, d: byte)
    ensures var v := 256 * (256 * (256 * a as nat + b as nat) + c as nat) + d as nat;
      LittleEndian(v, 4) == [d, c, b, a]
  {
    var ab := 256 * a as nat + b as nat;
    var abc := 256 * ab + c as nat;
    assert LittleEndian(a as nat, 1) == [a];
    assert LittleEndian(ab, 2) == [b] + LittleEndian(a as nat, 1);
    assert LittleEndian(abc, 3) == [c] + LittleEndian(ab, 2);
    assert LittleEndian(256 * abc + d as nat, 4) == [d] + LittleEndian(abc, 3);
  }

  /** Parsing eight digits and writing the integer little-endian is the same as decoding and reversing. */
  lemma ParseMatchesDecode(s: string)
    requires IsHex(s) && |s| == 8
    ensures ParseUint32(s).ok
    ensures LittleEndian(ParseUint32(s).value, 4) == Reverse(DecodePrefix(s))
  {
    ParseEight(s);
    DecodeEight(s);
    FourBytes(PairValue(s, 0), PairValue(s, 2), PairValue(s, 4), PairValue(s, 6));
  }

  lemma {:induction false} ParsedIsHexDigits(s: string, n: uint32)
    requires ParseDigits(s, n).ok
    ensures forall i :: 0 <= i < |s| ==> IsDigit(s[i])
  {
    if s != "" {
      ParsedIsHexDigits(s[1..], 16 * n + DigitValue(s[0]));
      assert forall i :: 1 <= i < |s| ==> s[i] == s[1..][i - 1];
    }
  }

  // ----- reverseByteOrder -----

  /** Reverses the byte pairs of one chunk. */
  function ReversePairs(s: string): (r: string)
    ensures |r| == |s|
  {
    if |s| < 2 then s else ReversePairs(s[2..]) + s[..2]
  }

  /** Reverses the byte order inside every 8-digit word; odd-length text is returned untouched. */
  function SwapWords(s: string): (r: string)
    ensures |r| == |s|
  {
    if |s| % 2 != 0 then s
    else if |s| <= 8 then ReversePairs(s)
    else ReversePairs(s[..8]) + SwapWords(s[8..])
  }

  lemma {:induction false} ReversePairsAppend(s: string, t: string)
    requires |s| % 2 == 0
    ensures ReversePairs(s + t) == ReversePairs(t) + ReversePairs(s)
  {
    if s == [] {
      assert s + t == t;
    } else {
      calc {
        ReversePairs(s + t);
        { assert (s + t)[2..] == s[2..] + t && (s + t)[..2] == s[..2]; }
        ReversePairs(s[2..] + t) + s[..2];
        { ReversePairsAppend(s[2..], t); }
        ReversePairs(t) + ReversePairs(s[2..]) + s[..2];
        ReversePairs(t) + ReversePairs(s);
      }
    }
  }

  lemma {:induction false} ReversePairsInvolution(s: string)
    requires |s| % 2 == 0
    ensures ReversePairs(ReversePairs(s)) == s
  {
    if s != "" {
      ReversePairsInvolution(s[2..]);
      ReversePairsAppend(ReversePairs(s[2..]), s[..2]);
      assert s[..2][2..] == "" && s[..2][..2] == s[..2];
      assert ReversePairs(s[..2]) == s[..2];
      assert s[..2] + s[2..] == s;
    }
  }

  lemma {:induction false} SwapWordsInvolution(s: string)
    ensures SwapWords(SwapWords(s)) == s
  {
    if |s| % 2 == 0 {
      if |s| <= 8 {
        ReversePairsInvolution(s);
      } else {
        var r := SwapWords(s);
        assert r[..8] == ReversePairs(s[..8]) && r[8..] == SwapWords(s[8..]);
        ReversePairsInvolution(s[..8]);
        SwapWordsInvolution(s[8..]);
        assert s[..8] + s[8..] == s;
      }
    }
  }

  /** The state of the in-place swap: everything outside [lo, hi) already mirrors `was`. */
  ghost predicate Mirrored(was: string, cur: string, lo: nat, hi: nat) {
    && lo % 2 == 0 && lo <= hi && hi == |was| - lo && |cur| == |was|
    && cur[..lo] == ReversePairs(was[hi..])
    && cur[lo..hi] == was[lo..hi]
    && cur[hi..] == ReversePairs(was[..lo])
  }

  function ExchangePairs(s: string, j: nat, k: nat): string
    requires j + 2 <= k && k + 2 <= |s|
  {
    s[j := s[k]][j + 1 := s[k + 1]][k := s[j]][k + 1 := s[j + 1]]
  }

  /** One chunk, its byte pairs swapped in place from both ends. */
  method SwapChunk(chunk: array<char>)
    requires chunk.Length % 2 == 0
    modifies chunk
    ensures chunk[..] == ReversePairs(old(chunk[..]))
  {
    ghost var was := chunk[..];
    var j, k := 0, chunk.Length - 2;
    while j < k
      invariant 0 <= j && 0 <= k + 2 <= chunk.Length
      invariant Mirrored(was, chunk[..], j, k + 2)
    {
      ghost var cur := chunk[..];
      MirroredStep(was, cur, j, k);
      chunk[j], chunk[j + 1], chunk[k], chunk[k + 1] := chunk[k], chunk[k + 1], chunk[j], chunk[j + 1];
      assert chunk[..] == ExchangePairs(cur, j, k);
      j, k := j + 2, k - 2;
    }
    MirroredDone(was, chunk[..], j, k + 2);
  }

  lemma SubSlice(s: string, t: string, lo: nat, hi: nat, i: nat, j: nat)
    requires lo <= i <= j <= hi <= |s| == |t| && s[lo..hi] == t[lo..hi]
    ensures s[i..j] == t[i..j]
  {
    assert forall k :: i <= k < j ==> s[k] == s[lo..hi][k - lo] == t[k];
  }

  lemma OneMorePair(was: string, j: nat, k: nat)
    requires j % 2 == 0 && |was| % 2 == 0 && j + 2 <= |was| && k + 2 <= |was|
    ensures ReversePairs(was[k..]) == ReversePairs(was[k + 2..]) + was[k..k + 2]
    ensures ReversePairs(was[..j + 2]) == was[j..j + 2] + ReversePairs(was[..j])
  {
    assert was[k..][2..] == was[k + 2..] && was[k..][..2] == was[k..k + 2];
    assert was[..j + 2] == was[..j] + was[j..j + 2];
    ReversePairsAppend(was[..j], was[j..j + 2]);
    OnePair(was[j..j + 2]);
  }

  lemma MirroredStep(was: string, cur: string, j: nat, k: nat)
    requires |was| % 2 == 0 && j < k && Mirrored(was, cur, j, k + 2)
    ensures j + 2 <= k && Mirrored(was, ExchangePairs(cur, j, k), j + 2, k)
  {
    SubSlice(cur, was, j, k + 2, j, j + 2);
    SubSlice(cur, was, j, k + 2, j + 2, k);
    SubSlice(cur, was, j, k + 2, k, k + 2);
    OneMorePair(was, j, k);
    ExchangedParts(cur, j, k);
  }

  lemma ExchangedParts(s: string, j: nat, k: nat)
    requires j + 2 <= k && k + 2 <= |s|
    ensures var next := ExchangePairs(s, j, k);
      && next[..j + 2] == s[..j] + s[k..k + 2]
      && next[j + 2..k] == s[j + 2..k]
      && next[k..] == s[j..j + 2] + s[k + 2..]
  {
  }

  lemma ThreeParts(s: string, lo: nat, hi: nat)
    requires lo <= hi <= |s|
    ensures s == s[..lo] + s[lo..hi] + s[hi..]
    ensures s == s[..lo] + (s[lo..hi] + s[hi..])
  {
  }

  lemma MirroredDone(was: string, cur: string, lo: nat, hi: nat)
    requires Mirrored(was, cur, lo, hi) && hi <= lo + 2 && |was| % 2 == 0
    ensures cur == ReversePairs(was)
  {
    ThreeParts(cur, lo, hi);
    ThreeParts(was, lo, hi);
    NoneOrOnePair(was, lo, hi);
    ReversePairsMiddle(was[..lo], was[lo..hi], was[hi..]);
  }

  lemma NoneOrOnePair(s: string, lo: nat, hi: nat)
    requires lo % 2 == 0 && lo <= hi <= lo + 2 && hi == |s| - lo && |s| % 2 == 0
    ensures |s[..lo]| % 2 == 0 && (s[lo..hi] == [] || |s[lo..hi]| == 2)
  {
    var half := |s| / 2;
    assert hi - lo == 2 * (half - lo);
    assert |s[lo..hi]| == hi - lo && |s[..lo]| == lo;
  }

  lemma OnePair(s: string)
    requires s == [] || |s| == 2
    ensures ReversePairs(s) == s
  {
  }

  lemma ReversePairsMiddle(a: string, mid: string, c: string)
    requires |a| % 2 == 0 && (mid == [] || |mid| == 2)
    ensures ReversePairs(a + (mid + c)) == ReversePairs(c) + mid + ReversePairs(a)
  {
    ReversePairsAppend(a, mid + c);
    ReversePairsAppend(mid, c);
    OnePair(mid);
  }

  /** The words before `i` are swapped into `r`; the last word may be short. */
  predicate SwappedUpTo(r: string, s: string, i: nat) {
    i % 2 == 0 && if i <= |s| then r + SwapWords(s[i..]) == SwapWords(s) else r == SwapWords(s)
  }

  method ReverseByteOrder(hexStr: string) returns (r: string)
    ensures r == SwapWords(hexStr)
  {
    if |hexStr| % 2 != 0 {
      return hexStr;
    }
    r := "";
    var i := 0;
    while i < |hexStr|
      invariant 0 <= i && SwappedUpTo(r, hexStr, i)
    {
      var end := if i + 8 > |hexStr| then |hexStr| else i + 8;
      EvenWord(hexStr, i, end);
      var chunk := Swapped(hexStr[i..end]);
      SwapWordsStep(r, hexStr, i, end);
      r := r + chunk;
      i := i + 8;
    }
  }

  lemma EvenWord(s: string, i: nat, end: nat)
    requires |s| % 2 == 0 && i % 2 == 0 && i < end == (if i + 8 > |s| then |s| else i + 8)
    ensures |s[i..end]| % 2 == 0
  {
  }

  /** One word copied out, reversed in place and read back. */
  method Swapped(word: string) returns (r: string)
    requires |word| % 2 == 0
    ensures r == ReversePairs(word)
  {
    var chunk := new char[|word|](k requires 0 <= k < |word| => word[k]);
    assert chunk[..] == word;
    SwapChunk(chunk);
    r := chunk[..];
  }

  lemma SwapWordsStep(r: string, s: string, i: nat, end: nat)
    requires |s| % 2 == 0 && i < end == (if i + 8 > |s| then |s| else i + 8)
    requires SwappedUpTo(r, s, i)
    ensures SwappedUpTo(r + ReversePairs(s[i..end]), s, i + 8)
  {
    var w := s[i..];
    FirstWord(w);
    if |w| > 8 {
      assert w[..8] == s[i..end] && w[8..] == s[end..];
      Assoc(r, ReversePairs(s[i..end]), SwapWords(s[end..]));
    } else {
      assert s[i..end] == w;
      assert r + ReversePairs(w) + [] == r + ReversePairs(w);
      assert |w| == 8 ==> s[i + 8..] == w[8..];
    }
  }

  lemma FirstWord(w: string)
    requires w != [] && |w| % 2 == 0
    ensures SwapWords(w) == if |w| <= 8 then ReversePairs(w) else ReversePairs(w[..8]) + SwapWords(w[8..])
    ensures |w| == 8 ==> SwapWords(w[8..]) == []
  {
  }
}
