/** Single hexadecimal digits and the two halves of a byte. */
module Nibbles {

  /** The value of a hexadecimal digit of either case, or -1. */
  function HexVal(c: char): (v: int)
    ensures -1 <= v < 16
  {
    if '0' <= c <= '9' then c as int - '0' as int
    else if 'a' <= c <= 'f' then c as int - 'a' as int + 10
    else if 'A' <= c <= 'F' then c as int - 'A' as int + 10
    else -1
  }

  /** The digit that printing in base 16 uses for `n`. */
  function Digit(n: int, upper: bool): char
    requires 0 <= n < 16
  {
    if n < 10 then '0' + n as char else if upper then 'A' + (n - 10) as char else 'a' + (n - 10) as char
  }

  function LowerChar(c: char): char {
    if 'A' <= c <= 'Z' then c - 'A' + 'a' else c
  }

  function Join(hi: int, lo: int): bv8
    requires 0 <= hi < 16 && 0 <= lo < 16
  {
    (hi as bv8 << 4) | lo as bv8
  }

  function High(b: bv8): (n: int)
    ensures 0 <= n < 16
  {
    (b >> 4) as int
  }

  function Low(b: bv8): (n: int)
    ensures 0 <= n < 16
  {
    (b & 0xF) as int
  }

  lemma JoinSplit(b: bv8)
    ensures Join(High(b), Low(b)) == b
  {
  }

  lemma SplitJoin(hi: int, lo: int)
    requires 0 <= hi < 16 && 0 <= lo < 16
    ensures High(Join(hi, lo)) == hi && Low(Join(hi, lo)) == lo
  {
  }

  const LOWER_DIGITS := "0123456789abcdef"
  const UPPER_DIGITS := "0123456789ABCDEF"

  /** The digits of base 16, in order. */
  lemma DigitExact(n: int)
    requires 0 <= n < 16
    ensures Digit(n, false) == LOWER_DIGITS[n] && Digit(n, true) == UPPER_DIGITS[n]
  {
  }

  /** The values of the digits of either case, and of nothing else. */
  lemma HexValExact(c: char, n: int)
    requires 0 <= n < 16
    ensures HexVal(c) == n <==> c == LOWER_DIGITS[n] || c == UPPER_DIGITS[n]
  {
  }

  /** The high half of a byte counts sixteens. */
  lemma HalvesExact(b: bv8)
    ensures b as int == 16 * High(b) + Low(b)
  {
  }

  lemma DigitVal(n: int, upper: bool)
    requires 0 <= n < 16
    ensures HexVal(Digit(n, upper)) == n
  {
  }

  lemma ValDigit(c: char)
    requires HexVal(c) >= 0
    ensures Digit(HexVal(c), false) == LowerChar(c)
  {
  }
}

/** The client's hexadecimal printers and its two parsers. */
module Hex {
  import opened Bytes
  import opened Nibbles

  // std::string cannot be longer than this
  const MAX_STRING := 0x7FFF_FFFF_FFFF_FFFF

  /** An even number of hexadecimal digits. */
  predicate IsHex(s: string) {
    |s| % 2 == 0 && forall i :: 0 <= i < |s| ==> HexVal(s[i]) >= 0
  }

  predicate GoodPair(s: string, k: nat)
    requires 2 * k + 1 < |s|
  {
    HexVal(s[2 * k]) >= 0 && HexVal(s[2 * k + 1]) >= 0
  }

  function ByteAt(s: string, k: nat): byte
    requires 2 * k + 1 < |s| && GoodPair(s, k)
  {
    Join(HexVal(s[2 * k]), HexVal(s[2 * k + 1]))
  }

  /** The bytes written down by the leading pairs of digits, up to the first pair that is not one. */
  function Pairs(s: string): (r: seq<byte>)
    ensures 2 * |r| <= |s|
  {
    if |s| < 2 || !GoodPair(s, 0) then [] else [ByteAt(s, 0)] + Pairs(s[2..])
  }

  function ToHex(v: seq<byte>, upper: bool): (s: string)
    ensures |s| == 2 * |v|
  {
    if v == [] then "" else [Digit(High(v[0]), upper), Digit(Low(v[0]), upper)] + ToHex(v[1..], upper)
  }

  function Lower(s: string): string {
    seq(|s|, i requires 0 <= i < |s| => LowerChar(s[i]))
  }

  /** A length cast to int and back to size_t matches a string only if it is not negative. */
  lemma SizeMatchesExact(length: nat, n: int)
    requires length <= MAX_STRING && -0x8000_0000 <= n < 0x8000_0000
    ensures length == 2 * (n % SIZE) % SIZE <==> length == 2 * n
  {
  }

  /** The bytes of pairs read one after the other, as far as the loops below got. */
  predicate ReadPairs(s: string, r: seq<byte>) {
    2 * |r| <= |s| && forall k :: 0 <= k < |r| ==> GoodPair(s, k) && r[k] == ByteAt(s, k)
  }

  lemma ReadPairsGrow(s: string, r: seq<byte>)
    requires ReadPairs(s, r) && 2 * |r| + 1 < |s| && GoodPair(s, |r|)
    ensures ReadPairs(s, r + [ByteAt(s, |r|)])
  {
  }

  /** Reading that got stuck at a bad pair or at the end has read all leading pairs. */
  lemma ReadPairsStop(s: string, r: seq<byte>)
    requires ReadPairs(s, r)
    requires 2 * |r| + 1 < |s| ==> !GoodPair(s, |r|)
    ensures r == Pairs(s)
  {
    PairsStop(s);
    if |r| < |Pairs(s)| {
      PairsAt(s, |r|);
    }
    assert forall k | 0 <= k < |r| :: GoodPair(s, k);
    forall k | 0 <= k < |r| && k < |Pairs(s)|
      ensures r[k] == Pairs(s)[k]
    {
      PairsAt(s, k);
    }
  }

  /** A buffer whose first bytes are all that could be read. */
  lemma ParsedInBuffer(s: string, before: seq<byte>, after: seq<byte>, n: nat)
    requires n <= |before| == |after| && ReadPairs(s, after[..n]) && after[n..] == before[n..]
    requires 2 * n + 1 < |s| ==> !GoodPair(s, n)
    ensures |Pairs(s)| == n && after == Overlay(before, Pairs(s))
  {
    ReadPairsStop(s, after[..n]);
    assert after == after[..n] + after[n..];
  }

  // ---------- The loops ----------

  /** The parser into a fixed buffer. It may have overwritten a part of it before it fails. */
  method HexToBytes(hex: string, out: array<byte>, outlen: nat) returns (ok: bool)
    requires |hex| == 2 * outlen % SIZE ==> |hex| == 2 * outlen && outlen <= out.Length
    modifies out
    ensures ok <==> |hex| == 2 * outlen % SIZE && IsHex(hex)
    ensures out[..] == if |hex| == 2 * outlen % SIZE then Overlay(old(out[..]), Pairs(hex)) else old(out[..])
  {
    var need := 2 * outlen % SIZE;
    if |hex| != need {
      return false;
    }
    PairsCompleteExact(hex);
    for i := 0 to outlen
      invariant ReadPairs(hex, out[..i])
      invariant forall k | i <= k < out.Length :: out[k] == old(out[k])
    {
      var hi := HexVal(hex[2 * i]);
      var lo := HexVal(hex[2 * i + 1]);
      if hi < 0 || lo < 0 {
        ParsedInBuffer(hex, old(out[..]), out[..], i);
        return false;
      }
      ReadPairsGrow(hex, out[..i]);
      out[i] := Join(hi, lo);
      assert out[..i + 1] == out[..i] + [ByteAt(hex, i)];
    }
    ParsedInBuffer(hex, old(out[..]), out[..], outlen);
    return true;
  }

  /** The parser that appends to a vector; `prior` is what the vector held. */
  method HexToBytesVec(hex: string, prior: seq<byte>) returns (ok: bool, out: seq<byte>)
    ensures ok <==> IsHex(hex)
    ensures out == if |hex| % 2 == 0 then Pairs(hex) else prior
  {
    if |hex| % 2 != 0 {
      return false, prior;
    }
    PairsCompleteExact(hex);
    out := [];
    var i := 0;
    while i < |hex|
      invariant i <= |hex| && i == 2 * |out|
      invariant ReadPairs(hex, out)
    {
      var hi := HexVal(hex[i]);
      var lo := HexVal(hex[i + 1]);
      if hi < 0 || lo < 0 {
        ReadPairsStop(hex, out);
        return false, out;
      }
      ReadPairsGrow(hex, out);
      out := out + [Join(hi, lo)];
      i := i + 2;
    }
    ReadPairsStop(hex, out);
    return true, out;
  }

  /** bytes_to_hex prints in lower case, print_hex_str in upper case. */
  method PrintHex(v: seq<byte>, upper: bool) returns (s: string)
    ensures s == ToHex(v, upper)
  {
    s := "";
    for i := 0 to |v|
      invariant ToHex(v, upper) == s + ToHex(v[i..], upper)
    {
      assert v[i..][1..] == v[i + 1..];
      s := s + [Digit(High(v[i]), upper), Digit(Low(v[i]), upper)];
    }
  }

  // ---------- What they guarantee ----------

  /** The leading pairs use up the whole string exactly when it is an even number of hexadecimal digits. */
  lemma {:induction false} PairsCompleteExact(s: string)
    ensures 2 * |Pairs(s)| == |s| <==> IsHex(s)
  {
    if |s| >= 2 && GoodPair(s, 0) {
      PairsCompleteExact(s[2..]);
      assert forall i | 2 <= i < |s| :: s[i] == s[2..][i - 2];
    }
  }

  /** Byte `k` is read off characters 2k and 2k+1, and reading stops only at a bad pair or the end. */
  lemma {:induction false} PairsAt(s: string, k: nat)
    requires k < |Pairs(s)|
    ensures GoodPair(s, k) && Pairs(s)[k] == ByteAt(s, k)
  {
    if k > 0 {
      PairsAt(s[2..], k - 1);
    }
  }

  lemma {:induction false} PairsStop(s: string)
    ensures 2 * |Pairs(s)| + 1 < |s| ==> !GoodPair(s, |Pairs(s)|)
  {
    if |s| >= 2 && GoodPair(s, 0) {
      PairsStop(s[2..]);
    }
  }

  lemma {:induction false} ToHexDigits(v: seq<byte>, upper: bool, k: nat)
    requires k < |v|
    ensures ToHex(v, upper)[2 * k] == Digit(High(v[k]), upper)
    ensures ToHex(v, upper)[2 * k + 1] == Digit(Low(v[k]), upper)
  {
    if k > 0 {
      ToHexDigits(v[1..], upper, k - 1);
    }
  }

  lemma HalvesDivide(b: bv8)
    ensures High(b) == b as int / 16 && Low(b) == b as int % 16
  {
    HalvesExact(b);
  }

  /** Byte `k` is printed as the digit for its sixteens and then the one for its units. */
  lemma ToHexAt(v: seq<byte>, k: nat)
    requires k < |v|
    ensures var hi, lo := v[k] as int / 16, v[k] as int % 16;
      && ToHex(v, false)[2 * k] == LOWER_DIGITS[hi] && ToHex(v, false)[2 * k + 1] == LOWER_DIGITS[lo]
      && ToHex(v, true)[2 * k] == UPPER_DIGITS[hi] && ToHex(v, true)[2 * k + 1] == UPPER_DIGITS[lo]
  {
    HalvesDivide(v[k]);
    ToHexDigits(v, false, k);
    ToHexDigits(v, true, k);
    DigitExact(High(v[k]));
    DigitExact(Low(v[k]));
  }

  /** Byte `k` is read as sixteen times the value of character 2k plus that of character 2k+1. */
  lemma ReadAt(s: string, k: nat)
    requires k < |Pairs(s)|
    ensures HexVal(s[2 * k]) >= 0 && HexVal(s[2 * k + 1]) >= 0
    ensures Pairs(s)[k] as int == 16 * HexVal(s[2 * k]) + HexVal(s[2 * k + 1])
  {
    PairsAt(s, k);
    SplitJoin(HexVal(s[2 * k]), HexVal(s[2 * k + 1]));
    HalvesExact(Pairs(s)[k]);
  }

  /** Printing a byte vector and parsing it again gives it back, in either case. */
  lemma {:induction false} PrintThenParse(v: seq<byte>, upper: bool)
    ensures IsHex(ToHex(v, upper)) && Pairs(ToHex(v, upper)) == v
  {
    var s := ToHex(v, upper);
    if v != [] {
      PrintThenParse(v[1..], upper);
      DigitVal(High(v[0]), upper);
      DigitVal(Low(v[0]), upper);
      JoinSplit(v[0]);
      assert s[2..] == ToHex(v[1..], upper);
    }
    PairsCompleteExact(s);
  }

  lemma DigitsPrinted(c: char, d: char)
    requires HexVal(c) >= 0 && HexVal(d) >= 0
    ensures var b := Join(HexVal(c), HexVal(d));
      Digit(High(b), false) == LowerChar(c) && Digit(Low(b), false) == LowerChar(d)
  {
    SplitJoin(HexVal(c), HexVal(d));
    ValDigit(c);
    ValDigit(d);
  }

  lemma ToHexCons(b: byte, v: seq<byte>, upper: bool)
    ensures ToHex([b] + v, upper) == [Digit(High(b), upper), Digit(Low(b), upper)] + ToHex(v, upper)
  {
    assert ([b] + v)[1..] == v;
  }

  lemma LowerCons(s: string)
    requires |s| >= 2
    ensures Lower(s) == [LowerChar(s[0]), LowerChar(s[1])] + Lower(s[2..])
  {
  }

  /** Parsing a string and printing it again gives the string in lower case. */
  lemma {:induction false} ParseThenPrint(s: string)
    requires IsHex(s)
    ensures ToHex(Pairs(s), false) == Lower(s)
  {
    if s != [] {
      ParseThenPrint(s[2..]);
      DigitsPrinted(s[0], s[1]);
      ToHexCons(ByteAt(s, 0), Pairs(s[2..]), false);
      LowerCons(s);
    }
  }
}
