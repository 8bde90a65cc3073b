/** The text and number conversions the encoder leans on, as Python defines them:
    `str.ljust` / `str.rjust`, `hex(n)[2:]`, `int(s, 2)`, `int(s, 16)` and
    `bytes.fromhex`. Strings are sequences of characters; bytes are integers in [0, 256). */
module HexText {

  datatype Option<+T> = None | Some(value: T)

  type Byte = b: int | 0 <= b < 256

  function Abs(n: int): nat { if n < 0 then -n else n }

  /** 2 to the power n. */
  function Pow2(n: nat): (p: nat)
    ensures p >= 1
  {
    if n == 0 then 1 else 2 * Pow2(n - 1)
  }

  lemma {:induction false} Pow2Monotone(m: nat, n: nat)
    requires m <= n
    ensures Pow2(m) <= Pow2(n)
    decreases n
  {
    if m < n {
      Pow2Monotone(m, n - 1);
    }
  }

  lemma Pow2Nibble(n: nat)
    ensures Pow2(n + 4) == 16 * Pow2(n)
  {
    calc {
      Pow2(n + 4);
      2 * Pow2(n + 3);
      2 * (2 * Pow2(n + 2));
      4 * (2 * Pow2(n + 1));
      8 * (2 * Pow2(n));
    }
  }

  /** The string of n copies of c (Python `c * n`). */
  function Repeat(c: char, n: nat): (s: string)
    ensures |s| == n
    ensures forall i :: 0 <= i < n ==> s[i] == c
  {
    seq(n, _ => c)
  }

  /** Python `s.ljust(n, c)`: s, then copies of c up to length n; s itself when already that long. */
  function LJust(s: string, n: nat, c: char): (r: string)
    ensures |r| == if |s| >= n then |s| else n
    ensures r[..|s|] == s
    ensures forall i :: |s| <= i < |r| ==> r[i] == c
  {
    if |s| >= n then s else s + Repeat(c, n - |s|)
  }

  /** Python `s.rjust(n, c)`: copies of c in front of s up to length n. */
  function RJust(s: string, n: nat, c: char): (r: string)
    ensures |r| == if |s| >= n then |s| else n
    ensures r[|r| - |s|..] == s
    ensures forall i :: 0 <= i < |r| - |s| ==> r[i] == c
  {
    if |s| >= n then s else Repeat(c, n - |s|) + s
  }

  /** Python `s.count(c)`. */
  function Count(s: string, c: char): (n: nat)
    ensures n <= |s|
  {
    if s == [] then 0 else Count(s[..|s| - 1], c) + (if s[|s| - 1] == c then 1 else 0)
  }

  lemma CountAppend(s: string, t: string, c: char)
    ensures Count(s + t, c) == Count(s, c) + Count(t, c)
    decreases |t|
  {
    if t != [] {
      assert (s + t)[..|s + t| - 1] == s + t[..|t| - 1];
      CountAppend(s, t[..|t| - 1], c);
    } else {
      assert s + t == s;
    }
  }

  /** A digit as `hex` prints it: 0-9, then lowercase a-f. */
  predicate IsLowerDigit(c: char) { '0' <= c <= '9' || 'a' <= c <= 'f' }

  function Digit(d: nat): (c: char)
    requires d < 16
    ensures IsLowerDigit(c)
  {
    if d < 10 then ('0' as int + d) as char else ('a' as int + d - 10) as char
  }

  /** The value of one hexadecimal digit, either case; None for any other character. */
  function HexValue(c: char): (v: Option<nat>)
    ensures v.Some? ==> v.value < 16
  {
    if '0' <= c <= '9' then Some(c as int - '0' as int)
    else if 'a' <= c <= 'f' then Some(c as int - 'a' as int + 10)
    else if 'A' <= c <= 'F' then Some(c as int - 'A' as int + 10)
    else None
  }

  predicate IsHexDigit(c: char) { HexValue(c).Some? }

  predicate IsHexString(s: string) { forall i :: 0 <= i < |s| ==> IsHexDigit(s[i]) }

  lemma DigitValue(d: nat)
    requires d < 16
    ensures HexValue(Digit(d)) == Some(d)
  {
  }

  /** Python `hex(n)[2:]`: lowercase base 16, most significant digit first, no leading zero. */
  function LowerHex(n: nat): (s: string)
    ensures |s| >= 1
    ensures forall i :: 0 <= i < |s| ==> IsLowerDigit(s[i])
    ensures n > 0 ==> s[0] != '0'
    ensures n < 16 <==> |s| == 1
    decreases n
  {
    if n < 16 then [Digit(n)] else LowerHex(n / 16) + [Digit(n % 16)]
  }

  lemma LowerDigitsAreHex(s: string)
    requires forall i :: 0 <= i < |s| ==> IsLowerDigit(s[i])
    ensures IsHexString(s)
  {
  }

  /** Python `int(s, 16)` on a string of hexadecimal digits. */
  function HexToNat(s: string): nat
    requires IsHexString(s)
  {
    if s == [] then 0 else 16 * HexToNat(s[..|s| - 1]) + HexValue(s[|s| - 1]).value
  }

  /** Reading back the digits `hex` prints gives the number again. */
  lemma {:induction false} LowerHexRoundTrip(n: nat)
    ensures IsHexString(LowerHex(n)) && HexToNat(LowerHex(n)) == n
    decreases n
  {
    var s := LowerHex(n);
    LowerDigitsAreHex(s);
    if n < 16 {
      DigitValue(n);
    } else {
      LowerHexRoundTrip(n / 16);
      assert s[..|s| - 1] == LowerHex(n / 16);
      DigitValue(n % 16);
    }
  }

  /** A number of exactly k nibbles prints as exactly k digits. */
  lemma {:induction false} LowerHexLength(n: nat, k: nat)
    requires k >= 1 && Pow2(4 * (k - 1)) <= n + (if k == 1 then 1 else 0) && n < Pow2(4 * k)
    ensures |LowerHex(n)| == k
    decreases k
  {
    if k > 1 {
      Pow2Nibble(4 * (k - 2));
      Pow2Nibble(4 * (k - 1));
      Pow2Monotone(4, 4 * (k - 1));
      assert Pow2(4) == 16;
      LowerHexLength(n / 16, k - 1);
    }
  }

  /** 2^(4k + r) prints as one leading digit 2^r followed by k zeros. */
  lemma {:induction false} LowerHexOfPow2(k: nat, r: nat)
    requires r < 4
    ensures LowerHex(Pow2(4 * k + r)) == [Digit([1, 2, 4, 8][r])] + Repeat('0', k)
    decreases k
  {
    assert Pow2(1) == 2 && Pow2(2) == 4 && Pow2(3) == 8;
    if k > 0 {
      LowerHexOfPow2(k - 1, r);
      Pow2Nibble(4 * (k - 1) + r);
      var m := Pow2(4 * (k - 1) + r);
      assert Pow2(4 * k + r) == 16 * m;
      assert (16 * m) / 16 == m && (16 * m) % 16 == 0;
    }
  }

  predicate IsBinary(s: string) { forall i :: 0 <= i < |s| ==> s[i] == '0' || s[i] == '1' }

  /** Python `int(s, 2)`: the string of '0'/'1' read as a binary number, most significant bit first. */
  function BinaryValue(s: string): nat
    requires IsBinary(s)
  {
    if s == [] then 0 else 2 * BinaryValue(s[..|s| - 1]) + (if s[|s| - 1] == '1' then 1 else 0)
  }

  /** A bit string of length L that starts with '1' has exactly L significant bits. */
  lemma {:induction false} BinaryValueBounds(s: string)
    requires IsBinary(s) && |s| >= 1 && s[0] == '1'
    ensures Pow2(|s| - 1) <= BinaryValue(s) < Pow2(|s|)
    decreases |s|
  {
    if |s| > 1 {
      BinaryValueBounds(s[..|s| - 1]);
    }
  }

  /** The byte digits 2k and 2k + 1 of s spell. */
  function PairValue(s: string, k: nat): int
    requires 2 * k + 1 < |s| && IsHexDigit(s[2 * k]) && IsHexDigit(s[2 * k + 1])
  {
    16 * HexValue(s[2 * k]).value + HexValue(s[2 * k + 1]).value
  }

  /** Python `bytes.fromhex(s)` on strings without whitespace: byte k is the pair of
      digits 2k and 2k + 1, high nibble first; None where Python raises ValueError
      (an odd number of digits, or a character that is not a digit). */
  function FromHex(s: string): (r: Option<seq<Byte>>)
    ensures r.Some? ==> |r.value| == |s| / 2
  {
    if |s| % 2 == 0 && IsHexString(s) then Some(seq(|s| / 2, k requires 0 <= k < |s| / 2 => PairValue(s, k)))
    else None
  }

  /** Decoding a concatenation decodes each part, when the first part has whole bytes. */
  lemma FromHexAppend(s: string, t: string)
    requires |s| % 2 == 0 && IsHexString(s) && FromHex(t).Some?
    ensures FromHex(s + t) == Some(FromHex(s).value + FromHex(t).value)
  {
    var st := s + t;
    assert IsHexString(st) by {
      forall i | 0 <= i < |st| ensures IsHexDigit(st[i]) {
        if i >= |s| { assert st[i] == t[i - |s|]; }
      }
    }
    var r, a, b := FromHex(st).value, FromHex(s).value, FromHex(t).value;
    forall k | 0 <= k < |r| ensures r[k] == (a + b)[k] {
      if k < |a| {
        assert PairValue(st, k) == PairValue(s, k);
      } else {
        var j := k - |a|;
        assert st[2 * k] == t[2 * j] && st[2 * k + 1] == t[2 * j + 1];
        assert PairValue(st, k) == PairValue(t, j);
      }
    }
    assert r == a + b;
  }

  /** 2n zero digits decode to n zero bytes. */
  lemma FromHexZeros(n: nat)
    ensures FromHex(Repeat('0', 2 * n)) == Some(seq(n, _ => 0))
  {
    var z := Repeat('0', 2 * n);
    assert HexValue('0') == Some(0);
    assert IsHexString(z);
    var r := FromHex(z).value;
    forall k | 0 <= k < n ensures r[k] == 0 {
      assert r[k] == PairValue(z, k);
    }
    assert r == seq(n, _ => 0);
  }
}
