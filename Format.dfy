/**
 * Number-to-text conversions of the JavaScript runtime that the pane relies on:
 * `Number.prototype.toString(radix)` / `BigInt.prototype.toString()` and
 * `String.prototype.padStart`, together with the digit alphabet they use.
 */
module Format {

  /** A digit as `toString(radix)` writes it: `0`-`9`, then lower-case `a`-`f`. */
  function DigitChar(d: nat): (c: char)
    requires d < 16
    ensures '0' <= c <= '9' || 'a' <= c <= 'f'
  {
    if d < 10 then ('0' as int + d) as char else ('a' as int + d - 10) as char
  }

  predicate IsLowerHexDigit(c: char) {
    '0' <= c <= '9' || 'a' <= c <= 'f'
  }

  /** The character class `[0-9a-fA-F]`. */
  predicate IsHexDigit(c: char) {
    IsLowerHexDigit(c) || 'A' <= c <= 'F'
  }

  /** The value of one hexadecimal digit, either case. */
  function DigitValue(c: char): (d: nat)
    requires IsHexDigit(c)
    ensures d < 16
  {
    if '0' <= c <= '9' then c as int - '0' as int
    else if 'a' <= c <= 'f' then c as int - 'a' as int + 10
    else c as int - 'A' as int + 10
  }

  lemma DigitCharRoundTrip(d: nat)
    requires d < 16
    ensures IsLowerHexDigit(DigitChar(d)) && DigitValue(DigitChar(d)) == d
    ensures DigitChar(d) == '0' <==> d == 0
  {
  }

  lemma DigitValueRoundTrip(c: char)
    requires IsLowerHexDigit(c)
    ensures DigitChar(DigitValue(c)) == c
  {
  }

  /** Euclidean division facts for a positive divisor, stated once so that the solver need not rediscover them. */
  lemma DivMod(n: nat, radix: nat)
    requires 2 <= radix
    ensures n % radix < radix
    ensures n / radix * radix + n % radix == n
    ensures n >= radix ==> 1 <= n / radix < n
  {
  }

  /** `n.toString(radix)` for a non-negative integer: the most significant digit first. */
  function ToRadixString(n: nat, radix: nat): (r: string)
    requires 2 <= radix <= 16
    ensures n < radix <==> |r| == 1
    decreases n
  {
    DivMod(n, radix);
    if n < radix then [DigitChar(n)] else ToRadixString(n / radix, radix) + [DigitChar(n % radix)]
  }

  /** `toString(radix)` writes only digits below the radix, in lower case, and no leading zero ("0" only for zero). */
  lemma {:induction false} ToRadixStringDigits(n: nat, radix: nat)
    requires 2 <= radix <= 16
    ensures var r := ToRadixString(n, radix);
      (forall i :: 0 <= i < |r| ==> IsLowerHexDigit(r[i]) && DigitValue(r[i]) < radix) &&
      (r[0] == '0' <==> n == 0)
    decreases n
  {
    DivMod(n, radix);
    if n < radix {
      DigitCharRoundTrip(n);
    } else {
      ToRadixStringDigits(n / radix, radix);
      DigitCharRoundTrip(n % radix);
    }
  }

  /** The number a string of digits denotes in the given radix (the reading of a positional numeral). */
  function ValueOf(s: string, radix: nat): nat
    requires forall i :: 0 <= i < |s| ==> IsHexDigit(s[i])
  {
    if s == [] then 0 else ValueOf(s[..|s| - 1], radix) * radix + DigitValue(s[|s| - 1])
  }

  /** Reading back what `toString(radix)` wrote gives the number again. */
  lemma {:induction false} ToRadixStringRoundTrip(n: nat, radix: nat)
    requires 2 <= radix <= 16
    ensures var r := ToRadixString(n, radix);
      (forall i :: 0 <= i < |r| ==> IsHexDigit(r[i])) && ValueOf(r, radix) == n
    decreases n
  {
    var r := ToRadixString(n, radix);
    ToRadixStringDigits(n, radix);
    DivMod(n, radix);
    if n < radix {
      DigitCharRoundTrip(n);
      assert r[..0] == [];
    } else {
      DigitCharRoundTrip(n % radix);
      ToRadixStringRoundTrip(n / radix, radix);
      ToRadixStringDigits(n / radix, radix);
      assert r[..|r| - 1] == ToRadixString(n / radix, radix);
    }
  }

  /** `n.toString(radix)` for an n below radix squared has at most two digits. */
  lemma ToRadixStringShort(n: nat, radix: nat)
    requires 2 <= radix <= 16 && n < radix * radix
    ensures n < radix ==> ToRadixString(n, radix) == [DigitChar(n)]
    ensures n >= radix ==> ToRadixString(n, radix) == [DigitChar(n / radix), DigitChar(n % radix)]
  {
    if n >= radix {
      assert n / radix < radix;
    }
  }

  /** `"c".repeat(n)`. */
  function Repeat(c: char, n: nat): (r: string)
    ensures |r| == n
    ensures forall i :: 0 <= i < n ==> r[i] == c
  {
    seq(n, _ => c)
  }

  /**
   * `s.padStart(width, fill)` with a one-character fill: a string already `width` long
   * comes back unchanged, a shorter one is prefixed with copies of `fill`.
   */
  function PadStart(s: string, width: nat, fill: char): (r: string)
    ensures |r| == if |s| >= width then |s| else width
  {
    if |s| >= width then s else Repeat(fill, width - |s|) + s
  }

  /** Padding keeps the text as the suffix and puts only copies of the fill character before it. */
  lemma PadStartKeeps(s: string, width: nat, fill: char)
    ensures var r := PadStart(s, width, fill);
      r[|r| - |s|..] == s && forall i :: 0 <= i < |r| - |s| ==> r[i] == fill
  {
  }
}
