/*
 * The short-id encoder of the website: a non-negative number written in
 * base 62 with the digits a-z, A-Z, 0-9, most significant first.
 */
module Base62 {

  const Base := 62

  /** A run of `n` consecutive characters starting at `first`. */
  function Run(first: char, n: nat): (r: string)
    requires first as nat + n <= 0xD800
    ensures |r| == n && forall i :: 0 <= i < n ==> r[i] as nat == first as nat + i
  {
    seq(n, i requires 0 <= i < n => (first as nat + i) as char)
  }

  /** The 62 digits in value order: the lower-case letters, the
      upper-case letters, then the decimal digits. */
  const Alphabet: string := Run('a', 26) + Run('A', 26) + Run('0', 10)

  /** The alphabet spelled out. */
  lemma AlphabetSpelled()
    ensures Alphabet == "abcdefghijklmnopqrstuvwxyzABCDEFGHIJKLMNOPQRSTUVWXYZ0123456789"
  {
    LowerSpelled();
    UpperSpelled();
    NumeralsSpelled();
  }

  lemma LowerSpelled()
    ensures Run('a', 26) == "abcdefghijklmnopqrstuvwxyz"
  {
  }

  lemma UpperSpelled()
    ensures Run('A', 26) == "ABCDEFGHIJKLMNOPQRSTUVWXYZ"
  {
  }

  lemma NumeralsSpelled()
    ensures Run('0', 10) == "0123456789"
  {
  }

  /** The value of one digit character. */
  function DigitValue(c: char): nat
  {
    if 'a' <= c <= 'z' then c as nat - 'a' as nat
    else if 'A' <= c <= 'Z' then 26 + (c as nat - 'A' as nat)
    else if '0' <= c <= '9' then 52 + (c as nat - '0' as nat)
    else 0
  }

  predicate InAlphabet(c: char)
  {
    ('a' <= c <= 'z') || ('A' <= c <= 'Z') || ('0' <= c <= '9')
  }

  /** Each digit of the alphabet is worth its position. */
  lemma AlphabetDigits(d: nat)
    requires d < Base
    ensures InAlphabet(Alphabet[d]) && DigitValue(Alphabet[d]) == d
  {
    if d < 26 {
      assert Alphabet[d] == Run('a', 26)[d];
    } else if d < 52 {
      assert Alphabet[d] == Run('A', 26)[d - 26];
    } else {
      assert Alphabet[d] == Run('0', 10)[d - 52];
    }
  }

  /** The digits of a positive number, most significant first. */
  function Digits(n: nat): (r: string)
    requires n > 0
    ensures r != [] && forall i :: 0 <= i < |r| ==> InAlphabet(r[i])
  {
    AlphabetDigits(n % Base);
    if n < Base then [Alphabet[n % Base]] else Digits(n / Base) + [Alphabet[n % Base]]
  }

  /** The number a string of digits stands for. */
  function Value(s: string): nat
  {
    if s == [] then 0 else Value(s[..|s| - 1]) * Base + DigitValue(s[|s| - 1])
  }

  /** What the encoder returns: "a" for zero, nothing for a negative
      number (its loop never runs), the digits otherwise. */
  function Encoded(num: int): (r: string)
    ensures forall i :: 0 <= i < |r| ==> InAlphabet(r[i])
  {
    if num == 0 then "a" else if num < 0 then "" else Digits(num)
  }

  /** Reading the digits back gives the number. */
  lemma {:induction false} ValueOfDigits(n: nat)
    requires n > 0
    ensures Value(Digits(n)) == n
  {
    var d := Alphabet[n % Base];
    AlphabetDigits(n % Base);
    if n < Base {
      assert [d][..0] == [];
    } else {
      ValueOfDigits(n / Base);
      assert (Digits(n / Base) + [d])[..|Digits(n / Base)|] == Digits(n / Base);
    }
  }

  /** A positive number has no leading zero digit. */
  lemma {:induction false} NoLeadingZero(n: nat)
    requires n > 0
    ensures Digits(n)[0] != 'a'
  {
    AlphabetDigits(n % Base);
    if n >= Base {
      NoLeadingZero(n / Base);
    }
  }

  /** Different non-negative numbers get different codes. */
  lemma EncodeInjective(a: nat, b: nat)
    requires Encoded(a) == Encoded(b)
    ensures a == b
  {
    if a > 0 && b > 0 {
      ValueOfDigits(a);
      ValueOfDigits(b);
    } else if a > 0 {
      NoLeadingZero(a);
    } else if b > 0 {
      NoLeadingZero(b);
    }
  }

  function Reverse(s: string): (r: string)
    ensures |r| == |s|
  {
    if s == [] then [] else [s[|s| - 1]] + Reverse(s[..|s| - 1])
  }

  lemma ReverseSnoc(s: string, c: char)
    ensures Reverse(s + [c]) == [c] + Reverse(s)
  {
    assert (s + [c])[..|s|] == s;
  }

  /** The encoder: peel off the lowest digit while the number is
      positive, then reverse what was collected. */
  method EncodeBase62(num: int) returns (r: string)
    ensures r == Encoded(num)
  {
    if num == 0 {
      return "a";
    }
    var result := "";
    var n := num;
    while n > 0
      invariant num < 0 ==> n == num && result == ""
      invariant num > 0 ==> n >= 0
      invariant num > 0 && n > 0 ==> Digits(num) == Digits(n) + Reverse(result)
      invariant num > 0 && n == 0 ==> Digits(num) == Reverse(result)
      decreases if n > 0 then n else 0
    {
      var index := n % Base;
      ReverseSnoc(result, Alphabet[index]);
      result := result + [Alphabet[index]];
      n := n / Base;
    }
    r := Reverse(result);
  }
}
