/** 64-bit numbers as decimal text: counters in the cache and version cursors. */
module Decimal {
  import opened GoTypes
  import opened Arithmetic

  function DigitChar(d: nat): char
    requires d < 10
  {
    '0' + d as char
  }

  predicate IsDigit(c: char) { '0' <= c <= '9' }

  function Digits(n: nat): (s: string)
    ensures s != [] && forall k :: 0 <= k < |s| ==> IsDigit(s[k])
    ensures s[0] == '0' <==> n == 0
  {
    if n < 10 then [DigitChar(n)] else Digits(n / 10) + [DigitChar(n % 10)]
  }

  function FormatInt(n: int): string {
    if n < 0 then ['-'] + Digits(-n) else Digits(n)
  }

  /** The number that decimal digits denote, or Nothing when some character is no digit. */
  function ParseDigits(s: string): Maybe<nat> {
    if s == [] then Just(0) else
    var c := s[|s| - 1];
    var rest := ParseDigits(s[..|s| - 1]);
    if IsDigit(c) && rest.Just? then Just(10 * rest.value + (c - '0') as nat) else Nothing
  }

  /** strconv.ParseInt(s, 10, 64): an optional sign and at least one digit, within 64 bits. */
  function ParseInt(s: string): Maybe<int> {
    if s == [] then Nothing else
    var digits := if s[0] == '-' || s[0] == '+' then s[1..] else s;
    var n := ParseDigits(digits);
    if digits == [] || n.Nothing? then Nothing
    else
      var v: int := if s[0] == '-' then 0 - n.value else n.value;
      if -0x8000_0000_0000_0000 <= v < 0x8000_0000_0000_0000 then Just(v) else Nothing
  }

  lemma {:induction false} DigitsParse(n: nat)
    ensures ParseDigits(Digits(n)) == Just(n)
  {
    if n < 10 {
      assert Digits(n)[..0] == [];
    } else {
      DigitsParse(n / 10);
      assert Digits(n)[..|Digits(n)| - 1] == Digits(n / 10);
    }
  }

  /** Formatting is undone by parsing, on all 64-bit values. */
  lemma FormatParse(n: int)
    requires -0x8000_0000_0000_0000 <= n < 0x8000_0000_0000_0000
    ensures ParseInt(FormatInt(n)) == Just(n)
  {
    if n < 0 {
      DigitsParse(-n);
      assert FormatInt(n)[1..] == Digits(-n);
    } else {
      DigitsParse(n);
      assert IsDigit(Digits(n)[0]);
    }
  }

  // ---------- what decimal text denotes, place by place ----------

  function Pow10(k: nat): (p: nat)
    ensures p > 0
  {
    if k == 0 then 1 else 10 * Pow10(k - 1)
  }

  /** The text consists of digits, and each is the number's digit at its place. */
  predicate Denotes(s: string, n: nat) {
    && s != [] && n < Pow10(|s|)
    && (forall k :: 0 <= k < |s| ==> '0' <= s[k] <= '9')
    && (forall k :: 0 <= k < |s| ==> n / Pow10(|s| - 1 - k) % 10 == (s[k] - '0') as nat)
  }

  lemma {:induction false} ParseDenotes(s: string)
    requires s != [] && ParseDigits(s).Just?
    ensures Denotes(s, ParseDigits(s).value)
    decreases |s|
  {
    var n, last := ParseDigits(s).value, |s| - 1;
    var front := s[..last];
    assert Pow10(|s|) == 10 * Pow10(last);
    assert n / Pow10(0) % 10 == (s[last] - '0') as nat;
    if front != [] {
      ParseDenotes(front);
      assert n / 10 == ParseDigits(front).value;
      forall k | 0 <= k < last
        ensures '0' <= s[k] <= '9' && n / Pow10(|s| - 1 - k) % 10 == (s[k] - '0') as nat
      {
        assert front[k] == s[k];
        DivTwice(n, 10, Pow10(last - 1 - k));
      }
    }
  }

  lemma {:induction false} DenotesParse(s: string, n: nat)
    requires Denotes(s, n)
    ensures ParseDigits(s) == Just(n)
    decreases |s|
  {
    var last := |s| - 1;
    var front := s[..last];
    assert Pow10(|s|) == 10 * Pow10(last);
    assert n / Pow10(|s| - 1 - last) % 10 == (s[last] - '0') as nat;
    if front == [] {
      assert ParseDigits(front) == Just(0);
    } else {
      forall k | 0 <= k < last
        ensures n / 10 / Pow10(|front| - 1 - k) % 10 == (front[k] - '0') as nat
      {
        DivTwice(n, 10, Pow10(last - 1 - k));
        assert n / Pow10(|s| - 1 - k) % 10 == (s[k] - '0') as nat;
      }
      DenotesParse(front, n / 10);
    }
  }

  /** Exactly which texts are numbers: an optional sign, then digits that denote it, within 64 bits. */
  lemma ParseIntIff(s: string, n: int)
    ensures ParseInt(s) == Just(n) <==>
              && -0x8000_0000_0000_0000 <= n < 0x8000_0000_0000_0000
              && ((n >= 0 && Denotes(s, n)) || (n >= 0 && s != [] && s[0] == '+' && Denotes(s[1..], n))
                  || (n <= 0 && s != [] && s[0] == '-' && Denotes(s[1..], -n)))
  {
    hide Denotes, ParseDigits;
    if s != [] {
      var digits := if s[0] == '-' || s[0] == '+' then s[1..] else s;
      if digits != [] && ParseDigits(digits).Just? {
        ParseDenotes(digits);
      }
      if n >= 0 && Denotes(digits, n) {
        DenotesParse(digits, n);
      }
      if n <= 0 && Denotes(digits, -n) {
        DenotesParse(digits, -n);
      }
      if n >= 0 && Denotes(s, n) {
        NoSign(s, n);
      }
      DenotesSome(digits, n);
    } else {
      DenotesSome(s, n);
    }
  }

  lemma NoSign(s: string, n: int)
    requires n >= 0 && s != [] && Denotes(s, n)
    ensures s[0] != '-' && s[0] != '+'
  {
    assert '0' <= s[0] <= '9';
  }

  lemma DenotesSome(s: string, n: int)
    ensures s == [] ==> (n >= 0 ==> !Denotes(s, n)) && (n <= 0 ==> !Denotes(s, -n))
  {
  }

  /** Formatting gives the one shortest text: a sign exactly for negative numbers, no leading zero, and digits that denote it. */
  lemma FormatIs(n: int)
    ensures var s := FormatInt(n);
            && s != [] && (s[0] == '-' <==> n < 0)
            && var digits := if n < 0 then s[1..] else s;
               Denotes(digits, if n < 0 then -n else n) && (digits[0] == '0' <==> n == 0)
  {
    hide Denotes, Digits;
    var m := if n < 0 then -n else n;
    DigitsParse(m);
    ParseDenotes(Digits(m));
    assert IsDigit(Digits(m)[0]);
    if n < 0 {
      assert FormatInt(n)[1..] == Digits(m);
    }
  }

  /** Two texts without a dash, joined by one, can be read back. */
  lemma PairsApart(prefix: string, a: string, b: string, a': string, b': string)
    requires '-' !in a && '-' !in b && '-' !in a' && '-' !in b'
    ensures prefix + (a + "-" + b) == prefix + (a' + "-" + b') <==> a == a' && b == b'
  {
    var s, t := a + "-" + b, a' + "-" + b';
    if prefix + s == prefix + t {
      assert s == (prefix + s)[|prefix|..] == (prefix + t)[|prefix|..] == t;
      var i, j := |a|, |a'|;
      assert (forall k :: 0 <= k < i ==> s[k] == a[k]) && s[i] == '-';
      assert (forall k :: 0 <= k < j ==> t[k] == a'[k]) && t[j] == '-';
      assert i == j;
      assert s[..i] == a && t[..j] == a' && s[i + 1..] == b && t[j + 1..] == b';
    }
  }

  /** The number before the first dash, and what follows it, can be read back from "number-text". */
  lemma DashSplits(m: nat, a: string, n: nat, b: string)
    ensures Digits(m) + "-" + a == Digits(n) + "-" + b <==> m == n && a == b
  {
    var s, t := Digits(m) + "-" + a, Digits(n) + "-" + b;
    if s == t {
      var i, j := |Digits(m)|, |Digits(n)|;
      assert (forall k :: 0 <= k < i ==> s[k] != '-') && s[i] == '-';
      assert (forall k :: 0 <= k < j ==> t[k] != '-') && t[j] == '-';
      assert i == j;
      assert s[..i] == Digits(m) && t[..j] == Digits(n) && s[i + 1..] == a && t[j + 1..] == b;
      DigitsParse(m);
      DigitsParse(n);
    }
  }
}
