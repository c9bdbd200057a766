/** Word keys: the strings "{number}-across" / "{number}-down" that link a
    numbered word to its clue text, how they are printed from a number and
    a direction, and how they are split and parsed back (JavaScript's
    `key.split("-")` followed by `parseInt` on the first piece). */
module WordKeys {
  import opened Types

  datatype WordKey = WordKey(number: int, dir: Direction)

  predicate IsDigit(ch: char)
  {
    '0' <= ch <= '9'
  }

  predicate AllDigits(s: string)
  {
    forall i :: 0 <= i < |s| ==> IsDigit(s[i])
  }

  function DirName(d: Direction): string
  {
    if d == Across then "across" else "down"
  }

  function DigitChar(d: nat): (ch: char)
    requires d < 10
    ensures IsDigit(ch)
  {
    ('0' as int + d) as char
  }

  function DigitValue(ch: char): (d: nat)
    requires IsDigit(ch)
    ensures d < 10
  {
    ch as int - '0' as int
  }

  /** Decimal notation of a natural number, as template literals print it. */
  function NatString(n: nat): (s: string)
    ensures |s| >= 1 && AllDigits(s)
  {
    if n < 10 then [DigitChar(n)] else NatString(n / 10) + [DigitChar(n % 10)]
  }

  /** Decimal notation of an integer (a leading '-' for negatives). */
  function IntString(n: int): string
  {
    if n < 0 then "-" + NatString(-n) else NatString(n)
  }

  /** The value of a string of decimal digits. */
  function DigitsValue(s: string): nat
    requires AllDigits(s)
  {
    if s == [] then 0 else DigitsValue(s[..|s| - 1]) * 10 + DigitValue(s[|s| - 1])
  }

  /** The longest prefix of `s` made of digits. */
  function LeadingDigits(s: string): (p: string)
    ensures AllDigits(p) && |p| <= |s| && p == s[..|p|]
  {
    if s == [] || !IsDigit(s[0]) then [] else [s[0]] + LeadingDigits(s[1..])
  }

  /** `parseInt` on a string that starts with a digit; `None` stands for NaN
      (signs and leading white space are not modelled). */
  function ParseInt(s: string): Option<nat>
  {
    var p := LeadingDigits(s);
    if p == [] then None else Some(DigitsValue(p))
  }

  /** The prefix of `s` before its first '-'. */
  function UntilDash(s: string): (p: string)
    ensures |p| <= |s| && p == s[..|p|] && '-' !in p
    ensures |p| < |s| ==> s[|p|] == '-'
  {
    if s == [] || s[0] == '-' then [] else [s[0]] + UntilDash(s[1..])
  }

  /** The first two pieces of `s.split("-")`; the second is `None`
      (undefined) when `s` has no '-'. */
  function SplitKey(s: string): (string, Option<string>)
  {
    var first := UntilDash(s);
    if |first| == |s| then (first, None) else (first, Some(UntilDash(s[|first| + 1..])))
  }

  function KeyString(k: WordKey): string
  {
    IntString(k.number) + "-" + DirName(k.dir)
  }

  /** `clueTexts[key] || ""`: the clue text stored under `key`, or the
      empty string when there is none. */
  function ClueTextOf(texts: map<string, string>, key: string): (t: string)
    ensures t == "" <==> key !in texts || texts[key] == ""
    ensures t != "" ==> key in texts && texts[key] == t
  {
    if key in texts then texts[key] else ""
  }

  /** A key string read back: its number prefix and its direction name. */
  function ParseKey(s: string): Option<WordKey>
  {
    match SplitKey(s)
    case (num, Some(dir)) =>
      (match ParseInt(num)
       case Some(n) =>
         if dir == "across" then Some(WordKey(n, Across))
         else if dir == "down" then Some(WordKey(n, Down))
         else None
       case None => None)
    case (_, None) => None
  }

  lemma {:induction false} DigitsValueOfNatString(n: nat)
    ensures DigitsValue(NatString(n)) == n
  {
    if n >= 10 {
      var s := NatString(n / 10) + [DigitChar(n % 10)];
      assert s[..|s| - 1] == NatString(n / 10);
      DigitsValueOfNatString(n / 10);
    }
  }

  lemma {:induction false} LeadingDigitsOfDigits(s: string, rest: string)
    requires AllDigits(s)
    requires rest == [] || !IsDigit(rest[0])
    ensures LeadingDigits(s + rest) == s
  {
    if s != [] {
      assert (s + rest)[1..] == s[1..] + rest;
      LeadingDigitsOfDigits(s[1..], rest);
    }
  }

  lemma {:induction false} UntilDashOf(s: string, rest: string)
    requires '-' !in s
    requires rest == [] || rest[0] == '-'
    ensures UntilDash(s + rest) == s
  {
    if s != [] {
      assert s[0] in s;
      assert (s + rest)[1..] == s[1..] + rest;
      assert forall ch :: ch in s[1..] ==> ch in s;
      UntilDashOf(s[1..], rest);
    }
  }

  /** Splitting "a-b" where neither piece holds a '-' gives the two pieces. */
  lemma SplitKeyOf(a: string, b: string)
    requires '-' !in a && '-' !in b
    ensures SplitKey(a + "-" + b) == (a, Some(b))
  {
    var s := a + "-" + b;
    assert s == a + ("-" + b);
    UntilDashOf(a, "-" + b);
    assert s[|a| + 1..] == b;
    UntilDashOf(b, []);
    assert b + [] == b;
  }

  /** `parseInt` reads back the decimal digits of n. */
  lemma ParseIntOf(n: nat)
    ensures ParseInt(NatString(n)) == Some(n)
  {
    LeadingDigitsOfDigits(NatString(n), []);
    assert NatString(n) + [] == NatString(n);
    DigitsValueOfNatString(n);
  }

  /** The pieces of a printed key of a non-negative number: its digits
      and its direction name, and the digits parse to the number. */
  lemma SplitKeyString(k: WordKey)
    requires k.number >= 0
    ensures SplitKey(KeyString(k)) == (NatString(k.number), Some(DirName(k.dir)))
    ensures ParseInt(NatString(k.number)) == Some(k.number)
  {
    var digits := NatString(k.number);
    assert forall i :: 0 <= i < |digits| ==> digits[i] != '-' by {
      forall i | 0 <= i < |digits| ensures digits[i] != '-' { assert IsDigit(digits[i]); }
    }
    assert '-' !in DirName(k.dir);
    SplitKeyOf(digits, DirName(k.dir));
    ParseIntOf(k.number);
  }

  /** Printing a key of a non-negative number and parsing it back gives the
      key again: the split/parseInt code reads exactly what the numbering
      engine wrote. */
  lemma ParseKeyString(k: WordKey)
    requires k.number >= 0
    ensures ParseKey(KeyString(k)) == Some(k)
  {
    SplitKeyString(k);
  }

  /** Two keys print alike only if they are equal, as long as one of
      them has a non-negative number. */
  lemma KeyStringInjective(k1: WordKey, k2: WordKey)
    requires k2.number >= 0
    requires KeyString(k1) == KeyString(k2)
    ensures k1 == k2
  {
    var digits := NatString(k2.number);
    assert KeyString(k2)[0] == digits[0] && IsDigit(digits[0]);
    if k1.number >= 0 {
      ParseKeyString(k1);
      ParseKeyString(k2);
    }
  }
}
