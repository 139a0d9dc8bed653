/** `to_ordinal` of `utils/mod.rs`: a `u32` written in decimal followed by its English ordinal suffix. */
module Ordinal {

  /** Rust's `u32`. */
  type U32 = x: nat | x < 0x1_0000_0000

  /** The decimal digit character for d. */
  function DigitChar(d: nat): (c: char)
    requires d < 10
    ensures '0' <= c <= '9' && c as int - '0' as int == d
  {
    (d + '0' as int) as char
  }

  /** `format!("{}", num)`: the decimal rendering, most significant digit first, no leading zero. */
  function Decimal(num: nat): (s: string)
    ensures |s| >= 1
    ensures forall k :: 0 <= k < |s| ==> '0' <= s[k] <= '9'
    ensures |s| > 1 ==> s[0] != '0'
    decreases num
  {
    if num < 10 then [DigitChar(num)]
    else Decimal(num / 10) + [DigitChar(num % 10)]
  }

  /** Reading a string of decimal digits back as a number. */
  function ParseDecimal(s: string): nat
    requires forall k :: 0 <= k < |s| ==> '0' <= s[k] <= '9'
  {
    if |s| == 0 then 0
    else 10 * ParseDecimal(s[..|s| - 1]) + (s[|s| - 1] as int - '0' as int)
  }

  /** The decimal rendering reads back as the number it renders. */
  lemma {:induction false} DecimalRoundTrip(num: nat)
    ensures ParseDecimal(Decimal(num)) == num
    decreases num
  {
    if num >= 10 {
      var s := Decimal(num);
      assert s[..|s| - 1] == Decimal(num / 10);
      DecimalRoundTrip(num / 10);
    }
  }

  /** The suffix, chosen exactly as the source's match on `(num % 10, num % 100)`; it agrees with the digit rule. */
  function Suffix(num: nat): (r: string)
    ensures |r| == 2
    ensures r == EnglishSuffix(num)
  {
    match (num % 10, num % 100)
    case (1, 11) => "th"
    case (1, _) => "st"
    case (2, 12) => "th"
    case (2, _) => "nd"
    case (3, 13) => "th"
    case (3, _) => "rd"
    case _ => "th"
  }

  /** The last digit is the last digit of the last two. */
  lemma LastDigitOfLastTwo(num: nat)
    ensures num % 10 == (num % 100) % 10
  {
    var q, t := num / 100, num % 100;
    assert num == 10 * (10 * q + t / 10) + t % 10;
  }

  /** The suffix depends only on the last two digits. */
  lemma SuffixByLastTwoDigits(a: nat, b: nat)
    requires a % 100 == b % 100
    ensures Suffix(a) == Suffix(b)
  {
    LastDigitOfLastTwo(a);
    LastDigitOfLastTwo(b);
  }

  /** The English rule stated by digits: a tens digit of 1 always takes "th"; otherwise 1, 2, 3 take "st", "nd", "rd". */
  function EnglishSuffix(num: nat): string {
    if (num / 10) % 10 == 1 then "th"
    else if num % 10 == 1 then "st"
    else if num % 10 == 2 then "nd"
    else if num % 10 == 3 then "rd"
    else "th"
  }

  /** The source's match and the English rule agree on every number. */
  lemma SuffixIsEnglishRule(num: nat)
    ensures Suffix(num) == EnglishSuffix(num)
  {
  }

  /** The suffix is always two letters, chosen by the exceptions 11-13 first and the last digit after. */
  lemma SuffixRules(num: nat)
    ensures |Suffix(num)| == 2
    ensures num % 100 in {11, 12, 13} ==> Suffix(num) == "th"
    ensures num % 100 !in {11, 12, 13} && num % 10 == 1 ==> Suffix(num) == "st"
    ensures num % 100 !in {11, 12, 13} && num % 10 == 2 ==> Suffix(num) == "nd"
    ensures num % 100 !in {11, 12, 13} && num % 10 == 3 ==> Suffix(num) == "rd"
    ensures num % 10 !in {1, 2, 3} ==> Suffix(num) == "th"
  {
  }

  /** `to_ordinal(num)`: the decimal rendering of num, then a two-letter suffix decided by its last two digits. */
  function ToOrdinal(num: U32): (r: string)
    ensures |r| >= 3
    ensures forall k :: 0 <= k < |r| - 2 ==> '0' <= r[k] <= '9'
    ensures |r| > 3 ==> r[0] != '0'
    ensures ParseDecimal(r[..|r| - 2]) == num
    ensures num % 100 in {11, 12, 13} ==> r[|r| - 2..] == "th"
    ensures num % 100 !in {11, 12, 13} && num % 10 == 1 ==> r[|r| - 2..] == "st"
    ensures num % 100 !in {11, 12, 13} && num % 10 == 2 ==> r[|r| - 2..] == "nd"
    ensures num % 100 !in {11, 12, 13} && num % 10 == 3 ==> r[|r| - 2..] == "rd"
    ensures num % 10 !in {1, 2, 3} ==> r[|r| - 2..] == "th"
  {
    var digits, suffix := Decimal(num), Suffix(num);
    DecimalRoundTrip(num);
    SuffixRules(num);
    assert (digits + suffix)[..|digits|] == digits;
    assert (digits + suffix)[|digits|..] == suffix;
    digits + suffix
  }
}
