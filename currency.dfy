/**
 * Currency amounts are whole cents. `formatCurrency` renders them as dollars
 * with exactly two decimals; `DIFFICULTY_REWARDS` prices a goal by difficulty.
 */
module Currency {
  import opened Wrappers
  import Text

  predicate IsDigit(c: char) {
    '0' <= c <= '9'
  }

  predicate AllDigits(s: string) {
    forall i :: 0 <= i < |s| ==> IsDigit(s[i])
  }

  function DigitChar(d: int): (c: char)
    requires 0 <= d < 10
    ensures IsDigit(c) && c as int == '0' as int + d
  {
    ('0' as int + d) as char
  }

  function DigitValue(c: char): (d: int)
    requires IsDigit(c)
    ensures 0 <= d < 10 && DigitChar(d) == c
  {
    c as int - '0' as int
  }

  /** Decimal digits of `n` with no leading zero. */
  function Decimal(n: nat): (s: string)
    ensures |s| >= 1 && AllDigits(s)
    ensures |s| > 1 ==> s[0] != '0'
  {
    if n < 10 then [DigitChar(n)] else Decimal(n / 10) + [DigitChar(n % 10)]
  }

  /** The value of a string of decimal digits (most significant first). */
  function DigitsValue(s: string): (n: nat)
    requires AllDigits(s)
  {
    if s == [] then 0 else 10 * DigitsValue(s[..|s| - 1]) + DigitValue(s[|s| - 1])
  }

  /** Reading back the digits of `n` gives `n`. */
  lemma {:induction false} DecimalRoundTrip(n: nat)
    ensures DigitsValue(Decimal(n)) == n
  {
    var s := Decimal(n);
    if n >= 10 {
      assert s[..|s| - 1] == Decimal(n / 10);
      DecimalRoundTrip(n / 10);
    }
  }

  /** Two digits, zero-padded: `padStart(2, "0")` of a number below 100. */
  function TwoDigits(n: nat): (s: string)
    requires n < 100
    ensures |s| == 2 && AllDigits(s) && DigitsValue(s) == n
  {
    var s := [DigitChar(n / 10), DigitChar(n % 10)];
    assert s[..1] == [DigitChar(n / 10)] && s[..1][..0] == [];
    assert DigitsValue(s[..1]) == n / 10;
    s
  }

  /**
   * `formatCurrency(cents)` for a non-negative whole number of cents:
   * `"$"`, the whole dollars, `"."`, and the remaining cents as two digits.
   */
  function FormatCurrency(cents: nat): (s: string)
    ensures |s| >= 5 && s[0] == '$'
    ensures AllDigits(s[1..|s| - 3]) && (|s| > 5 ==> s[1] != '0')
    ensures s[|s| - 3] == '.' && AllDigits(s[|s| - 2..])
    ensures Text.Count(s, '.') == 1
  {
    var dollars, rest := Decimal(cents / 100), TwoDigits(cents % 100);
    var s := "$" + dollars + "." + rest;
    assert s[1..|s| - 3] == dollars;
    assert s[|s| - 2..] == rest;
    var tail := "." + rest;
    assert s[1..] == dollars + tail;
    DigitsHaveNoDot(dollars);
    DigitsHaveNoDot(rest);
    assert s == "$" + s[1..];
    assert Text.Count("$", '.') == 0 && Text.Count(".", '.') == 1;
    Text.CountConcat("$", s[1..], '.');
    Text.CountConcat(dollars, tail, '.');
    Text.CountConcat(".", rest, '.');
    assert Text.Count(tail, '.') == 1;
    assert Text.Count(s[1..], '.') == 1;
    s
  }

  lemma {:induction false} DigitsHaveNoDot(s: string)
    requires AllDigits(s)
    ensures Text.Count(s, '.') == 0
  {
    if s != [] {
      DigitsHaveNoDot(s[1..]);
    }
  }

  /** Reads a formatted amount back: `"$" digits "." two-digits`, else nothing. */
  function ParseCurrency(s: string): Option<nat> {
    if |s| >= 5 && s[0] == '$' && s[|s| - 3] == '.' && AllDigits(s[1..|s| - 3]) && AllDigits(s[|s| - 2..])
    then Some(100 * DigitsValue(s[1..|s| - 3]) + DigitsValue(s[|s| - 2..]))
    else None
  }

  /** Parsing the formatted amount gives back the cents. */
  lemma FormatParseRoundTrip(cents: nat)
    ensures ParseCurrency(FormatCurrency(cents)) == Some(cents)
  {
    var s := FormatCurrency(cents);
    var dollars, rest := Decimal(cents / 100), TwoDigits(cents % 100);
    assert s[1..|s| - 3] == dollars;
    assert s[|s| - 2..] == rest;
    DecimalRoundTrip(cents / 100);
  }

  /** Different amounts are formatted differently. */
  lemma FormatInjective(a: nat, b: nat)
    requires FormatCurrency(a) == FormatCurrency(b)
    ensures a == b
  {
    FormatParseRoundTrip(a);
    FormatParseRoundTrip(b);
  }

  /** The examples of the function's documentation. */
  lemma FormatExamples()
    ensures FormatCurrency(250) == "$2.50"
    ensures FormatCurrency(5) == "$0.05"
    ensures FormatCurrency(0) == "$0.00"
  {}

  /** The keys of `DIFFICULTY_REWARDS`. */
  datatype Difficulty = Easy | Medium | Hard

  /** The key under which a difficulty is stored. */
  function Key(d: Difficulty): string {
    match d
    case Easy => "easy"
    case Medium => "medium"
    case Hard => "hard"
  }

  /** Reward in cents for each difficulty key. */
  const DIFFICULTY_REWARDS: map<string, int> := map["easy" := 2, "medium" := 5, "hard" := 10]

  /** `DIFFICULTY_REWARDS[d]`. */
  function DifficultyReward(d: Difficulty): (r: int)
    ensures Key(d) in DIFFICULTY_REWARDS
    ensures d == Easy ==> r == 2
    ensures d == Medium ==> r == 5
    ensures d == Hard ==> r == 10
  {
    DIFFICULTY_REWARDS[Key(d)]
  }

  /** The table has exactly one key per difficulty, so `Difficulty` is exactly its key set. */
  lemma DifficultyKeysExact()
    ensures DIFFICULTY_REWARDS.Keys == set d: Difficulty :: Key(d)
    ensures forall d, e :: Key(d) == Key(e) ==> d == e
  {
    assert Key(Easy) == "easy" && Key(Medium) == "medium" && Key(Hard) == "hard";
  }

  /** Rewards are positive and strictly increase with difficulty: 2, 5, 10 cents. */
  lemma DifficultyRewardsOrdered()
    ensures DifficultyReward(Easy) == 2 && DifficultyReward(Medium) == 5 && DifficultyReward(Hard) == 10
    ensures 0 < DifficultyReward(Easy) < DifficultyReward(Medium) < DifficultyReward(Hard)
  {}
}
