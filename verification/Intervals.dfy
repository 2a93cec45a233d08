/**
 * Intervals as text: interval_write and the interval grammar (src/parser/interval.cpp,
 * src/parser/interval_grammar.h). A string is parsed from its front; what is left is returned.
 */
module Intervals {
  import opened Times

  /** my::interval_t has 32 bits. */
  const WRAP := 0x1_0000_0000

  datatype ParseError = ExpectedValue | ExpectedUnit | ExpectedFor | Unexpected(rest: string)

  datatype Parsed<+T> = Ok(value: T, rest: string) | Err(error: ParseError)

  // ---------- Characters

  predicate IsSpace(c: char) { c == ' ' || 9 <= c as int <= 13 }

  predicate IsDigit(c: char) { '0' <= c <= '9' }

  function DigitOf(c: char): nat
    requires IsDigit(c)
  {
    c as int - '0' as int
  }

  function DigitChar(n: nat): (c: char)
    requires n < 10
    ensures IsDigit(c) && DigitOf(c) == n
  {
    ('0' as int + n) as char
  }

  function Lower(c: char): char {
    if 'A' <= c <= 'Z' then (c as int + 32) as char else c
  }

  /** ascii::space, the skipper */
  function Skip(s: string): (r: string)
    ensures |r| <= |s| && (r != "" ==> !IsSpace(r[0]))
  {
    if s != "" && IsSpace(s[0]) then Skip(s[1..]) else s
  }

  /** ascii::no_case[qi::lit(word)] without its skipping */
  predicate StartsWith(s: string, word: string) {
    |word| <= |s| && forall i :: 0 <= i < |word| ==> Lower(s[i]) == word[i]
  }

  // ---------- Numbers

  /** operator<< for an unsigned number */
  function Digits(n: nat): (s: string)
    ensures s != ""
  {
    if n < 10 then [DigitChar(n)] else Digits(n / 10) + [DigitChar(n % 10)]
  }

  predicate AllDigits(s: string) { forall i :: 0 <= i < |s| ==> IsDigit(s[i]) }

  function Decimal(s: string): nat
    requires AllDigits(s)
  {
    if s == "" then 0 else 10 * Decimal(s[..|s| - 1]) + DigitOf(s[|s| - 1])
  }

  /** The length of the longest prefix of digits. */
  function DigitRun(s: string): (n: nat)
    ensures n <= |s| && AllDigits(s[..n]) && (n < |s| ==> !IsDigit(s[n]))
  {
    if s != "" && IsDigit(s[0]) then
      var n := DigitRun(s[1..]);
      assert forall i :: 0 < i < n + 1 ==> s[i] == s[1..][..n][i - 1];
      n + 1
    else 0
  }

  /** qi::uint_: fails without a digit and on overflow */
  function ParseUint(s: string): Parsed<nat> {
    var t := Skip(s);
    var n := DigitRun(t);
    if n == 0 || Decimal(t[..n]) >= WRAP then Err(ExpectedValue) else Ok(Decimal(t[..n]), t[n..])
  }

  lemma {:induction false} DigitsRoundTrip(n: nat)
    ensures AllDigits(Digits(n)) && Decimal(Digits(n)) == n
    decreases n
  {
    if n >= 10 {
      DigitsRoundTrip(n / 10);
      var s := Digits(n);
      assert s[..|s| - 1] == Digits(n / 10);
    } else {
      assert Digits(n)[..0] == "";
    }
  }

  /** A run of digits ends where the digits end. */
  lemma {:induction false} RunOf(s: string, rest: string)
    requires AllDigits(s) && (rest == "" || !IsDigit(rest[0]))
    ensures DigitRun(s + rest) == |s|
  {
    if s == "" {
      assert s + rest == rest;
    } else {
      assert (s + rest)[1..] == s[1..] + rest;
      RunOf(s[1..], rest);
    }
  }

  lemma {:induction false} UintRoundTrip(n: nat, rest: string)
    requires n < WRAP && (rest == "" || !IsDigit(rest[0]))
    ensures ParseUint(Digits(n) + rest) == Ok(n, rest)
  {
    DigitsRoundTrip(n);
    RunOf(Digits(n), rest);
    var s := Digits(n) + rest;
    assert IsDigit(s[0]) && Skip(s) == s;
    assert s[..|Digits(n)|] == Digits(n) && s[|Digits(n)|..] == rest;
  }

  // ---------- Units

  /** The seven units, from seconds to years. */
  function Seconds(unit: nat): (n: nat)
    requires unit < 7
    ensures n > 0
  {
    match unit
    case 0 => INTERVAL_SEC
    case 1 => INTERVAL_MIN
    case 2 => INTERVAL_HOUR
    case 3 => INTERVAL_DAY
    case 4 => INTERVAL_WEEK
    case 5 => INTERVAL_MONTH
    case _ => INTERVAL_YEAR
  }

  /** The alternatives of the grammar, in order: each plural before its singular. */
  function Word(j: nat): string
    requires j < 14
  {
    match j
    case 0 => "secs"
    case 1 => "sec"
    case 2 => "mins"
    case 3 => "min"
    case 4 => "hours"
    case 5 => "hour"
    case 6 => "days"
    case 7 => "day"
    case 8 => "weeks"
    case 9 => "week"
    case 10 => "months"
    case 11 => "month"
    case 12 => "years"
    case _ => "year"
  }

  /** The first alternative that matches, from the j-th on. */
  function FirstUnit(t: string, j: nat): Parsed<nat>
    requires j <= 14
    decreases 14 - j
  {
    if j == 14 then Err(ExpectedUnit)
    else if StartsWith(t, Word(j)) then Ok(Seconds(j / 2), t[|Word(j)|..])
    else FirstUnit(t, j + 1)
  }

  function ParseUnit(s: string): Parsed<nat> { FirstUnit(Skip(s), 0) }

  /** interval_grammar */
  function ParseInterval(s: string): Parsed<nat> {
    match ParseUint(s)
    case Err(e) => Err(e)
    case Ok(v, rest) =>
      match ParseUnit(rest)
      case Err(e) => Err(e)
      case Ok(unit, left) => Ok(v * unit % WRAP, left)
  }

  /** interval_parse */
  function IntervalParse(s: string): Parsed<nat> {
    match ParseInterval(s)
    case Err(e) => Err(e)
    case Ok(v, rest) => if Skip(rest) == "" then Ok(v, "") else Err(Unexpected(Skip(rest)))
  }

  /** The largest unit, up to the given one, that divides the interval, and how many of it. */
  function InUnits(interval: nat, largest: nat): (r: (nat, nat))
    requires largest < 7
    ensures r.1 <= largest && r.0 <= interval
  {
    if largest == 0 then (interval, 0)
    else if interval % Seconds(largest) == 0 then
      SharesSmaller(interval, Seconds(largest));
      (interval / Seconds(largest), largest)
    else InUnits(interval, largest - 1)
  }

  lemma {:induction false} InUnitsIsWhole(interval: nat, largest: nat)
    requires largest < 7
    ensures var (v, unit) := InUnits(interval, largest); v * Seconds(unit) == interval
    ensures forall unit :: InUnits(interval, largest).1 < unit <= largest ==> interval % Seconds(unit) != 0
  {
    if largest > 0 {
      if interval % Seconds(largest) == 0 {
        SharesSmaller(interval, Seconds(largest));
      } else {
        InUnitsIsWhole(interval, largest - 1);
      }
    }
  }

  lemma {:induction false} SharesSmaller(n: nat, d: nat)
    requires d > 0
    ensures n / d <= n && n == (n / d) * d + n % d
  {
    MulMonotone(1, d, n / d);
    assert n == d * (n / d) + n % d;
  }

  /** interval_get_name */
  function Name(unit: nat, v: nat): string
    requires unit < 7
  {
    if v > 1 then Word(2 * unit) else Word(2 * unit + 1)
  }

  /** interval_write */
  function IntervalWrite(interval: nat): string {
    var (v, unit) := InUnits(interval, 6);
    Digits(v) + " " + Name(unit, v)
  }

  // ---------- Round trip

  function Initials(unit: nat): string
    requires unit < 7
  {
    match unit case 0 => "se" case 1 => "mi" case 2 => "ho" case 3 => "da" case 4 => "we" case 5 => "mo" case _ => "ye"
  }

  /** Units differ in their first two letters; a plural is its singular and an s. */
  lemma {:induction false} Spelling(j: nat)
    requires j < 14
    ensures |Word(j)| >= 2 && Word(j)[0] == Initials(j / 2)[0] && Word(j)[1] == Initials(j / 2)[1]
    ensures Lower(Word(j)[0]) == Word(j)[0] && Lower(Word(j)[1]) == Word(j)[1] && !IsSpace(Word(j)[0])
    ensures forall i :: 0 <= i < |Word(j)| ==> Lower(Word(j)[i]) == Word(j)[i]
    ensures j % 2 == 0 ==> Word(j) == Word(j + 1) + "s"
  {
    match j
    case 0 => case 1 => case 2 => case 3 => case 4 => case 5 => case 6 =>
    case 7 => case 8 => case 9 => case 10 => case 11 => case 12 => case _ =>
  }

  /** What may follow an interval: nothing that turns a singular into a plural. */
  predicate Ends(rest: string) { rest == "" || Lower(rest[0]) != 's' }

  /** No earlier alternative matches the word of a later one. */
  lemma {:induction false} EarlierFail(j: nat, m: nat, rest: string)
    requires j < m < 14 && Ends(rest)
    ensures !StartsWith(Word(m) + rest, Word(j))
  {
    Spelling(j);
    Spelling(m);
    var t := Word(m) + rest;
    assert t[0] == Word(m)[0] && t[1] == Word(m)[1];
    if j / 2 == m / 2 {
      assert m == j + 1;
      if rest != "" {
        assert t[|Word(m)|] == rest[0];
      }
    }
  }

  lemma {:induction false} FirstMatch(t: string, j: nat, m: nat)
    requires j <= m < 14 && StartsWith(t, Word(m))
    requires forall i: nat :: j <= i < m ==> !StartsWith(t, Word(i))
    ensures FirstUnit(t, j) == Ok(Seconds(m / 2), t[|Word(m)|..])
    decreases m - j
  {
    if j < m {
      FirstMatch(t, j + 1, m);
    }
  }

  lemma {:induction false} UnitRoundTrip(m: nat, rest: string)
    requires m < 14 && Ends(rest)
    ensures ParseUnit(" " + Word(m) + rest) == Ok(Seconds(m / 2), rest)
  {
    Spelling(m);
    var t := Word(m) + rest;
    assert (" " + Word(m) + rest)[1..] == t;
    assert t[0] == Word(m)[0] && Skip(t) == t;
    forall j: nat | j < m
      ensures !StartsWith(t, Word(j))
    {
      EarlierFail(j, m, rest);
    }
    FirstMatch(t, 0, m);
    assert t[|Word(m)|..] == rest;
  }

  /** interval is the product, before it is cut to 32 bits. */
  lemma {:induction false} ValueAndUnit(v: nat, m: nat, rest: string, interval: nat)
    requires v < WRAP && m < 14 && Ends(rest) && interval == v * Seconds(m / 2)
    ensures ParseInterval(Digits(v) + " " + Word(m) + rest) == Ok(interval % WRAP, rest)
  {
    assert Digits(v) + " " + Word(m) + rest == Digits(v) + (" " + Word(m) + rest);
    UintRoundTrip(v, " " + Word(m) + rest);
    UnitRoundTrip(m, rest);
  }

  /** Parsing what was written gives the interval back, for every 32-bit interval, zero included. */
  lemma {:induction false} IntervalThenRest(interval: nat, rest: string)
    requires interval < WRAP && Ends(rest)
    ensures ParseInterval(IntervalWrite(interval) + rest) == Ok(interval, rest)
  {
    var (v, unit) := InUnits(interval, 6);
    InUnitsIsWhole(interval, 6);
    ValueAndUnit(v, if v > 1 then 2 * unit else 2 * unit + 1, rest, interval);
    WrapsNot(interval);
  }

  lemma {:induction false} WrapsNot(n: nat)
    requires n < WRAP
    ensures n % WRAP == n
  {
  }

  lemma {:induction false} IntervalRoundTrip(interval: nat)
    requires interval < WRAP
    ensures IntervalParse(IntervalWrite(interval)) == Ok(interval, "")
  {
    IntervalThenRest(interval, "");
    assert IntervalWrite(interval) + "" == IntervalWrite(interval);
  }

  /** The multiplication of the grammar is not checked for overflow: the text means the product exactly when it fits. */
  lemma {:induction false} ProductExactIff(v: nat, m: nat, interval: nat)
    requires v < WRAP && m < 14 && interval == v * Seconds(m / 2)
    ensures IntervalParse(Digits(v) + " " + Word(m)) == Ok(interval, "") <==> interval < WRAP
  {
    ValueAndUnit(v, m, "", interval);
    assert Digits(v) + " " + Word(m) + "" == Digits(v) + " " + Word(m);
    if interval < WRAP {
      WrapsNot(interval);
    }
  }

  // ---------- What the texts mean

  /** The text of a number and a word for its unit. */
  lemma {:induction false} InWords(v: nat, m: nat, word: string, text: string, seconds: nat)
    requires m < 14 && seconds == v * Seconds(m / 2) < WRAP && word == Word(m) && text == Digits(v) + (" " + word)
    ensures IntervalParse(text) == Ok(seconds, "")
  {
    assert text == Digits(v) + " " + Word(m);
    MulMonotone(1, Seconds(m / 2), v);
    ProductExactIff(v, m, seconds);
  }

  lemma {:induction false} SecsMean(v: nat)
    requires v < WRAP
    ensures IntervalParse(Digits(v) + " secs") == Ok(v, "")
    ensures IntervalParse(Digits(v) + " sec") == Ok(v, "")
  {
    assert " " + "secs" == " secs" && " " + "sec" == " sec";
    InWords(v, 0, "secs", Digits(v) + " secs", v);
    InWords(v, 1, "sec", Digits(v) + " sec", v);
  }

  lemma {:induction false} MinsMean(v: nat)
    requires 60 * v < WRAP
    ensures IntervalParse(Digits(v) + " mins") == Ok(60 * v, "")
    ensures IntervalParse(Digits(v) + " min") == Ok(60 * v, "")
  {
    assert " " + "mins" == " mins" && " " + "min" == " min";
    InWords(v, 2, "mins", Digits(v) + " mins", 60 * v);
    InWords(v, 3, "min", Digits(v) + " min", 60 * v);
  }

  lemma {:induction false} HoursMean(v: nat)
    requires 60 * 60 * v < WRAP
    ensures IntervalParse(Digits(v) + " hours") == Ok(60 * 60 * v, "")
    ensures IntervalParse(Digits(v) + " hour") == Ok(60 * 60 * v, "")
  {
    assert " " + "hours" == " hours" && " " + "hour" == " hour";
    InWords(v, 4, "hours", Digits(v) + " hours", 60 * 60 * v);
    InWords(v, 5, "hour", Digits(v) + " hour", 60 * 60 * v);
  }

  lemma {:induction false} DaysMean(v: nat)
    requires 24 * 60 * 60 * v < WRAP
    ensures IntervalParse(Digits(v) + " days") == Ok(24 * 60 * 60 * v, "")
    ensures IntervalParse(Digits(v) + " day") == Ok(24 * 60 * 60 * v, "")
  {
    assert " " + "days" == " days" && " " + "day" == " day";
    InWords(v, 6, "days", Digits(v) + " days", 24 * 60 * 60 * v);
    InWords(v, 7, "day", Digits(v) + " day", 24 * 60 * 60 * v);
  }

  lemma {:induction false} WeeksMean(v: nat)
    requires 7 * (24 * 60 * 60 * v) < WRAP
    ensures IntervalParse(Digits(v) + " weeks") == Ok(7 * (24 * 60 * 60 * v), "")
    ensures IntervalParse(Digits(v) + " week") == Ok(7 * (24 * 60 * 60 * v), "")
  {
    assert " " + "weeks" == " weeks" && " " + "week" == " week";
    InWords(v, 8, "weeks", Digits(v) + " weeks", 7 * (24 * 60 * 60 * v));
    InWords(v, 9, "week", Digits(v) + " week", 7 * (24 * 60 * 60 * v));
  }

  lemma {:induction false} MonthsMean(v: nat)
    requires 30 * (24 * 60 * 60 * v) < WRAP
    ensures IntervalParse(Digits(v) + " months") == Ok(30 * (24 * 60 * 60 * v), "")
    ensures IntervalParse(Digits(v) + " month") == Ok(30 * (24 * 60 * 60 * v), "")
  {
    assert " " + "months" == " months" && " " + "month" == " month";
    InWords(v, 10, "months", Digits(v) + " months", 30 * (24 * 60 * 60 * v));
    InWords(v, 11, "month", Digits(v) + " month", 30 * (24 * 60 * 60 * v));
  }

  lemma {:induction false} YearsMean(v: nat)
    requires 365 * (24 * 60 * 60 * v) < WRAP
    ensures IntervalParse(Digits(v) + " years") == Ok(365 * (24 * 60 * 60 * v), "")
    ensures IntervalParse(Digits(v) + " year") == Ok(365 * (24 * 60 * 60 * v), "")
  {
    assert " " + "years" == " years" && " " + "year" == " year";
    InWords(v, 12, "years", Digits(v) + " years", 365 * (24 * 60 * 60 * v));
    InWords(v, 13, "year", Digits(v) + " year", 365 * (24 * 60 * 60 * v));
  }

  /** One or none of something, or several. */
  function Counted(v: nat, one: string, several: string): string {
    Digits(v) + " " + if v > 1 then several else one
  }

  /** The text names the largest unit that divides the interval. */
  lemma {:induction false} TextIs(interval: nat)
    ensures IntervalWrite(interval) ==
              if interval % (365 * 24 * 60 * 60) == 0 then Counted(interval / (365 * 24 * 60 * 60), "year", "years")
              else if interval % (30 * 24 * 60 * 60) == 0 then
                Counted(interval / (30 * 24 * 60 * 60), "month", "months")
              else if interval % (7 * 24 * 60 * 60) == 0 then Counted(interval / (7 * 24 * 60 * 60), "week", "weeks")
              else if interval % (24 * 60 * 60) == 0 then Counted(interval / (24 * 60 * 60), "day", "days")
              else if interval % (60 * 60) == 0 then Counted(interval / (60 * 60), "hour", "hours")
              else if interval % 60 == 0 then Counted(interval / 60, "min", "mins")
              else Counted(interval, "sec", "secs")
  {
    LargestUnit(interval, 6);
    var (v, unit) := InUnits(interval, 6);
    NameIs(unit, v);
  }

  lemma {:induction false} NameIs(unit: nat, v: nat)
    requires unit < 7
    ensures Digits(v) + " " + Name(unit, v) ==
              match unit
              case 0 => Counted(v, "sec", "secs") case 1 => Counted(v, "min", "mins")
              case 2 => Counted(v, "hour", "hours")
              case 3 => Counted(v, "day", "days") case 4 => Counted(v, "week", "weeks")
              case 5 => Counted(v, "month", "months") case _ => Counted(v, "year", "years")
  {
  }

  lemma {:induction false} LargestUnit(interval: nat, n: nat)
    requires n == 6
    ensures InUnits(interval, n) ==
              if interval % (365 * 24 * 60 * 60) == 0 then (interval / (365 * 24 * 60 * 60), 6)
              else if interval % (30 * 24 * 60 * 60) == 0 then (interval / (30 * 24 * 60 * 60), 5)
              else if interval % (7 * 24 * 60 * 60) == 0 then (interval / (7 * 24 * 60 * 60), 4)
              else if interval % (24 * 60 * 60) == 0 then (interval / (24 * 60 * 60), 3)
              else if interval % (60 * 60) == 0 then (interval / (60 * 60), 2)
              else if interval % 60 == 0 then (interval / 60, 1)
              else (interval, 0)
  {
    UnitStep(interval, n);
    UnitStep(interval, n - 1);
    UnitStep(interval, n - 2);
    UnitStep(interval, n - 3);
    UnitStep(interval, n - 4);
    UnitStep(interval, n - 5);
  }

  lemma {:induction false} UnitStep(interval: nat, largest: nat)
    requires 0 < largest < 7
    ensures InUnits(interval, largest)
         == if interval % Seconds(largest) == 0 then (interval / Seconds(largest), largest)
             else InUnits(interval, largest - 1)
  {
  }

  /** No superfluous zeros. */
  lemma {:induction false} NoLeadingZero(n: nat)
    ensures Digits(n)[0] == '0' <==> n == 0
    ensures n < 10 <==> |Digits(n)| == 1
  {
    if n >= 10 {
      NoLeadingZero(n / 10);
    }
  }

  /** Beyond 32 bits the product loses its high bits. */
  lemma {:induction false} MinsWrap(v: nat)
    requires 0x1_0000_0000 <= 60 * v < 2 * 0x1_0000_0000
    ensures IntervalParse(Digits(v) + " mins") == Ok(60 * v - 0x1_0000_0000, "")
  {
    var text := Digits(v) + " mins";
    assert " " + "mins" == " mins" && text == Digits(v) + " " + Word(2) + "";
    ValueAndUnit(v, 2, "", 60 * v);
    HighBits(60 * v);
  }

  lemma {:induction false} HighBits(n: nat)
    requires WRAP <= n < 2 * WRAP
    ensures n % WRAP == n - WRAP
  {
  }

  /** A number of 32 bits or more is not a value. */
  lemma {:induction false} TooLarge(n: nat, rest: string)
    requires rest == "" || !IsDigit(rest[0])
    ensures ParseUint(Digits(n) + rest).Ok? <==> n < 0x1_0000_0000
  {
    DigitsRoundTrip(n);
    RunOf(Digits(n), rest);
    var s := Digits(n) + rest;
    assert IsDigit(s[0]) && Skip(s) == s;
    assert s[..|Digits(n)|] == Digits(n);
  }

  // ---------- Blanks and letters

  predicate Blank(s: string) { forall i :: 0 <= i < |s| ==> IsSpace(s[i]) }

  /** Two texts that differ in the case of letters only. */
  predicate SameLetters(s: string, t: string) {
    |s| == |t| && forall i :: 0 <= i < |s| ==> Lower(s[i]) == Lower(t[i])
  }

  lemma {:induction false} SkipBlank(blank: string, s: string)
    requires Blank(blank)
    ensures Skip(blank + s) == Skip(s)
  {
    if blank != "" {
      SkipBlank(blank[1..], s);
      assert (blank + s)[1..] == blank[1..] + s;
    } else {
      assert blank + s == s;
    }
  }

  lemma {:induction false} CaseIgnored(s: string, t: string, word: string)
    requires SameLetters(s, t)
    ensures StartsWith(s, word) <==> StartsWith(t, word)
  {
  }

  /** Blanks before and after the number, or none, and upper case do not matter. */
  lemma {:induction false} AnySpelling(v: nat, m: nat, before: string, between: string, word: string, text: string)
    requires v < WRAP && m < 14 && v * Seconds(m / 2) < WRAP && Blank(before) && Blank(between)
             && SameLetters(word, Word(m))
    requires text == before + (Digits(v) + (between + word))
    ensures ParseInterval(text) == Ok(v * Seconds(m / 2), "")
  {
    var rest, unit := between + word, Seconds(m / 2);
    UnitLast(m, between, word);
    NumberFirst(v, before, rest);
    NumberAndUnit(text, v, rest, unit);
    WrapsNot(v * unit);
  }

  lemma {:induction false} NumberAndUnit(s: string, v: nat, rest: string, unit: nat)
    requires ParseUint(s) == Ok(v, rest) && ParseUnit(rest) == Ok(unit, "")
    ensures ParseInterval(s) == Ok(v * unit % WRAP, "")
  {
  }

  lemma {:induction false} NumberFirst(v: nat, before: string, rest: string)
    requires v < WRAP && Blank(before) && rest != "" && !IsDigit(rest[0])
    ensures ParseUint(before + (Digits(v) + rest)) == Ok(v, rest)
  {
    SkipBlank(before, Digits(v) + rest);
    UintRoundTrip(v, rest);
  }

  lemma {:induction false} SpelledUnit(m: nat, word: string, j: nat)
    requires m < 14 && j == 0 && SameLetters(word, Word(m))
    ensures FirstUnit(word, j) == Ok(Seconds(m / 2), "")
  {
    Spelling(m);
    forall i: nat | i < m
      ensures !StartsWith(word, Word(i))
    {
      EarlierFail(i, m, "");
      assert Word(m) + "" == Word(m);
      CaseIgnored(word, Word(m), Word(i));
    }
    FirstMatch(word, j, m);
    assert word[|Word(m)|..] == "";
  }

  lemma {:induction false} UnitLast(m: nat, between: string, word: string)
    requires m < 14 && Blank(between) && SameLetters(word, Word(m))
    ensures between + word != "" && !IsDigit((between + word)[0])
    ensures ParseUnit(between + word) == Ok(Seconds(m / 2), "")
  {
    FirstLetter(m, word);
    SkipBlank(between, word);
    SpelledUnit(m, word, 0);
  }

  lemma {:induction false} FirstLetter(m: nat, word: string)
    requires m < 14 && SameLetters(word, Word(m))
    ensures word != "" && !IsDigit(word[0]) && Skip(word) == word
  {
    Spelling(m);
    assert Lower(word[0]) == Lower(Word(m)[0]);
  }
}
