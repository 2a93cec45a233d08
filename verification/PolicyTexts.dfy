/** Retention policies as text (src/parser/retention_policy.cpp, src/parser/retention_policy_grammar.h). */
module PolicyTexts {
  import opened Policies
  import opened Intervals

  /** The fields of t_retention_policy_elem have 32 bits. */
  predicate Representable(p: Policy) {
    forall i :: 0 <= i < |p| ==> p[i].freq < WRAP && p[i].duration < WRAP
  }

  // ---------- Writing

  /** What follows once i elements are written, given how an interval is written. */
  function WriteFrom(p: Policy, i: nat, write: nat -> string): string
    requires i <= |p|
    decreases |p| - i
  {
    if i == |p| then ""
    else
      (if i > 0 then ", " else "")
      + (write(p[i].freq) + (" for " + (write(p[i].duration) + WriteFrom(p, i + 1, write))))
  }

  function PolicyText(p: Policy): string { WriteFrom(p, 0, IntervalWrite) }

  method WriteAll(p: Policy, write: nat -> string) returns (s: string)
    ensures s == WriteFrom(p, 0, write)
  {
    s := "";
    for i := 0 to |p|
      invariant s + WriteFrom(p, i, write) == WriteFrom(p, 0, write)
    {
      ghost var before := s;
      if i > 0 {
        s := s + ", ";
      }
      s := s + write(p[i].freq) + " for " + write(p[i].duration);
      Regroup(before, if i > 0 then ", " else "", write(p[i].freq), " for ", write(p[i].duration),
              WriteFrom(p, i + 1, write));
    }
  }

  lemma {:induction false} Regroup(a: string, b: string, c: string, d: string, e: string, f: string)
    ensures a + b + c + d + e + f == a + (b + (c + (d + (e + f))))
  {
  }

  /** retention_policy_write */
  method PolicyWrite(p: Policy) returns (s: string)
    ensures s == PolicyText(p)
  {
    s := WriteAll(p, IntervalWrite);
  }

  // ---------- Parsing

  type IntervalParser = string -> Parsed<nat>

  function ParseWord(s: string, word: string): Parsed<()> {
    if StartsWith(Skip(s), word) then Ok((), Skip(s)[|word|..]) else Err(ExpectedFor)
  }

  /** _elem, given how an interval is parsed */
  function ParseElem(s: string, parse: IntervalParser): Parsed<Elem> {
    match parse(s)
    case Err(e) => Err(e)
    case Ok(freq, s1) =>
      match ParseWord(s1, "for")
      case Err(e) => Err(e)
      case Ok(_, s2) =>
        match parse(s2)
        case Err(e) => Err(e)
        case Ok(duration, rest) => Ok(Elem(freq, duration), rest)
  }

  ghost predicate Consumes(parse: IntervalParser) {
    forall s :: parse(s).Ok? ==> |parse(s).rest| <= |s|
  }

  lemma {:induction false} IntervalConsumes()
    ensures Consumes(ParseInterval)
  {
    forall s: string | ParseInterval(s).Ok?
      ensures |ParseInterval(s).rest| <= |s|
    {
      FirstUnitRest(Skip(ParseUint(s).rest), 0);
    }
  }

  lemma {:induction false} FirstUnitRest(t: string, j: nat)
    requires j <= 14
    ensures FirstUnit(t, j).Ok? ==> |FirstUnit(t, j).rest| <= |t|
    decreases 14 - j
  {
    if j < 14 && !StartsWith(t, Word(j)) {
      FirstUnitRest(t, j + 1);
    }
  }

  /** Any number of further elements, each after a comma. */
  function ParseMore(s: string, parse: IntervalParser): Parsed<Policy>
    requires Consumes(parse)
    decreases |s|
  {
    if !StartsWith(Skip(s), ",") then Ok([], s)
    else
      match ParseElem(Skip(s)[1..], parse)
      case Err(e) => Err(e)
      case Ok(elem, s2) =>
        match ParseMore(s2, parse)
        case Err(e) => Err(e)
        case Ok(more, rest) => Ok([elem] + more, rest)
  }

  datatype PolicyResult = Accepted(policy: Policy) | Malformed(error: ParseError) | Inconsistent(fault: PolicyError)

  /** The grammar, the check that nothing is left, and retention_policy_validate. */
  function ParseAll(s: string, parse: IntervalParser): PolicyResult
    requires Consumes(parse)
  {
    match ParseElem(s, parse)
    case Err(e) => Malformed(e)
    case Ok(first, s1) =>
      match ParseMore(s1, parse)
      case Err(e) => Malformed(e)
      case Ok(more, rest) =>
        if Skip(rest) != "" then Malformed(Unexpected(Skip(rest)))
        else
          var p := [first] + more;
          if FirstFault(p, 0) == NoError then Accepted(p) else Inconsistent(FirstFault(p, 0))
  }

  /** retention_policy_parse */
  function PolicyParse(s: string): PolicyResult {
    IntervalConsumes();
    ParseAll(s, ParseInterval)
  }

  // ---------- Round trip

  /** An interval that was written is read back when something harmless follows. */
  ghost predicate Inverts(parse: IntervalParser, write: nat -> string) {
    && Consumes(parse)
    && (forall n: nat, rest: string {:trigger write(n) + rest} :: n < WRAP && Ends(rest) ==>
        parse(write(n) + rest) == Ok(n, rest))
    && (forall s: string {:trigger parse(" " + s)} :: parse(" " + s) == parse(s))
  }

  lemma {:induction false} IntervalInverts()
    ensures Inverts(ParseInterval, IntervalWrite)
  {
    IntervalConsumes();
    forall n: nat, rest: string | n < WRAP && Ends(rest)
      ensures ParseInterval(IntervalWrite(n) + rest) == Ok(n, rest)
    {
      IntervalThenRest(n, rest);
    }
    forall s: string
      ensures ParseInterval(" " + s) == ParseInterval(s)
    {
      assert (" " + s)[1..] == s;
      assert Skip(" " + s) == Skip(s);
    }
  }

  lemma {:induction false} ForFound(s: string)
    ensures ParseWord(" for " + s, "for") == Ok((), " " + s) && Ends(" for " + s)
  {
    var t := " for " + s;
    assert t[1..] == "for " + s;
    assert Skip(t) == "for " + s;
    assert ("for " + s)[3..] == " " + s;
  }

  lemma {:induction false} ElemThenRest(e: Elem, rest: string, parse: IntervalParser, write: nat -> string)
    requires Inverts(parse, write) && e.freq < WRAP && e.duration < WRAP && Ends(rest)
    ensures ParseElem(write(e.freq) + (" for " + (write(e.duration) + rest)), parse) == Ok(e, rest)
  {
    ForFound(write(e.duration) + rest);
  }

  lemma {:induction false} CommaFound(s: string, elem: string)
    requires s == ", " + elem
    ensures Ends(s) && StartsWith(Skip(s), ",") && Skip(s)[1..] == " " + elem
  {
  }

  lemma {:induction false} MoreStep(e: Elem, text: string, rest: string, more: Policy, parse: IntervalParser,
                                    write: nat -> string)
    requires Inverts(parse, write) && ParseElem(text, parse) == Ok(e, rest) && ParseMore(rest, parse) == Ok(more, "")
    ensures Ends(", " + text) && ParseMore(", " + text, parse) == Ok([e] + more, "")
  {
    CommaFound(", " + text, text);
    assert ParseElem(" " + text, parse) == ParseElem(text, parse);
  }

  lemma {:induction false} MoreRoundTrip(p: Policy, i: nat, parse: IntervalParser, write: nat -> string)
    requires Inverts(parse, write) && Representable(p) && 0 < i <= |p|
    ensures Ends(WriteFrom(p, i, write)) && ParseMore(WriteFrom(p, i, write), parse) == Ok(p[i..], "")
    decreases |p| - i
  {
    if i < |p| {
      var rest := WriteFrom(p, i + 1, write);
      var e := p[i];
      MoreRoundTrip(p, i + 1, parse, write);
      ElemThenRest(e, rest, parse, write);
      MoreStep(e, write(e.freq) + (" for " + (write(e.duration) + rest)), rest, p[i + 1..], parse, write);
      assert p[i..] == [e] + p[i + 1..];
    } else {
      assert p[i..] == [];
    }
  }

  lemma {:induction false} RoundTrip(p: Policy, parse: IntervalParser, write: nat -> string)
    requires Inverts(parse, write) && Representable(p) && p != []
    ensures ParseAll(WriteFrom(p, 0, write), parse)
            == if FirstFault(p, 0) == NoError then Accepted(p) else Inconsistent(FirstFault(p, 0))
  {
    MoreRoundTrip(p, 1, parse, write);
    ElemThenRest(p[0], WriteFrom(p, 1, write), parse, write);
    var elem := write(p[0].freq) + (" for " + (write(p[0].duration) + WriteFrom(p, 1, write)));
    assert "" + elem == elem;
    assert [p[0]] + p[1..] == p;
  }

  /**
   * Parsing what was written: a policy comes back exactly, unless it is empty, which the grammar
   * does not know, or inconsistent, which is reported as validate does.
   */
  lemma {:induction false} PolicyRoundTrip(p: Policy)
    requires Representable(p)
    ensures PolicyParse(PolicyText(p)) ==
            if p == [] then Malformed(ExpectedValue)
            else if FirstFault(p, 0) == NoError then Accepted(p) else Inconsistent(FirstFault(p, 0))
  {
    if p != [] {
      IntervalInverts();
      RoundTrip(p, ParseInterval, IntervalWrite);
    }
  }

  /** The text gives the policy back if and only if it has an element and is valid. */
  lemma {:induction false} RoundTripIff(p: Policy)
    requires Representable(p)
    ensures PolicyParse(PolicyText(p)) == Accepted(p) <==> (p != [] && ValidPolicy(p))
  {
    PolicyRoundTrip(p);
    FaultlessIsValid(p);
  }

  // ---------- What the text looks like

  /** Elements are written as "frequency for duration" with commas between them. */
  lemma {:induction false} TextOfTwo(a: Elem, b: Elem, write: nat -> string, n: nat)
    requires n == 0
    ensures WriteFrom([a], n, write) == write(a.freq) + " for " + write(a.duration)
    ensures WriteFrom([a, b], n, write) == WriteFrom([a], n, write) + ", " + WriteFrom([b], n, write)
  {
    var one, two := [a], [a, b];
    assert WriteFrom(one, n + 1, write) == "" && WriteFrom([b], n + 1, write) == "";
    assert WriteFrom(two, n + 2, write) == "";
    assert WriteFrom(two, n + 1, write) == ", " + (write(b.freq) + (" for " + (write(b.duration) + "")));
  }

  lemma {:induction false} MinForDay(p: Policy, text: string)
    requires p == [Elem(60, 86400)] && text == "1 min for 1 day"
    ensures PolicyText(p) == text && PolicyParse(text) == Accepted(p)
  {
    MinForDayText(p, text);
    ValidMinForDay(p);
    ParsesBack(p, text);
  }

  lemma {:induction false} ParsesBack(p: Policy, text: string)
    requires Representable(p) && p != [] && ValidPolicy(p) && PolicyText(p) == text
    ensures PolicyParse(text) == Accepted(p)
  {
    RoundTripIff(p);
  }

  lemma {:induction false} MinForDayText(p: Policy, text: string)
    requires p == [Elem(60, 86400)] && text == "1 min for 1 day"
    ensures PolicyText(p) == text
  {
    OneMin(p[0].freq, 1);
    OneDay(p[0].duration, 1);
    OneElement(p, IntervalWrite, "1 min", "1 day");
  }

  lemma {:induction false} OneElement(p: Policy, write: nat -> string, freq: string, duration: string)
    requires |p| == 1 && write(p[0].freq) == freq && write(p[0].duration) == duration
    ensures WriteFrom(p, 0, write) == freq + " for " + duration
  {
    assert p == [p[0]];
    TextOfTwo(p[0], p[0], write, 0);
  }

  lemma {:induction false} ValidMinForDay(p: Policy)
    requires p == [Elem(60, 86400)]
    ensures Representable(p) && ValidPolicy(p)
  {
  }

  lemma {:induction false} OneMin(n: nat, one: nat)
    requires n == 60 && one == 1
    ensures IntervalWrite(n) == "1 min"
  {
    TextIs(n);
    assert Digits(one) == "1";
  }

  lemma {:induction false} OneDay(n: nat, one: nat)
    requires n == 86400 && one == 1
    ensures IntervalWrite(n) == "1 day"
  {
    TextIs(n);
    assert Digits(one) == "1";
  }
}
