/** One cell of the board in src/bin/sudoku-rust-idioms.rs: either a given
    character or the nine candidate digits, each tagged with the rule that
    excluded it (no tag while the digit is still live). */
module IdiomsValue {
  import opened Wrappers
  import opened Digits

  datatype Rule = AtMostOne | AtLeastOne

  /** A candidate digit; `reason` stays None while the digit is live. */
  datatype Choice = Choice(digit: char, reason: Option<Rule>)

  /** The digits of the choices are strictly increasing. */
  predicate DigitsAscending(cs: seq<Choice>)
  {
    forall k, k' | 0 <= k < k' < |cs| :: cs[k].digit < cs[k'].digit
  }

  /** The live digits of a list of choices, in list order (the filter inside
      Value::choices). */
  function LiveDigits(cs: seq<Choice>): (r: seq<char>)
    ensures |r| <= |cs|
    ensures forall d :: d in r <==> exists k :: 0 <= k < |cs| && cs[k].digit == d && cs[k].reason.None?
    ensures DigitsAscending(cs) ==> Ascending(r)
    decreases |cs|
  {
    if cs == [] then []
    else
      var rest := LiveDigits(cs[1..]);
      LiveShift(cs, rest);
      if cs[0].reason.None? then
        LiveFront(cs, rest);
        [cs[0].digit] + rest
      else
        assert DigitsAscending(cs) ==> DigitsAscending(cs[1..]);
        rest
  }

  /** The live digits of the tail of a list, read against the whole list. */
  lemma LiveShift(cs: seq<Choice>, rest: seq<char>)
    requires cs != []
    requires forall d :: d in rest <==> exists k :: 0 <= k < |cs[1..]| && cs[1..][k].digit == d && cs[1..][k].reason.None?
    ensures forall d :: d in rest <==> exists k :: 1 <= k < |cs| && cs[k].digit == d && cs[k].reason.None?
  {
    forall d | d in rest ensures exists k :: 1 <= k < |cs| && cs[k].digit == d && cs[k].reason.None? {
      var k :| 0 <= k < |cs[1..]| && cs[1..][k].digit == d && cs[1..][k].reason.None?;
      assert cs[k + 1] == cs[1..][k];
    }
    forall d | exists k :: 1 <= k < |cs| && cs[k].digit == d && cs[k].reason.None? ensures d in rest {
      var k :| 1 <= k < |cs| && cs[k].digit == d && cs[k].reason.None?;
      assert cs[1..][k - 1] == cs[k];
    }
  }

  /** A live first digit goes in front of the live digits of the tail
      without breaking their order. */
  lemma LiveFront(cs: seq<Choice>, rest: seq<char>)
    requires cs != []
    requires forall d :: d in rest <==> exists k :: 1 <= k < |cs| && cs[k].digit == d && cs[k].reason.None?
    requires DigitsAscending(cs[1..]) ==> Ascending(rest)
    ensures DigitsAscending(cs) ==> Ascending([cs[0].digit] + rest)
  {
    if DigitsAscending(cs) {
      assert DigitsAscending(cs[1..]);
      forall k | 0 <= k < |rest| ensures cs[0].digit < rest[k] {
        assert rest[k] in rest;
      }
      AscendingCons(cs[0].digit, rest);
    }
  }

  /** The number of choices that carry `rule` as their reason (the fold inside
      Value::count). */
  function CountReason(cs: seq<Choice>, rule: Rule): (n: nat)
    ensures n <= |cs|
    ensures n == 0 <==> forall k | 0 <= k < |cs| :: cs[k].reason != Some(rule)
    decreases |cs|
  {
    if cs == [] then 0
    else
      var rest := CountReason(cs[1..], rule);
      assert rest == 0 <==> forall k | 1 <= k < |cs| :: cs[k].reason != Some(rule) by {
        assert forall k | 1 <= k < |cs| :: cs[k] == cs[1..][k - 1];
      }
      (if cs[0].reason == Some(rule) then 1 else 0) + rest
  }

  /** The index of the last live choice for `digit`, if any (the fold that
      Value::eliminate runs over the live choices). */
  function LastLive(cs: seq<Choice>, digit: char): (r: Option<nat>)
    ensures r.Some? ==> r.value < |cs| && cs[r.value].digit == digit && cs[r.value].reason.None?
    ensures r.Some? ==> forall k | r.value < k < |cs| :: !(cs[k].digit == digit && cs[k].reason.None?)
    ensures r.None? ==> forall k | 0 <= k < |cs| :: !(cs[k].digit == digit && cs[k].reason.None?)
    decreases |cs|
  {
    if cs == [] then None
    else
      var last := |cs| - 1;
      if cs[last].digit == digit && cs[last].reason.None? then Some(last)
      else LastLive(cs[..last], digit)
  }

  /** Binary search for `digit` in `s`, reporting whether it was found (the
      `binary_search` of Board::indexes_of, read as `is_ok`). */
  function Search(s: seq<char>, digit: char): (found: bool)
    ensures found ==> digit in s
    ensures Ascending(s) && digit in s ==> found
    decreases |s|
  {
    if s == [] then false
    else
      var mid := |s| / 2;
      if s[mid] == digit then true
      else if s[mid] < digit then
        assert Ascending(s) && digit in s ==> digit in s[mid + 1..] by {
          if Ascending(s) && digit in s {
            var k :| 0 <= k < |s| && s[k] == digit;
            assert mid < k;
            assert s[mid + 1..][k - mid - 1] == digit;
          }
        }
        Search(s[mid + 1..], digit)
      else
        assert Ascending(s) && digit in s ==> digit in s[..mid] by {
          if Ascending(s) && digit in s {
            var k :| 0 <= k < |s| && s[k] == digit;
            assert k < mid;
            assert s[..mid][k] == digit;
          }
        }
        Search(s[..mid], digit)
  }

  datatype Value = Choices(cs: seq<Choice>) | Given(g: char)
  {
    /** Value::choices: the live digits of an open cell, None for a given. */
    function Live(): (r: Option<seq<char>>)
      ensures r.Some? <==> Choices?
    {
      if Choices? then Some(LiveDigits(cs)) else None
    }

    /** The cell is open and `digit` is one of its live choices. */
    predicate HasLive(digit: char)
    {
      Choices? && exists k :: 0 <= k < |cs| && cs[k].digit == digit && cs[k].reason.None?
    }

    /** Value::count: how many choices `rule` has excluded; 0 for a given. */
    function Count(rule: Rule): (n: nat)
      ensures Given? ==> n == 0
      ensures Choices? ==> n <= |cs|
      ensures n == 0 <==> Given? || forall k | 0 <= k < |cs| :: cs[k].reason != Some(rule)
    {
      if Choices? then CountReason(cs, rule) else 0
    }

    /** Value::given: the given character, None for an open cell. */
    function GivenDigit(): (r: Option<char>)
      ensures r.Some? <==> Given?
      ensures r.Some? ==> this == Given(r.value)
    {
      if Given? then Some(g) else None
    }

    /** The cell after Value::eliminate(digit, rule): the last live choice for
        `digit` is tagged with `rule`; a given cell is left alone. */
    function Eliminate(digit: char, rule: Rule): (r: Value)
      ensures Given? ==> r == this
      ensures Choices? ==> r.Choices? && |r.cs| == |cs|
      ensures Choices? ==> forall k | 0 <= k < |cs| :: r.cs[k].digit == cs[k].digit
      ensures Choices? ==> forall k | 0 <= k < |cs| && r.cs[k] != cs[k] ::
                cs[k].digit == digit && cs[k].reason.None? && r.cs[k].reason == Some(rule)
      ensures Choices? && DigitsAscending(cs) ==> !r.HasLive(digit)
      ensures !HasLive(digit) ==> r == this
    {
      match this
      case Given(_) => this
      case Choices(cs) =>
        match LastLive(cs, digit)
        case None => this
        case Some(k) =>
          Choices(cs[k := cs[k].(reason := Some(rule))])
    }

    /** The cell after Value::keep(digit, rule): every live choice other than
        `digit` is tagged with `rule`; a given cell is left alone. */
    function Keep(digit: char, rule: Rule): (r: Value)
      ensures Given? ==> r == this
      ensures Choices? ==> r.Choices? && |r.cs| == |cs|
      ensures Choices? ==> forall k | 0 <= k < |cs| :: r.cs[k].digit == cs[k].digit
      ensures Choices? ==> forall k | 0 <= k < |cs| && cs[k].reason.Some? :: r.cs[k] == cs[k]
      ensures Choices? ==> forall k | 0 <= k < |cs| && cs[k].digit == digit :: r.cs[k] == cs[k]
      ensures Choices? ==> forall k | 0 <= k < |cs| && r.cs[k] != cs[k] :: r.cs[k].reason == Some(rule)
      ensures forall d :: r.HasLive(d) ==> d == digit
    {
      match this
      case Given(_) => this
      case Choices(cs) => Choices(seq(|cs|, k requires 0 <= k < |cs| => KeepChoice(cs[k], digit, rule)))
    }

    /** A given cell, or an open cell listing the digits 1..9 in order: the
        shape every cell of a seeded board keeps. */
    predicate WellFormed()
    {
      Given? || (|cs| == |DIGITS| && forall k | 0 <= k < |cs| :: cs[k].digit == DIGITS[k])
    }
  }

  /** One step of the loop in Value::keep. */
  function KeepChoice(c: Choice, digit: char, rule: Rule): Choice
  {
    if c.reason.None? && c.digit != digit then c.(reason := Some(rule)) else c
  }

  /** Tagging the choices one by one, as the loop of Value::keep does, gives
      Value::keep. */
  lemma KeepEach(v: Value, kept: seq<Choice>, digit: char, rule: Rule)
    requires v.Choices? && |kept| == |v.cs|
    requires forall j | 0 <= j < |kept| :: kept[j] == KeepChoice(v.cs[j], digit, rule)
    ensures Choices(kept) == v.Keep(digit, rule)
  {
    assert kept == v.Keep(digit, rule).cs;
  }

  /** Value::default: an open cell with the nine digits live. */
  function Default(): (v: Value)
    ensures v.WellFormed() && v.Choices?
    ensures v.Live() == Some(DIGITS)
    ensures v.Count(AtMostOne) == 0 && v.Count(AtLeastOne) == 0
  {
    var v := Choices(seq(|DIGITS|, k requires 0 <= k < |DIGITS| => Choice(DIGITS[k], None)));
    AllLive(v.cs);
    assert LiveDigits(v.cs) == DIGITS;
    v
  }

  /** With nothing excluded, the live digits are all the digits. */
  lemma {:induction false} AllLive(cs: seq<Choice>)
    requires forall k | 0 <= k < |cs| :: cs[k].reason.None?
    ensures LiveDigits(cs) == seq(|cs|, k requires 0 <= k < |cs| => cs[k].digit)
    decreases |cs|
  {
    if cs != [] {
      AllLive(cs[1..]);
    }
  }

  /** The digit list 1..9 is ascending, so a well-formed open cell lists its
      live digits in ascending order and holds each digit once. */
  lemma WellFormedAscending(v: Value)
    requires v.WellFormed() && v.Choices?
    ensures DigitsAscending(v.cs)
    ensures Ascending(v.Live().value)
  {
    assert Ascending(DIGITS);
  }

  /** `b` is a possible later state of `a`: a given cell is unchanged; an open
      cell keeps its digits and every reason already recorded, and can only
      gain reasons. */
  predicate ValueRefines(a: Value, b: Value)
  {
    match a
    case Given(_) => b == a
    case Choices(cs) =>
      && b.Choices? && |b.cs| == |cs|
      && forall k | 0 <= k < |cs| :: b.cs[k].digit == cs[k].digit && (cs[k].reason.Some? ==> b.cs[k].reason == cs[k].reason)
  }

  /** Value::choices of an open cell lists exactly its live digits, in
      ascending order when the choices are. */
  lemma LiveMeans(v: Value)
    requires v.Choices?
    ensures forall d :: d in v.Live().value <==> v.HasLive(d)
    ensures DigitsAscending(v.cs) ==> Ascending(v.Live().value)
  {
  }

  /** Value::keep leaves its own digit live. */
  lemma KeepLive(v: Value, digit: char, rule: Rule)
    requires v.HasLive(digit)
    ensures v.Keep(digit, rule).HasLive(digit)
  {
    var k :| 0 <= k < |v.cs| && v.cs[k].digit == digit && v.cs[k].reason.None?;
    assert v.Keep(digit, rule).cs[k] == v.cs[k];
  }

  /** Exclusion is monotone: a later state has no live digit the earlier one
      lacked, and keeps the cell's shape. */
  lemma RefinesShrinksLive(a: Value, b: Value, digit: char)
    requires ValueRefines(a, b)
    ensures b.HasLive(digit) ==> a.HasLive(digit)
    ensures a.WellFormed() ==> b.WellFormed()
  {
    if b.HasLive(digit) {
      var k :| 0 <= k < |b.cs| && b.cs[k].digit == digit && b.cs[k].reason.None?;
      assert a.cs[k].digit == digit && a.cs[k].reason.None?;
    }
  }

  /** Value::eliminate and Value::keep only move reasons from None to Some. */
  lemma UpdatesRefine(v: Value, digit: char, rule: Rule)
    ensures ValueRefines(v, v.Eliminate(digit, rule))
    ensures ValueRefines(v, v.Keep(digit, rule))
  {
  }

  lemma RefinesTransitive(a: Value, b: Value, c: Value)
    requires ValueRefines(a, b) && ValueRefines(b, c)
    ensures ValueRefines(a, c)
  {
  }
}
