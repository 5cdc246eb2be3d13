/** The Board of src/bin/sudoku-rust-idioms.rs as an object whose cells are
    updated in place. Each method is proved to leave the board the function
    of IdiomsBoard or IdiomsSolve says, and the properties of those functions
    carry over. */
module Idioms {
  import opened Wrappers
  import opened Digits
  import opened IdiomsValue
  import opened IdiomsBoard
  import opened IdiomsSolve
  import Groups

  /** The loop of Value::keep over an open cell's choices: every live
      choice other than `digit` is tagged with `rule`. */
  method KeepChoices(cs: seq<Choice>, digit: char, rule: Rule) returns (kept: seq<Choice>)
    ensures Choices(kept) == Choices(cs).Keep(digit, rule)
  {
    kept := cs;
    for k := 0 to |cs|
      invariant |kept| == |cs|
      invariant forall j | 0 <= j < |cs| :: kept[j] == if j < k then KeepChoice(cs[j], digit, rule) else cs[j]
    {
      var choice := kept[k];
      if choice.reason.None? && choice.digit != digit {
        kept := kept[k := choice.(reason := Some(rule))];
      }
    }
    KeepEach(Choices(cs), kept, digit, rule);
  }

  /** The first loop of Board::solve over the cells: every open cell with
      exactly one live digit becomes a given of that digit. */
  method DecideCells(values: seq<Value>) returns (decided: seq<Value>)
    ensures decided == Promote(values)
  {
    decided := values;
    for i := 0 to |decided|
      invariant |decided| == |values|
      invariant forall j | 0 <= j < i :: decided[j] == Decide(values[j])
      invariant forall j | i <= j < |decided| :: decided[j] == values[j]
    {
      var v := decided[i];
      if v.Live().Some? && |v.Live().value| == 1 {
        decided := decided[i := Given(v.Live().value[0])];
      }
    }
    PromoteFrom(values, decided);
  }

  class Board {
    /** One entry per cell; the source's vector never changes length. */
    var values: seq<Value>

    /** Board::new: 82 open cells, each listing the nine digits live. */
    constructor ()
      ensures values == Blank()
    {
      var open := Default();
      var cells: seq<Value> := [];
      for i := 0 to BOARD_SIZE
        invariant cells == Copies(open, i)
      {
        cells := cells + [open];
      }
      BlankCopies();
      values := cells;
    }

    /** Board::choose: cell `i` becomes a given of `choice` (an index out of
        range panics in the source). */
    method Choose(i: nat, choice: char)
      requires i < |values|
      modifies this
      ensures values == old(values)[i := Given(choice)]
    {
      values := values[i := Given(choice)];
    }

    /** Board::choose_all: every character of `givens` other than '.' is
        chosen at its position; a non-'.' beyond the board panics in the
        source. */
    method ChooseAll(givens: string)
      requires forall i | |values| <= i < |givens| :: givens[i] == '.'
      modifies this
      ensures values == Seed(old(values), givens)
    {
      for i := 0 to |givens|
        invariant values == Seed(old(values), givens[..i])
      {
        SeedSnoc(old(values), givens, i);
        if givens[i] != '.' {
          Choose(i, givens[i]);
        }
      }
      assert givens[..|givens|] == givens;
    }

    /** Value::eliminate on cell `index`, in place: the fold over the live
        choices finds the last one for `digit`, and that choice is tagged. */
    method EliminateAt(index: nat, digit: char, rule: Rule)
      requires index < |values|
      modifies this
      ensures values == old(values)[index := old(values)[index].Eliminate(digit, rule)]
    {
      match values[index]
      case Given(_) =>
      case Choices(cs) =>
        var found: Option<nat> := None;
        for k := 0 to |cs|
          invariant found == LastLive(cs[..k], digit)
        {
          assert cs[..k + 1][..k] == cs[..k];
          if cs[k].reason.None? && cs[k].digit == digit {
            found := Some(k);
          }
        }
        assert cs[..|cs|] == cs;
        if found.Some? {
          var at := found.value;
          values := values[index := Choices(cs[at := cs[at].(reason := Some(rule))])];
        }
    }

    /** Value::keep on cell `index`, in place: the loop tags every live
        choice other than `digit`. */
    method KeepAt(index: nat, digit: char, rule: Rule)
      requires index < |values|
      modifies this
      ensures values == old(values)[index := old(values)[index].Keep(digit, rule)]
    {
      if values[index].Choices? {
        var kept := KeepChoices(values[index].cs, digit, rule);
        values := values[index := Choices(kept)];
      } else {
        assert values[index := values[index]] == values;
      }
    }

    /** Board::eliminate: Value::eliminate on each listed cell in turn. */
    method Eliminate(indexes: seq<nat>, digit: char, rule: Rule)
      requires InBoard(values, indexes)
      modifies this
      ensures values == EliminateAll(old(values), indexes, digit, rule)
    {
      for k := 0 to |indexes|
        invariant |values| == |old(values)|
        invariant values == EliminateAll(old(values), indexes[..k], digit, rule)
      {
        assert indexes[..k + 1][..k] == indexes[..k];
        EliminateAt(indexes[k], digit, rule);
      }
      assert indexes[..|indexes|] == indexes;
    }

    /** Board::eval: the at-most-one loop over every group and every given
        cell in it, then the at-least-one loop over every group and every
        character of "0123456789". On a well-formed board it only adds
        reasons, and afterwards no group lists the character of one of its
        given cells. */
    method Eval()
      requires Groups.Fits(|values|, Groups.SUBSETS)
      modifies this
      ensures values == Evaluated(old(values), Groups.SUBSETS)
      ensures AllWellFormed(old(values)) ==> Refines(old(values), values) && AllWellFormed(values)
      ensures AllWellFormed(old(values)) ==> AtMostOneHolds(values, Groups.SUBSETS)
    {
      EvalOver(Groups.SUBSETS);
    }

    /** The body of Board::eval, with `subsets` for what Board::subsets
        yields: the at-most-one pass, then the at-least-one pass. */
    method EvalOver(subsets: seq<seq<nat>>)
      requires Groups.Fits(|values|, subsets)
      modifies this
      ensures values == Evaluated(old(values), subsets)
      ensures AllWellFormed(old(values)) ==> Refines(old(values), values) && AllWellFormed(values)
      ensures AllWellFormed(old(values)) ==> AtMostOneHolds(values, subsets)
    {
      ghost var start := values;
      AtMostOnePass(subsets);
      AtLeastOnePass(subsets);
      if AllWellFormed(start) {
        EvalSound(start, subsets);
      }
    }

    /** The first loop of Board::eval: for every group in turn, each given
        cell of the group excludes its character from the group's cells. */
    method AtMostOnePass(subsets: seq<seq<nat>>)
      requires Groups.Fits(|values|, subsets)
      modifies this
      ensures values == AtMostOnePhase(old(values), subsets)
    {
      for g := 0 to |subsets|
        invariant |values| == |old(values)|
        invariant values == AtMostOnePhase(old(values), subsets[..g])
      {
        assert subsets[..g + 1][..g] == subsets[..g];
        AtMostOneIn(subsets[g]);
      }
      assert subsets[..|subsets|] == subsets;
    }

    /** The at-most-one step of Board::eval for one group. */
    method AtMostOneIn(subset: seq<nat>)
      requires InBoard(values, subset)
      modifies this
      ensures values == AtMostOneGroup(old(values), subset, |subset|)
    {
      for p := 0 to |subset|
        invariant |values| == |old(values)|
        invariant values == AtMostOneGroup(old(values), subset, p)
      {
        match values[subset[p]].GivenDigit()
        case Some(d) =>
          var indexes := IndexesOf(values, subset, d);
          Eliminate(indexes, d, AtMostOne);
        case None =>
      }
    }

    /** The second loop of Board::eval: for every group in turn and every
        character of "0123456789", a character listed in exactly one cell of
        the group becomes the only live choice of that cell. */
    method AtLeastOnePass(subsets: seq<seq<nat>>)
      requires Groups.Fits(|values|, subsets)
      modifies this
      ensures values == AtLeastOnePhase(old(values), subsets, EVAL_DIGITS)
    {
      for g := 0 to |subsets|
        invariant |values| == |old(values)|
        invariant values == AtLeastOnePhase(old(values), subsets[..g], EVAL_DIGITS)
      {
        AtLeastOnePhaseSnoc(old(values), subsets, g, EVAL_DIGITS);
        AtLeastOneIn(subsets[g]);
      }
      assert subsets[..|subsets|] == subsets;
    }

    /** The at-least-one step of Board::eval for one group. */
    method AtLeastOneIn(subset: seq<nat>)
      requires InBoard(values, subset)
      modifies this
      ensures values == AtLeastOneGroup(old(values), subset, EVAL_DIGITS)
    {
      var chars := EVAL_DIGITS;
      for n := 0 to |chars|
        invariant |values| == |old(values)|
        invariant values == AtLeastOneGroup(old(values), subset, chars[..n])
      {
        AtLeastOneGroupSnoc(old(values), subset, chars, n);
        AtLeastOneDigit(subset, chars[n]);
      }
      assert chars[..|chars|] == chars;
    }

    /** The body of that loop for one character: a digit listed by exactly
        one cell of the group becomes that cell's only live choice. */
    method AtLeastOneDigit(subset: seq<nat>, digit: char)
      requires InBoard(values, subset)
      modifies this
      ensures values == AtLeastOneAt(old(values), subset, digit)
    {
      var indexes := IndexesOf(values, subset, digit);
      if |indexes| == 1 {
        KeepAt(indexes[0], digit, AtLeastOne);
      }
    }

    /** The first step of a round of Board::solve, in place: every open cell
        with exactly one live digit is replaced by a given of that digit. */
    method PromoteDecided()
      modifies this
      ensures values == Promote(old(values))
    {
      values := DecideCells(values);
    }

    /** One iteration of Board::solve's loop, before its stop test. */
    method RunRound(subsets: seq<seq<nat>>)
      requires Groups.Fits(|values|, subsets)
      modifies this
      ensures values == Round(old(values), subsets)
    {
      PromoteDecided();
      EvalOver(subsets);
    }

    /** Board::solve: at most ten rounds; each promotes every open cell with
        exactly one live digit to a given of that digit, runs Board::eval and
        stops when the board records no exclusion of either rule. Givens never
        change and a well-formed board stays well formed. */
    method Solve()
      requires Groups.Fits(|values|, Groups.SUBSETS)
      modifies this
      ensures values == Solved(RoundStep(Groups.SUBSETS), old(values), MAX_ROUNDS)
      ensures GivensKept(old(values), values)
      ensures AllWellFormed(old(values)) ==> AllWellFormed(values)
    {
      SolveOver(Groups.SUBSETS, MAX_ROUNDS);
    }

    /** The body of Board::solve, with `subsets` for what Board::subsets
        yields and `limit` for its bound of ten rounds. */
    method SolveOver(subsets: seq<seq<nat>>, limit: nat)
      requires Groups.Fits(|values|, subsets)
      modifies this
      ensures values == Solved(RoundStep(subsets), old(values), limit)
      ensures GivensKept(old(values), values)
      ensures AllWellFormed(old(values)) ==> AllWellFormed(values)
    {
      ghost var round := RoundStep(subsets);
      for r := 0 to limit
        invariant |values| == |old(values)|
        invariant Solved(round, values, limit - r) == Solved(round, old(values), limit)
      {
        ghost var start := values;
        RunRound(subsets);
        assert values == round(start);
        var countRule1 := BoardCount(values, AtMostOne);
        var countRule2 := BoardCount(values, AtLeastOne);
        if countRule1 == 0 && countRule2 == 0 {
          assert values == Solved(round, old(values), limit);
          break;
        }
      }
      SolveKeeps(old(values), subsets, limit);
    }
  }
}
