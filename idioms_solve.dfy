/** The driver loop of Board::solve in src/bin/sudoku-rust-idioms.rs, as
    functions of the board: each round promotes decided cells to givens and
    runs Board::eval, and the loop stops after a round that recorded no
    exclusion at all, or after ten rounds.

    The loop is stated for any round function `round`, so that its stop
    rule is proved once; RoundStep(subsets) is the round Board::solve runs. */
module IdiomsSolve {
  import opened Wrappers
  import opened Digits
  import opened IdiomsValue
  import opened IdiomsBoard
  import Groups

  /** A cell as the first step of a round leaves it: an open cell with
      exactly one live digit becomes a given of that digit. */
  function Decide(v: Value): (r: Value)
    ensures v.Given? ==> r == v
    ensures v.Choices? && |v.Live().value| == 1 ==> r == Given(v.Live().value[0])
    ensures v.Choices? && |v.Live().value| != 1 ==> r == v
  {
    match v.Live()
    case Some(live) => if |live| == 1 then Given(live[0]) else v
    case None => v
  }

  /** The first step of a round of Board::solve, applied to every cell. */
  function Promote(values: seq<Value>): (r: seq<Value>)
    ensures |r| == |values|
    ensures forall i | 0 <= i < |values| :: r[i] == Decide(values[i])
  {
    seq(|values|, i requires 0 <= i < |values| => Decide(values[i]))
  }

  /** A board that holds Decide of every cell of `values` is Promote(values). */
  lemma PromoteFrom(values: seq<Value>, decided: seq<Value>)
    requires |decided| == |values|
    requires forall j | 0 <= j < |values| :: decided[j] == Decide(values[j])
    ensures decided == Promote(values)
  {
  }

  /** One round of Board::solve: promote, then Board::eval over `subsets`.
      A board the groups do not fit is left alone; Board::solve only ever
      runs on 82 cells, which the 27 groups fit. */
  function Round(values: seq<Value>, subsets: seq<seq<nat>>): (r: seq<Value>)
    ensures |r| == |values|
  {
    if Groups.Fits(|values|, subsets) then Evaluated(Promote(values), subsets) else values
  }

  /** Round as a function value, for the loop below. */
  function RoundStep(subsets: seq<seq<nat>>): seq<Value> -> seq<Value>
  {
    values => Round(values, subsets)
  }

  /** The stop test of Board::solve: no exclusion of either rule is recorded
      anywhere on the board. */
  predicate Quiet(values: seq<Value>)
  {
    BoardCount(values, AtMostOne) == 0 && BoardCount(values, AtLeastOne) == 0
  }

  /** The board after Board::solve's loop with `n` iterations left. */
  function Solved(round: seq<Value> -> seq<Value>, values: seq<Value>, n: nat): seq<Value>
    decreases n
  {
    if n == 0 then values
    else
      var next := round(values);
      if Quiet(next) then next else Solved(round, next, n - 1)
  }

  /** How many iterations Board::solve's loop runs with `n` iterations left. */
  function RoundsRun(round: seq<Value> -> seq<Value>, values: seq<Value>, n: nat): (k: nat)
    ensures k <= n
    ensures n > 0 ==> k >= 1
    decreases n
  {
    if n == 0 then 0
    else
      var next := round(values);
      if Quiet(next) then 1 else 1 + RoundsRun(round, next, n - 1)
  }

  /** `k` rounds run one after the other, with no stop test. */
  function Rounds(round: seq<Value> -> seq<Value>, values: seq<Value>, k: nat): seq<Value>
    decreases k
  {
    if k == 0 then values else Rounds(round, round(values), k - 1)
  }

  // ---------------------------------------------------------------------
  // The stop rule, for any round function.

  /** Running `k + 1` rounds is one round followed by `k` more. */
  lemma RoundsFirst(round: seq<Value> -> seq<Value>, values: seq<Value>, k: nat)
    ensures Rounds(round, values, k + 1) == Rounds(round, round(values), k)
  {
  }

  /** The loop runs `RoundsRun` rounds: its result is that many rounds applied
      in a row, no earlier round was quiet, and it stopped before its bound
      only because the last round was quiet. */
  lemma StopRule(round: seq<Value> -> seq<Value>, values: seq<Value>, n: nat)
    ensures Solved(round, values, n) == Rounds(round, values, RoundsRun(round, values, n))
    ensures forall j | 1 <= j < RoundsRun(round, values, n) :: !Quiet(Rounds(round, values, j))
    ensures RoundsRun(round, values, n) < n ==> Quiet(Rounds(round, values, RoundsRun(round, values, n)))
  {
    StopResult(round, values, n);
    StopNotEarly(round, values, n);
    StopQuiet(round, values, n);
  }

  /** The loop's result is the board after the rounds it ran. */
  lemma {:induction false} StopResult(round: seq<Value> -> seq<Value>, values: seq<Value>, n: nat)
    ensures Solved(round, values, n) == Rounds(round, values, RoundsRun(round, values, n))
    decreases n
  {
    if n > 0 && !Quiet(round(values)) {
      StopResult(round, round(values), n - 1);
    }
  }

  /** No round before the last one the loop ran was quiet. */
  lemma {:induction false} StopNotEarly(round: seq<Value> -> seq<Value>, values: seq<Value>, n: nat)
    ensures forall j | 1 <= j < RoundsRun(round, values, n) :: !Quiet(Rounds(round, values, j))
    decreases n
  {
    if n > 0 {
      var next := round(values);
      if !Quiet(next) {
        StopNotEarly(round, next, n - 1);
        var k := RoundsRun(round, next, n - 1);
        forall j | 1 <= j < k + 1 ensures !Quiet(Rounds(round, values, j)) {
          RoundsFirst(round, values, j - 1);
        }
      }
    }
  }

  /** A loop that ran fewer rounds than its bound stopped on a quiet round. */
  lemma {:induction false} StopQuiet(round: seq<Value> -> seq<Value>, values: seq<Value>, n: nat)
    ensures RoundsRun(round, values, n) < n ==> Quiet(Rounds(round, values, RoundsRun(round, values, n)))
    decreases n
  {
    if n > 0 {
      var next := round(values);
      if Quiet(next) {
        assert RoundsRun(round, values, n) == 1;
        assert Rounds(round, values, RoundsRun(round, values, n)) == next;
      } else {
        var k := RoundsRun(round, next, n - 1);
        StopQuiet(round, next, n - 1);
        assert RoundsRun(round, values, n) == k + 1;
        RoundsFirst(round, values, k);
        assert Rounds(round, values, RoundsRun(round, values, n)) == Rounds(round, next, k);
      }
    }
  }

  /** A round that changes nothing and records nothing ends the loop at once:
      one iteration, and the board is returned as it was. */
  lemma QuietFixpoint(round: seq<Value> -> seq<Value>, values: seq<Value>, n: nat)
    requires n > 0 && round(values) == values && Quiet(values)
    ensures Solved(round, values, n) == values
    ensures RoundsRun(round, values, n) == 1
  {
  }

  // ---------------------------------------------------------------------
  // Givens persist.

  /** Every cell given in `a` is given, with the same character, in `b`. */
  predicate GivensKept(a: seq<Value>, b: seq<Value>)
  {
    |a| == |b| && forall i | 0 <= i < |a| && a[i].Given? :: b[i] == a[i]
  }

  lemma {:induction false} SolvedKeeps(round: seq<Value> -> seq<Value>, values: seq<Value>, n: nat)
    requires forall v :: GivensKept(v, round(v))
    requires forall v :: AllWellFormed(v) ==> AllWellFormed(round(v))
    ensures GivensKept(values, Solved(round, values, n))
    ensures AllWellFormed(values) ==> AllWellFormed(Solved(round, values, n))
    decreases n
  {
    if n > 0 {
      var next := round(values);
      assert GivensKept(values, next);
      if !Quiet(next) {
        SolvedKeeps(round, next, n - 1);
      }
    }
  }

  /** A round of Board::solve keeps every given and keeps a well-formed
      board well formed. */
  lemma RoundKeeps(values: seq<Value>, subsets: seq<seq<nat>>)
    ensures GivensKept(values, Round(values, subsets))
    ensures AllWellFormed(values) ==> AllWellFormed(Round(values, subsets))
  {
    if Groups.Fits(|values|, subsets) {
      var promoted := Promote(values);
      var after := Evaluated(promoted, subsets);
      EvalRefines(promoted, subsets);
      KeepsThrough(values, promoted, after);
      assert Round(values, subsets) == after;
    }
  }

  /** Promoting decided cells and then only adding reasons keeps every given
      and keeps a well-formed board well formed. */
  lemma KeepsThrough(values: seq<Value>, promoted: seq<Value>, after: seq<Value>)
    requires |promoted| == |values| && forall i | 0 <= i < |values| :: promoted[i] == Decide(values[i])
    requires Refines(promoted, after)
    ensures GivensKept(values, after)
    ensures AllWellFormed(values) ==> AllWellFormed(after)
  {
    RefinesKeeps(promoted, after);
  }

  /** Board::solve never changes or reopens a given cell, and keeps a
      well-formed board well formed. */
  lemma SolveKeeps(values: seq<Value>, subsets: seq<seq<nat>>, n: nat)
    ensures GivensKept(values, Solved(RoundStep(subsets), values, n))
    ensures AllWellFormed(values) ==> AllWellFormed(Solved(RoundStep(subsets), values, n))
  {
    var round := RoundStep(subsets);
    forall v ensures GivensKept(v, round(v)) && (AllWellFormed(v) ==> AllWellFormed(round(v))) {
      RoundKeeps(v, subsets);
    }
    SolvedKeeps(round, values, n);
  }

  /** The stop test reads "every open cell has all its choices live": the
      counts are cumulative reasons, not the reasons added by this round. */
  lemma QuietMeans(values: seq<Value>)
    ensures Quiet(values) <==>
              forall i, k | 0 <= i < |values| && values[i].Choices? && 0 <= k < |values[i].cs| ::
                values[i].cs[k].reason.None?
  {
    if Quiet(values) {
      forall i, k | 0 <= i < |values| && values[i].Choices? && 0 <= k < |values[i].cs|
        ensures values[i].cs[k].reason.None?
      {
        var v := values[i];
        assert v.Count(AtMostOne) == 0 && v.Count(AtLeastOne) == 0;
        assert v.cs[k].reason != Some(AtMostOne) && v.cs[k].reason != Some(AtLeastOne);
        match v.cs[k].reason
        case None =>
        case Some(rule) =>
          match rule
          case AtMostOne =>
          case AtLeastOne =>
      }
    }
  }

  // ---------------------------------------------------------------------
  // Blank and full boards.

  /** On a board whose every cell is the same open cell with the nine
      digits live and nothing excluded, a round changes nothing and the board
      is quiet, provided no group is a single cell. */
  lemma OpenBoardIdle(values: seq<Value>, subsets: seq<seq<nat>>, open: Value)
    requires Groups.Fits(|values|, subsets)
    requires forall g | 0 <= g < |subsets| :: |subsets[g]| != 1
    requires open.WellFormed() && open.Live() == Some(DIGITS)
    requires open.Count(AtMostOne) == 0 && open.Count(AtLeastOne) == 0
    requires forall i | 0 <= i < |values| :: values[i] == open
    ensures Round(values, subsets) == values
    ensures Quiet(values)
  {
    assert Promote(values) == values;
    OpenGroupsIdle(values, subsets, open);
    EvalIdle(values, subsets);
  }

  /** On such a board no group lists any character of "0123456789" in exactly
      one cell. */
  lemma OpenGroupsIdle(values: seq<Value>, subsets: seq<seq<nat>>, open: Value)
    requires Groups.Fits(|values|, subsets)
    requires forall g | 0 <= g < |subsets| :: |subsets[g]| != 1
    requires open.WellFormed() && open.Live() == Some(DIGITS)
    requires forall i | 0 <= i < |values| :: values[i] == open
    ensures forall g, j | 0 <= g < |subsets| && 0 <= j < |EVAL_DIGITS| ::
              |IndexesOf(values, subsets[g], EVAL_DIGITS[j])| != 1
  {
    forall g, j | 0 <= g < |subsets| && 0 <= j < |EVAL_DIGITS|
      ensures |IndexesOf(values, subsets[g], EVAL_DIGITS[j])| != 1
    {
      OpenIndexes(values, subsets[g], EVAL_DIGITS[j], open);
      assert EVAL_DIGITS[j] in DIGITS <==> j != 0;
    }
  }

  /** In a group of open cells with the nine digits live, Board::indexes_of
      returns the whole group for a digit 1..9 and nothing otherwise. */
  lemma OpenIndexes(values: seq<Value>, subset: seq<nat>, digit: char, open: Value)
    requires InBoard(values, subset)
    requires open.WellFormed() && open.Live() == Some(DIGITS)
    requires forall k | 0 <= k < |subset| :: values[subset[k]] == open
    ensures digit in DIGITS ==> IndexesOf(values, subset, digit) == subset
    ensures digit !in DIGITS ==> IndexesOf(values, subset, digit) == []
  {
    ListedIsLive(open, digit);
    IndexesOfAllOrNone(values, subset, digit);
  }

  /** On a board whose every grouped cell is given and whose other cells are
      open with the nine digits live, a round changes nothing and the board
      is quiet, whatever characters the givens are. */
  lemma ClosedBoardIdle(values: seq<Value>, subsets: seq<seq<nat>>)
    requires Groups.Fits(|values|, subsets)
    requires forall g, k | 0 <= g < |subsets| && 0 <= k < |subsets[g]| :: values[subsets[g][k]].Given?
    requires forall i | 0 <= i < |values| && values[i].Choices? :: values[i] == Default()
    ensures Round(values, subsets) == values
    ensures Quiet(values)
  {
    assert Promote(values) == values;
    forall g, c | 0 <= g < |subsets|
      ensures IndexesOf(values, subsets[g], c) == []
    {
      IndexesOfAllOrNone(values, subsets[g], c);
    }
    EvalIdle(values, subsets);
  }

  /** An all-'.' input: Board::solve stops after its first round, with every
      cell still open and all nine digits live. */
  lemma BlankSolve(givens: string)
    requires forall i | 0 <= i < |givens| :: givens[i] == '.'
    ensures Seed(Blank(), givens) == Blank()
    ensures Solved(RoundStep(Groups.SUBSETS), Seed(Blank(), givens), MAX_ROUNDS) == Blank()
    ensures RoundsRun(RoundStep(Groups.SUBSETS), Seed(Blank(), givens), MAX_ROUNDS) == 1
  {
    Groups.SubsetSizes();
    Groups.SubsetsFit(BOARD_SIZE);
    BlankSolveOver(Blank(), givens, Groups.SUBSETS, MAX_ROUNDS);
  }

  /** BlankSolve for any board of fresh open cells, any groups of more than
      one cell and any positive bound on the rounds. */
  lemma BlankSolveOver(blank: seq<Value>, givens: string, subsets: seq<seq<nat>>, n: nat)
    requires forall i | 0 <= i < |givens| :: givens[i] == '.'
    requires forall i | 0 <= i < |blank| :: blank[i] == Default()
    requires Groups.Fits(|blank|, subsets) && forall g | 0 <= g < |subsets| :: |subsets[g]| != 1
    requires n > 0
    ensures Seed(blank, givens) == blank
    ensures Solved(RoundStep(subsets), Seed(blank, givens), n) == blank
    ensures RoundsRun(RoundStep(subsets), Seed(blank, givens), n) == 1
  {
    assert Seed(blank, givens) == blank;
    OpenBoardIdle(blank, subsets, Default());
    QuietFixpoint(RoundStep(subsets), blank, n);
  }

  /** Seeding a board of open cells with givens that cover every grouped cell
      leaves nothing for a round to do. */
  lemma SeededFullIdle(blank: seq<Value>, givens: string, subsets: seq<seq<nat>>)
    requires |givens| <= |blank| && Groups.Fits(|givens|, subsets)
    requires forall i | 0 <= i < |givens| :: givens[i] != '.'
    requires forall i | 0 <= i < |blank| :: blank[i] == Default()
    ensures Round(Seed(blank, givens), subsets) == Seed(blank, givens)
    ensures Quiet(Seed(blank, givens))
  {
    var board := Seed(blank, givens);
    assert Groups.Fits(|board|, subsets);
    ClosedBoardIdle(board, subsets);
  }

  /** A full input of 81 non-'.' characters: Board::solve stops after its
      first round and leaves the board as seeded, whether or not the givens
      are a valid solution. */
  lemma FullSolve(givens: string)
    requires |givens| == Groups.CELLS && forall i | 0 <= i < |givens| :: givens[i] != '.'
    ensures Solved(RoundStep(Groups.SUBSETS), Seed(Blank(), givens), MAX_ROUNDS) == Seed(Blank(), givens)
    ensures RoundsRun(RoundStep(Groups.SUBSETS), Seed(Blank(), givens), MAX_ROUNDS) == 1
  {
    var blank := Blank();
    var subsets := Groups.SUBSETS;
    var board := Seed(blank, givens);
    Groups.SubsetsFit(|givens|);
    SeededFullIdle(blank, givens, subsets);
    var round := RoundStep(subsets);
    assert round(board) == board;
    QuietFixpoint(round, board, MAX_ROUNDS);
  }
}
