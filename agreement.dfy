/** The two programs apply the at-most-one rule alike: for the same 81
    givens, the candidate string src/bin/sudoku-rust-port.rs keeps for an open
    cell is the list of live digits the Board of
    src/bin/sudoku-rust-idioms.rs has for that cell after the first loop of
    Board::eval. */
module Agreement {
  import opened Wrappers
  import opened Digits
  import opened IdiomsValue
  import opened IdiomsBoard
  import Port
  import Groups

  /** For any table of groups over the 81 cells: seeding a board of fresh
      cells with `givens` and running the at-most-one loop leaves each open
      cell with the live digits the port's loop leaves in its candidate
      string. */
  lemma AtMostOneAgreesOver(blank: seq<Value>, givens: string, subsets: seq<seq<nat>>)
    requires |givens| == Groups.CELLS <= |blank| && Groups.Fits(Groups.CELLS, subsets)
    requires forall i | 0 <= i < |blank| :: blank[i] == Default()
    ensures forall j | 0 <= j < Groups.CELLS && givens[j] == '.' ::
              AtMostOnePhase(Seed(blank, givens), subsets)[j].Live()
                == Some(Port.AtMostOnePass(Port.Initial(), givens, subsets)[j])
  {
    var values := Seed(blank, givens);
    var after := AtMostOnePhase(values, subsets);
    var choices := Port.AtMostOnePass(Port.Initial(), givens, subsets);
    SameGivensAll(blank, givens, subsets);
    AtMostOneLive(values, subsets);
    AtMostOnePhaseSound(values, subsets);
    Port.AtMostOneCandidates(givens, subsets);
    AgreesAll(values, after, choices, givens, subsets);
  }

  /** Every open cell: a board of fresh open cells refined by the
      at-most-one loop, and the port's candidate strings, agree wherever the
      two see the same givens. */
  lemma AgreesAll(values: seq<Value>, after: seq<Value>, choices: seq<string>, givens: string, subsets: seq<seq<nat>>)
    requires |givens| == |choices| == Groups.CELLS <= |values|
    requires Groups.Fits(|values|, subsets) && Groups.Fits(|givens|, subsets)
    requires forall j | 0 <= j < Groups.CELLS && givens[j] == '.' :: values[j] == Default()
    requires AllWellFormed(values) && Refines(values, after) && Port.AllWellFormed(choices)
    requires forall j, c | 0 <= j < |values| ::
               after[j].HasLive(c) <==> values[j].HasLive(c) && !GivenInGroup(values, subsets, j, c)
    requires forall j, c | 0 <= j < Groups.CELLS ::
               c in choices[j] <==> c in DIGITS && !Port.Forbidden(givens, subsets, j, c)
    requires forall j, c | c != '.' :: GivenInGroup(values, subsets, j, c) <==> Port.Forbidden(givens, subsets, j, c)
    ensures forall j | 0 <= j < Groups.CELLS && givens[j] == '.' :: after[j].Live() == Some(choices[j])
  {
    RefinesKeeps(values, after);
    forall j | 0 <= j < Groups.CELLS && givens[j] == '.'
      ensures after[j].Live() == Some(choices[j])
    {
      assert values[j] == Default();
      AgreesAt(values, after, choices, givens, subsets, j);
    }
  }

  /** One open cell: when the idioms board keeps exactly the live digits of
      a fresh cell that no group gives, and the port keeps exactly the digits
      it does not see given, the two agree once the givens agree. */
  lemma AgreesAt(values: seq<Value>, after: seq<Value>, choices: seq<string>, givens: string, subsets: seq<seq<nat>>, j: nat)
    requires j < |values| && j < |after| && j < |choices| && j < |givens|
    requires Groups.Fits(|values|, subsets) && Groups.Fits(|givens|, subsets)
    requires values[j].Live() == Some(DIGITS) && after[j].Choices? && after[j].WellFormed()
    requires Port.WellFormed(choices[j])
    requires forall c :: after[j].HasLive(c) <==> values[j].HasLive(c) && !GivenInGroup(values, subsets, j, c)
    requires forall c :: c in choices[j] <==> c in DIGITS && !Port.Forbidden(givens, subsets, j, c)
    requires forall c | c != '.' :: GivenInGroup(values, subsets, j, c) <==> Port.Forbidden(givens, subsets, j, c)
    ensures after[j].Live() == Some(choices[j])
  {
    var live := after[j].Live().value;
    forall c ensures c in live <==> c in choices[j] {
      assert c in live <==> after[j].HasLive(c);
      assert values[j].HasLive(c) <==> c in DIGITS;
      if c in DIGITS {
        assert c != '.';
      }
    }
    WellFormedAscending(after[j]);
    AscendingEqual(live, choices[j]);
  }

  /** A digit is given in a group of a board whose first cells are given
      exactly where `givens` says so exactly when the port sees it among the
      givens of that group. */
  lemma SameGivens(givens: string, values: seq<Value>, subsets: seq<seq<nat>>, j: nat, c: char)
    requires |givens| <= |values| && Groups.Fits(|givens|, subsets) && c != '.'
    requires forall i | 0 <= i < |givens| :: values[i] == Given(c) <==> givens[i] == c
    ensures GivenInGroup(values, subsets, j, c) <==> Port.Forbidden(givens, subsets, j, c)
  {
    if GivenInGroup(values, subsets, j, c) {
      var g, k :| 0 <= g < |subsets| && 0 <= k < |subsets[g]| && j in subsets[g] && values[subsets[g][k]] == Given(c);
      assert Port.SeesGiven(givens, subsets[g], |subsets[g]|, j, c);
    }
    if Port.Forbidden(givens, subsets, j, c) {
      var g :| 0 <= g < |subsets| && Port.SeesGiven(givens, subsets[g], |subsets[g]|, j, c);
      var k :| 0 <= k < |subsets[g]| && givens[subsets[g][k]] == c;
      assert values[subsets[g][k]] == Given(c);
    }
  }

  /** SameGivens for the seeded board, every cell and every character other
      than '.'. */
  lemma SameGivensAll(blank: seq<Value>, givens: string, subsets: seq<seq<nat>>)
    requires |givens| == Groups.CELLS <= |blank| && Groups.Fits(Groups.CELLS, subsets)
    requires forall i | 0 <= i < |blank| :: blank[i] == Default()
    ensures forall j, c | c != '.' ::
              GivenInGroup(Seed(blank, givens), subsets, j, c) <==> Port.Forbidden(givens, subsets, j, c)
  {
    var values := Seed(blank, givens);
    forall j, c | c != '.'
      ensures GivenInGroup(values, subsets, j, c) <==> Port.Forbidden(givens, subsets, j, c)
    {
      forall i | 0 <= i < |givens| ensures values[i] == Given(c) <==> givens[i] == c {
        if givens[i] == '.' {
          assert values[i] == blank[i];
        }
      }
      SameGivens(givens, values, subsets, j, c);
    }
  }

  /** A fresh idioms board seeded with `givens`, after the at-most-one loop
      of Board::eval over the 27 groups. */
  function SeededAtMostOne(givens: string): (r: seq<Value>)
    requires |givens| <= BOARD_SIZE
    ensures |r| == BOARD_SIZE
  {
    Groups.SubsetsFit(BOARD_SIZE);
    AtMostOnePhase(Seed(Blank(), givens), Groups.SUBSETS)
  }

  /** The two programs, on the same 81 givens and the 27 groups: every open
      cell's candidate string in the port is the idioms board's list of live
      digits for it after the at-most-one loop of Board::eval. */
  lemma AtMostOneAgrees(givens: string)
    requires |givens| == Groups.CELLS
    ensures forall j | 0 <= j < Groups.CELLS && givens[j] == '.' ::
              SeededAtMostOne(givens)[j].Live() == Some(Port.PortChoices(givens)[j])
  {
    var subsets := Groups.SUBSETS;
    var blank := Blank();
    Groups.SubsetsFit(Groups.CELLS);
    Port.PadFixed(givens);
    assert Port.PortChoices(givens) == Port.AtMostOnePass(Port.Initial(), givens, subsets);
    assert SeededAtMostOne(givens) == AtMostOnePhase(Seed(blank, givens), subsets);
    AtMostOneAgreesOver(blank, givens, subsets);
  }
}
