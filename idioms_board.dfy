/** The board of src/bin/sudoku-rust-idioms.rs: 82 cells, of which 0..80
    belong to the 27 groups, and the two deduction rules run over them. The
    functions here give each board operation's result as a value; the Board
    class below runs the same operations in place and is proved to produce
    those results. */
module IdiomsBoard {
  import opened Wrappers
  import opened Digits
  import opened IdiomsValue
  import Groups

  /** Board::new allocates one cell more than the groups use. */
  const BOARD_SIZE: nat := 82

  /** The characters the at-least-one loop of Board::eval walks through;
      '0' is never a candidate. */
  const EVAL_DIGITS: string := "0123456789"

  /** The iteration bound of Board::solve. */
  const MAX_ROUNDS: nat := 10

  /** The board Board::new builds: every cell open with the nine digits live. */
  function Blank(): (b: seq<Value>)
    ensures |b| == BOARD_SIZE
    ensures forall i | 0 <= i < |b| :: b[i] == Default()
  {
    var open := Default();
    seq(BOARD_SIZE, _ => open)
  }

  /** `n` copies of `v`, pushed one after another. */
  function Copies(v: Value, n: nat): (r: seq<Value>)
    ensures |r| == n
    ensures forall j | 0 <= j < n :: r[j] == v
  {
    if n == 0 then [] else Copies(v, n - 1) + [v]
  }

  /** Pushing the default value BOARD_SIZE times builds the blank board. */
  lemma BlankCopies()
    ensures Copies(Default(), BOARD_SIZE) == Blank()
  {
  }

  /** Every cell is a given or lists the digits 1..9 in order. */
  predicate AllWellFormed(values: seq<Value>)
  {
    forall i | 0 <= i < |values| :: values[i].WellFormed()
  }

  /** The board after Board::choose_all(givens): cell i becomes Given(givens[i])
      for every character that is not '.', whatever that character is. */
  function Seed(values: seq<Value>, givens: string): (r: seq<Value>)
    requires forall i | |values| <= i < |givens| :: givens[i] == '.'
    ensures |r| == |values|
    ensures forall i | 0 <= i < |givens| && givens[i] != '.' :: r[i] == Given(givens[i])
    ensures forall i | 0 <= i < |values| && (i >= |givens| || givens[i] == '.') :: r[i] == values[i]
  {
    seq(|values|, i requires 0 <= i < |values| => if i < |givens| && givens[i] != '.' then Given(givens[i]) else values[i])
  }

  /** Seeding with one more character of `givens` sets that one cell when
      it is not '.'. */
  lemma SeedSnoc(values: seq<Value>, givens: string, i: nat)
    requires i < |givens| && forall k | |values| <= k < |givens| :: givens[k] == '.'
    ensures givens[i] != '.' ==>
              (i < |values| && Seed(values, givens[..i + 1]) == Seed(values, givens[..i])[i := Given(givens[i])])
    ensures givens[i] == '.' ==> Seed(values, givens[..i + 1]) == Seed(values, givens[..i])
  {
    var before := Seed(values, givens[..i]);
    var after := Seed(values, givens[..i + 1]);
    assert forall j | 0 <= j < |values| && j != i :: after[j] == before[j];
  }

  /** Board::givens: each given character, '.' for an open cell. */
  function Givens(values: seq<Value>): (r: string)
    ensures |r| == |values|
    ensures forall i | 0 <= i < |values| :: r[i] == match values[i] case Given(g) => g case Choices(_) => '.'
    decreases |values|
  {
    if values == [] then []
    else
      var c := match values[0] case Given(g) => g case Choices(_) => '.';
      assert forall i | 1 <= i < |values| :: values[i] == values[1..][i - 1];
      [c] + Givens(values[1..])
  }

  /** Board::count: the exclusions `rule` has recorded over the whole board. */
  function BoardCount(values: seq<Value>, rule: Rule): (n: nat)
    ensures n == 0 <==> forall i | 0 <= i < |values| :: values[i].Count(rule) == 0
    decreases |values|
  {
    if values == [] then 0
    else
      var rest := BoardCount(values[1..], rule);
      assert rest == 0 <==> forall i | 1 <= i < |values| :: values[i].Count(rule) == 0 by {
        assert forall i | 1 <= i < |values| :: values[i] == values[1..][i - 1];
      }
      values[0].Count(rule) + rest
  }

  /** Every index of `subset` is a cell of the board. */
  predicate InBoard(values: seq<Value>, subset: seq<nat>)
  {
    forall k | 0 <= k < |subset| :: subset[k] < |values|
  }

  /** The test Board::indexes_of applies to a cell: it is open and the binary
      search finds `digit` among its live choices. */
  predicate Listed(v: Value, digit: char)
  {
    v.Choices? && Search(LiveDigits(v.cs), digit)
  }

  /** Board::indexes_of: the cells of `subset`, in order, that list `digit`. */
  function IndexesOf(values: seq<Value>, subset: seq<nat>, digit: char): (r: seq<nat>)
    requires InBoard(values, subset)
    ensures |r| <= |subset| && InBoard(values, r)
    ensures forall i {:trigger i in r} :: i in r <==> i in subset && Listed(values[i], digit)
    decreases |subset|
  {
    if subset == [] then []
    else
      var rest := IndexesOf(values, subset[1..], digit);
      assert forall i :: i in subset <==> i == subset[0] || i in subset[1..];
      if Listed(values[subset[0]], digit) then [subset[0]] + rest else rest
  }

  /** When every cell of the group lists the digit, Board::indexes_of returns
      the whole group; when none does, it returns nothing. */
  lemma {:induction false} IndexesOfAllOrNone(values: seq<Value>, subset: seq<nat>, digit: char)
    requires InBoard(values, subset)
    ensures (forall k | 0 <= k < |subset| :: Listed(values[subset[k]], digit)) ==> IndexesOf(values, subset, digit) == subset
    ensures (forall k | 0 <= k < |subset| :: !Listed(values[subset[k]], digit)) ==> IndexesOf(values, subset, digit) == []
    decreases |subset|
  {
    if subset != [] {
      IndexesOfAllOrNone(values, subset[1..], digit);
      assert forall k | 1 <= k < |subset| :: subset[k] == subset[1..][k - 1];
      assert [subset[0]] + subset[1..] == subset;
    }
  }

  /** For each position of the group, whether its cell lists the digit. */
  function ListedAt(values: seq<Value>, subset: seq<nat>, digit: char): (r: seq<bool>)
    requires InBoard(values, subset)
    ensures |r| == |subset| && forall k | 0 <= k < |subset| :: r[k] == Listed(values[subset[k]], digit)
  {
    seq(|subset|, k requires 0 <= k < |subset| => Listed(values[subset[k]], digit))
  }

  /** How many flags are set. */
  function Trues(flags: seq<bool>): (n: nat)
    ensures n <= |flags|
    ensures n == 0 <==> forall k | 0 <= k < |flags| :: !flags[k]
    decreases |flags|
  {
    if flags == [] then 0
    else
      assert forall k | 1 <= k < |flags| :: flags[k] == flags[1..][k - 1];
      (if flags[0] then 1 else 0) + Trues(flags[1..])
  }

  /** Exactly one flag is set. */
  predicate Sole(flags: seq<bool>)
  {
    exists k | 0 <= k < |flags| :: flags[k] && forall k' | 0 <= k' < |flags| && k' != k :: !flags[k']
  }

  /** Sole in terms of the first flag and the rest. */
  lemma SoleCons(flags: seq<bool>)
    requires flags != []
    ensures flags[0] ==> (Sole(flags) <==> forall k | 0 <= k < |flags[1..]| :: !flags[1..][k])
    ensures !flags[0] ==> (Sole(flags) <==> Sole(flags[1..]))
  {
    var tail := flags[1..];
    if flags[0] {
      if forall k | 0 <= k < |tail| :: !tail[k] {
        assert forall k' | 0 <= k' < |flags| && k' != 0 :: !flags[k'] by {
          forall k' | 0 <= k' < |flags| && k' != 0 ensures !flags[k'] {
            assert flags[k'] == tail[k' - 1];
          }
        }
      }
      if Sole(flags) {
        forall k | 0 <= k < |tail| ensures !tail[k] {
          assert tail[k] == flags[k + 1];
        }
      }
    } else {
      if Sole(flags) {
        var k :| 0 <= k < |flags| && flags[k] && forall k' | 0 <= k' < |flags| && k' != k :: !flags[k'];
        assert tail[k - 1] && forall k' | 0 <= k' < |tail| && k' != k - 1 :: !tail[k'] by {
          forall k' | 0 <= k' < |tail| && k' != k - 1 ensures !tail[k'] {
            assert tail[k'] == flags[k' + 1];
          }
        }
      }
      if Sole(tail) {
        var k :| 0 <= k < |tail| && tail[k] && forall k' | 0 <= k' < |tail| && k' != k :: !tail[k'];
        assert flags[k + 1] && forall k' | 0 <= k' < |flags| && k' != k + 1 :: !flags[k'] by {
          forall k' | 0 <= k' < |flags| && k' != k + 1 ensures !flags[k'] {
            if k' > 0 {
              assert flags[k'] == tail[k' - 1];
            }
          }
        }
      }
    }
  }

  /** Board::indexes_of yields nothing iff no position of the group lists
      the digit. */
  lemma IndexesOfNone(values: seq<Value>, subset: seq<nat>, digit: char)
    requires InBoard(values, subset)
    ensures IndexesOf(values, subset, digit) == [] <==> forall k | 0 <= k < |subset| :: !Listed(values[subset[k]], digit)
  {
    var r := IndexesOf(values, subset, digit);
    if r == [] {
      forall k | 0 <= k < |subset| ensures !Listed(values[subset[k]], digit) {
        assert subset[k] in subset && subset[k] !in r;
      }
    } else {
      assert r[0] in r;
    }
  }

  /** The elements of `xs` whose flag is set, in order. */
  function Filter(xs: seq<nat>, flags: seq<bool>): (r: seq<nat>)
    requires |xs| == |flags|
    decreases |xs|
  {
    if xs == [] then []
    else (if flags[0] then [xs[0]] else []) + Filter(xs[1..], flags[1..])
  }

  /** A filter keeps one element per set flag. */
  lemma {:induction false} FilterCount(xs: seq<nat>, flags: seq<bool>)
    requires |xs| == |flags|
    ensures |Filter(xs, flags)| == Trues(flags)
    decreases |xs|
  {
    if xs != [] {
      FilterCount(xs[1..], flags[1..]);
    }
  }

  /** Exactly one flag is set iff one flag is counted. */
  lemma {:induction false} TruesOne(flags: seq<bool>)
    ensures Trues(flags) == 1 <==> Sole(flags)
    decreases |flags|
  {
    if flags != [] {
      TruesOne(flags[1..]);
      SoleCons(flags);
    }
  }

  /** Board::indexes_of is the in-order filter of the group by whether each
      position's cell lists the digit. */
  lemma {:induction false} IndexesOfFilter(values: seq<Value>, subset: seq<nat>, digit: char)
    requires InBoard(values, subset)
    ensures IndexesOf(values, subset, digit) == Filter(subset, ListedAt(values, subset, digit))
    decreases |subset|
  {
    if subset != [] {
      IndexesOfFilter(values, subset[1..], digit);
      assert ListedAt(values, subset[1..], digit) == ListedAt(values, subset, digit)[1..];
    }
  }

  /** Board::indexes_of yields one index per position of the group whose
      cell lists the digit. */
  lemma IndexesOfCount(values: seq<Value>, subset: seq<nat>, digit: char)
    requires InBoard(values, subset)
    ensures |IndexesOf(values, subset, digit)| == Trues(ListedAt(values, subset, digit))
  {
    IndexesOfFilter(values, subset, digit);
    FilterCount(subset, ListedAt(values, subset, digit));
  }

  /** The test of the at-least-one loop: Board::indexes_of yields exactly one
      index iff exactly one position of the group lists the digit. */
  lemma IndexesOfOne(values: seq<Value>, subset: seq<nat>, digit: char)
    requires InBoard(values, subset)
    ensures |IndexesOf(values, subset, digit)| == 1 <==> Sole(ListedAt(values, subset, digit))
  {
    IndexesOfCount(values, subset, digit);
    TruesOne(ListedAt(values, subset, digit));
  }

  /** When Board::indexes_of yields one index, it is the cell of every
      position that lists the digit. */
  lemma IndexesOfOneCell(values: seq<Value>, subset: seq<nat>, digit: char)
    requires InBoard(values, subset) && |IndexesOf(values, subset, digit)| == 1
    ensures forall k | 0 <= k < |subset| && Listed(values[subset[k]], digit) ::
              IndexesOf(values, subset, digit)[0] == subset[k]
  {
    var r := IndexesOf(values, subset, digit);
    forall k | 0 <= k < |subset| && Listed(values[subset[k]], digit) ensures r[0] == subset[k] {
      assert subset[k] in r;
    }
  }

  /** The board after Board::eliminate(indexes, digit, rule): Value::eliminate
      applied to each listed cell in turn. */
  function EliminateAll(values: seq<Value>, indexes: seq<nat>, digit: char, rule: Rule): (r: seq<Value>)
    requires InBoard(values, indexes)
    ensures |r| == |values|
    decreases |indexes|
  {
    if indexes == [] then values
    else
      var last := indexes[|indexes| - 1];
      var before := EliminateAll(values, indexes[..|indexes| - 1], digit, rule);
      before[last := before[last].Eliminate(digit, rule)]
  }

  // The at-most-one half of Board::eval: for every group and every given
  // cell in it, the given character is eliminated from the group's cells.

  /** One cell `subset[p]` of the at-most-one loop. */
  function AtMostOneAt(values: seq<Value>, subset: seq<nat>, p: nat): (r: seq<Value>)
    requires InBoard(values, subset) && p < |subset|
    ensures |r| == |values|
  {
    match values[subset[p]]
    case Given(d) => EliminateAll(values, IndexesOf(values, subset, d), d, AtMostOne)
    case Choices(_) => values
  }

  /** The at-most-one loop over the first `n` cells of `subset`. */
  function AtMostOneGroup(values: seq<Value>, subset: seq<nat>, n: nat): (r: seq<Value>)
    requires InBoard(values, subset) && n <= |subset|
    ensures |r| == |values|
    decreases n
  {
    if n == 0 then values
    else AtMostOneAt(AtMostOneGroup(values, subset, n - 1), subset, n - 1)
  }

  /** The at-most-one loop over the groups of `subsets`, in order. */
  function AtMostOnePhase(values: seq<Value>, subsets: seq<seq<nat>>): (r: seq<Value>)
    requires Groups.Fits(|values|, subsets)
    ensures |r| == |values|
    decreases |subsets|
  {
    if subsets == [] then values
    else
      var subset := subsets[|subsets| - 1];
      var before := AtMostOnePhase(values, subsets[..|subsets| - 1]);
      AtMostOneGroup(before, subset, |subset|)
  }

  // The at-least-one half of Board::eval: for every group and every
  // character of "0123456789", a digit listed by exactly one cell of the
  // group makes that cell keep only the digit.

  /** One digit of the at-least-one loop. */
  function AtLeastOneAt(values: seq<Value>, subset: seq<nat>, digit: char): (r: seq<Value>)
    requires InBoard(values, subset)
    ensures |r| == |values|
  {
    var indexes := IndexesOf(values, subset, digit);
    if |indexes| == 1 then values[indexes[0] := values[indexes[0]].Keep(digit, AtLeastOne)]
    else values
  }

  /** The at-least-one loop of one group over the characters `chars`, in
      order; Board::eval walks "0123456789". */
  function AtLeastOneGroup(values: seq<Value>, subset: seq<nat>, chars: string): (r: seq<Value>)
    requires InBoard(values, subset)
    ensures |r| == |values|
    decreases |chars|
  {
    if chars == [] then values
    else AtLeastOneAt(AtLeastOneGroup(values, subset, chars[..|chars| - 1]), subset, chars[|chars| - 1])
  }

  /** One more character for the at-least-one loop of a group. */
  lemma AtLeastOneGroupSnoc(values: seq<Value>, subset: seq<nat>, chars: string, n: nat)
    requires InBoard(values, subset) && n < |chars|
    ensures AtLeastOneGroup(values, subset, chars[..n + 1])
              == AtLeastOneAt(AtLeastOneGroup(values, subset, chars[..n]), subset, chars[n])
  {
    assert chars[..n + 1][..n] == chars[..n];
  }

  /** The at-least-one loop over the groups of `subsets`, in order, each
      walking the characters `chars` (Board::eval walks EVAL_DIGITS). */
  function AtLeastOnePhase(values: seq<Value>, subsets: seq<seq<nat>>, chars: string): (r: seq<Value>)
    requires Groups.Fits(|values|, subsets)
    ensures |r| == |values|
    decreases |subsets|
  {
    if subsets == [] then values
    else
      var before := AtLeastOnePhase(values, subsets[..|subsets| - 1], chars);
      AtLeastOneGroup(before, subsets[|subsets| - 1], chars)
  }

  /** One more group for the at-least-one loop. */
  lemma AtLeastOnePhaseSnoc(values: seq<Value>, subsets: seq<seq<nat>>, g: nat, chars: string)
    requires Groups.Fits(|values|, subsets) && g < |subsets|
    ensures Groups.Fits(|values|, subsets[..g])
    ensures AtLeastOnePhase(values, subsets[..g + 1], chars)
              == AtLeastOneGroup(AtLeastOnePhase(values, subsets[..g], chars), subsets[g], chars)
  {
    assert subsets[..g + 1][..g] == subsets[..g];
  }

  /** The board after Board::eval when Board::subsets yields `subsets` (the
      27 groups of Groups.SUBSETS): the at-most-one rule over the groups,
      then the at-least-one rule over them. */
  function Evaluated(values: seq<Value>, subsets: seq<seq<nat>>): (r: seq<Value>)
    requires Groups.Fits(|values|, subsets)
    ensures |r| == |values|
  {
    AtLeastOnePhase(AtMostOnePhase(values, subsets), subsets, EVAL_DIGITS)
  }

  // ---------------------------------------------------------------------
  // Monotone exclusion: Board::eval only adds reasons.

  /** `b` is a possible later state of the board `a`, cell by cell. */
  predicate Refines(a: seq<Value>, b: seq<Value>)
  {
    |a| == |b| && forall i | 0 <= i < |a| :: ValueRefines(a[i], b[i])
  }

  lemma BoardRefinesTransitive(a: seq<Value>, b: seq<Value>, c: seq<Value>)
    requires Refines(a, b) && Refines(b, c)
    ensures Refines(a, c)
  {
    forall i | 0 <= i < |a| ensures ValueRefines(a[i], c[i]) {
      RefinesTransitive(a[i], b[i], c[i]);
    }
  }

  /** A later state keeps every cell well formed, keeps every given, and has
      no live digit that the earlier state lacked. */
  lemma RefinesKeeps(a: seq<Value>, b: seq<Value>)
    requires Refines(a, b)
    ensures AllWellFormed(a) ==> AllWellFormed(b)
    ensures forall i | 0 <= i < |a| && a[i].Given? :: b[i] == a[i]
    ensures forall i, d | 0 <= i < |a| && b[i].HasLive(d) :: a[i].HasLive(d)
  {
    forall i, d | 0 <= i < |a|
      ensures b[i].HasLive(d) ==> a[i].HasLive(d)
      ensures a[i].WellFormed() ==> b[i].WellFormed()
    {
      RefinesShrinksLive(a[i], b[i], d);
    }
  }

  lemma {:induction false} EliminateAllRefines(values: seq<Value>, indexes: seq<nat>, digit: char, rule: Rule)
    requires InBoard(values, indexes)
    ensures Refines(values, EliminateAll(values, indexes, digit, rule))
    decreases |indexes|
  {
    if indexes != [] {
      var last := indexes[|indexes| - 1];
      var before := EliminateAll(values, indexes[..|indexes| - 1], digit, rule);
      EliminateAllRefines(values, indexes[..|indexes| - 1], digit, rule);
      var after := before[last := before[last].Eliminate(digit, rule)];
      assert EliminateAll(values, indexes, digit, rule) == after;
      UpdatesRefine(before[last], digit, rule);
      RefinesUpdate(before, last, before[last].Eliminate(digit, rule));
      BoardRefinesTransitive(values, before, after);
    }
  }

  lemma AtMostOneAtRefines(values: seq<Value>, subset: seq<nat>, p: nat)
    requires InBoard(values, subset) && p < |subset|
    ensures Refines(values, AtMostOneAt(values, subset, p))
  {
    if values[subset[p]].Given? {
      var d := values[subset[p]].g;
      EliminateAllRefines(values, IndexesOf(values, subset, d), d, AtMostOne);
    }
  }

  lemma {:induction false} AtMostOneGroupRefines(values: seq<Value>, subset: seq<nat>, n: nat)
    requires InBoard(values, subset) && n <= |subset|
    ensures Refines(values, AtMostOneGroup(values, subset, n))
    decreases n
  {
    if n > 0 {
      var before := AtMostOneGroup(values, subset, n - 1);
      AtMostOneGroupRefines(values, subset, n - 1);
      AtMostOneAtRefines(before, subset, n - 1);
      BoardRefinesTransitive(values, before, AtMostOneAt(before, subset, n - 1));
    }
  }

  lemma {:induction false} AtMostOnePhaseRefines(values: seq<Value>, subsets: seq<seq<nat>>)
    requires Groups.Fits(|values|, subsets)
    ensures Refines(values, AtMostOnePhase(values, subsets))
    decreases |subsets|
  {
    if subsets != [] {
      var init := subsets[..|subsets| - 1];
      var subset := subsets[|subsets| - 1];
      var before := AtMostOnePhase(values, init);
      AtMostOnePhaseRefines(values, init);
      AtMostOneGroupRefines(before, subset, |subset|);
      BoardRefinesTransitive(values, before, AtMostOnePhase(values, subsets));
    }
  }

  /** Board::eval only adds reasons: givens are untouched and live sets only
      shrink, whatever the board holds. */
  lemma EvalRefines(values: seq<Value>, subsets: seq<seq<nat>>)
    requires Groups.Fits(|values|, subsets)
    ensures Refines(values, Evaluated(values, subsets))
  {
    var mid := AtMostOnePhase(values, subsets);
    AtMostOnePhaseRefines(values, subsets);
    AtLeastOnePhaseRefines(mid, subsets, EVAL_DIGITS);
    BoardRefinesTransitive(values, mid, Evaluated(values, subsets));
  }

  lemma AtLeastOneAtRefines(values: seq<Value>, subset: seq<nat>, digit: char)
    requires InBoard(values, subset)
    ensures Refines(values, AtLeastOneAt(values, subset, digit))
  {
    var indexes := IndexesOf(values, subset, digit);
    if |indexes| == 1 {
      var c := indexes[0];
      assert c in indexes;
      UpdatesRefine(values[c], digit, AtLeastOne);
      RefinesUpdate(values, c, values[c].Keep(digit, AtLeastOne));
    }
  }

  /** Replacing one cell by a refinement of it refines the board. */
  lemma RefinesUpdate(values: seq<Value>, i: nat, v: Value)
    requires i < |values| && ValueRefines(values[i], v)
    ensures Refines(values, values[i := v])
  {
    forall j | 0 <= j < |values| ensures ValueRefines(values[j], values[i := v][j]) {
      if j != i {
        assert values[i := v][j] == values[j];
      }
    }
  }

  /** A digit for which Board::indexes_of yields one index (listed at
      exactly one position of the group, by IndexesOfOne): on a well-formed
      board that cell keeps the digit live and no other, and every other cell
      is unchanged. */
  lemma AtLeastOneAtForces(values: seq<Value>, subset: seq<nat>, digit: char)
    requires InBoard(values, subset) && AllWellFormed(values)
    requires |IndexesOf(values, subset, digit)| == 1
    ensures var c := IndexesOf(values, subset, digit)[0];
            && AtLeastOneAt(values, subset, digit)[c].HasLive(digit)
            && forall d | AtLeastOneAt(values, subset, digit)[c].HasLive(d) :: d == digit
    ensures forall i | 0 <= i < |values| && i != IndexesOf(values, subset, digit)[0] ::
              AtLeastOneAt(values, subset, digit)[i] == values[i]
  {
    var indexes := IndexesOf(values, subset, digit);
    var c := indexes[0];
    assert c in indexes;
    ListedIsLive(values[c], digit);
    KeepLive(values[c], digit, AtLeastOne);
    assert AtLeastOneAt(values, subset, digit) == values[c := values[c].Keep(digit, AtLeastOne)];
  }

  /** An open, well-formed cell whose only live digit is `d`: what
      Value::keep leaves in the cell it is applied to. */
  predicate OnlyLive(v: Value, d: char)
  {
    v.Choices? && v.WellFormed() && v.HasLive(d) && forall c | v.HasLive(c) :: c == d
  }

  /** One at-least-one step leaves a cell with one live digit as it is:
      the cell lists no other digit, and keeping its own digit excludes
      nothing. */
  lemma OnlyLiveAt(values: seq<Value>, subset: seq<nat>, digit: char, i: nat, d: char)
    requires InBoard(values, subset) && i < |values| && OnlyLive(values[i], d)
    ensures OnlyLive(AtLeastOneAt(values, subset, digit)[i], d)
  {
    var indexes := IndexesOf(values, subset, digit);
    var v := values[i];
    var w := AtLeastOneAt(values, subset, digit)[i];
    if |indexes| == 1 && indexes[0] == i {
      assert i in indexes;
      ListedIsLive(v, digit);
      assert w == v.Keep(d, AtLeastOne);
      UpdatesRefine(v, d, AtLeastOne);
      RefinesShrinksLive(v, w, d);
      KeepLive(v, d, AtLeastOne);
    } else {
      assert w == v;
    }
  }

  /** Once the characters `chars[..m]` of a group's at-least-one loop have
      left a cell with one live digit, the rest of the loop keeps exactly
      that digit live there. */
  lemma {:induction false} OnlyLiveGroup(values: seq<Value>, subset: seq<nat>, chars: string, m: nat, i: nat, d: char)
    requires InBoard(values, subset) && i < |values| && m <= |chars|
    requires OnlyLive(AtLeastOneGroup(values, subset, chars[..m])[i], d)
    ensures OnlyLive(AtLeastOneGroup(values, subset, chars)[i], d)
    decreases |chars|
  {
    if |chars| == m {
      assert chars[..m] == chars;
    } else {
      var init := chars[..|chars| - 1];
      assert init[..m] == chars[..m];
      OnlyLiveGroup(values, subset, init, m, i, d);
      OnlyLiveAt(AtLeastOneGroup(values, subset, init), subset, chars[|chars| - 1], i, d);
    }
  }

  /** The same over the groups: a cell with one live digit keeps exactly
      that digit through the whole at-least-one loop. */
  lemma {:induction false} OnlyLivePhase(values: seq<Value>, subsets: seq<seq<nat>>, chars: string, i: nat, d: char)
    requires Groups.Fits(|values|, subsets) && i < |values| && OnlyLive(values[i], d)
    ensures OnlyLive(AtLeastOnePhase(values, subsets, chars)[i], d)
    decreases |subsets|
  {
    if subsets != [] {
      var init := subsets[..|subsets| - 1];
      var before := AtLeastOnePhase(values, init, chars);
      OnlyLivePhase(values, init, chars, i, d);
      assert chars[..0] == [];
      OnlyLiveGroup(before, subsets[|subsets| - 1], chars, 0, i, d);
    }
  }

  /** The at-least-one loop keeps the first digit it forces on a cell: once
      the step for `chars[n]` keeps that digit in cell i, the rest of the
      group's loop leaves it the only live digit there, so no later
      character is kept in that cell. */
  lemma KeptStays(values: seq<Value>, subset: seq<nat>, chars: string, n: nat, i: nat)
    requires InBoard(values, subset) && AllWellFormed(values) && n < |chars| && i < |values|
    requires IndexesOf(AtLeastOneGroup(values, subset, chars[..n]), subset, chars[n]) == [i]
    ensures OnlyLive(AtLeastOneGroup(values, subset, chars)[i], chars[n])
  {
    var before := AtLeastOneGroup(values, subset, chars[..n]);
    var after := AtLeastOneAt(before, subset, chars[n]);
    AtLeastOneGroupRefines(values, subset, chars[..n]);
    RefinesKeeps(values, before);
    AtLeastOneAtForces(before, subset, chars[n]);
    AtLeastOneAtRefines(before, subset, chars[n]);
    RefinesKeeps(before, after);
    AtLeastOneGroupSnoc(values, subset, chars, n);
    OnlyLiveGroup(values, subset, chars, n + 1, i, chars[n]);
  }

  lemma {:induction false} AtLeastOneGroupRefines(values: seq<Value>, subset: seq<nat>, chars: string)
    requires InBoard(values, subset)
    ensures Refines(values, AtLeastOneGroup(values, subset, chars))
    decreases |chars|
  {
    if chars != [] {
      var init := chars[..|chars| - 1];
      var before := AtLeastOneGroup(values, subset, init);
      var after := AtLeastOneAt(before, subset, chars[|chars| - 1]);
      AtLeastOneGroupRefines(values, subset, init);
      AtLeastOneAtRefines(before, subset, chars[|chars| - 1]);
      BoardRefinesTransitive(values, before, after);
    }
  }

  lemma {:induction false} AtLeastOnePhaseRefines(values: seq<Value>, subsets: seq<seq<nat>>, chars: string)
    requires Groups.Fits(|values|, subsets)
    ensures Refines(values, AtLeastOnePhase(values, subsets, chars))
    decreases |subsets|
  {
    if subsets != [] {
      var init := subsets[..|subsets| - 1];
      var before := AtLeastOnePhase(values, init, chars);
      AtLeastOnePhaseRefines(values, init, chars);
      AtLeastOneGroupRefines(before, subsets[|subsets| - 1], chars);
      BoardRefinesTransitive(values, before, AtLeastOnePhase(values, subsets, chars));
    }
  }

  // ---------------------------------------------------------------------
  // Soundness of the at-most-one rule.

  /** No cell of `subset` has `digit` live. */
  ghost predicate Excluded(values: seq<Value>, subset: seq<nat>, digit: char)
    requires InBoard(values, subset)
  {
    forall k | 0 <= k < |subset| :: !values[subset[k]].HasLive(digit)
  }

  /** On a well-formed cell the binary search of Board::indexes_of finds
      exactly the live digits. */
  lemma ListedIsLive(v: Value, digit: char)
    requires v.WellFormed()
    ensures Listed(v, digit) <==> v.HasLive(digit)
  {
    if v.Choices? {
      WellFormedAscending(v);
    }
  }

  lemma ExcludedStays(a: seq<Value>, b: seq<Value>, subset: seq<nat>, digit: char)
    requires Refines(a, b) && InBoard(a, subset) && Excluded(a, subset, digit)
    ensures Excluded(b, subset, digit)
  {
    RefinesKeeps(a, b);
  }

  /** Board::eliminate on well-formed cells leaves `digit` live in none of the
      listed cells. */
  lemma {:induction false} EliminateAllExcludes(values: seq<Value>, indexes: seq<nat>, digit: char, rule: Rule)
    requires InBoard(values, indexes) && AllWellFormed(values)
    ensures Excluded(EliminateAll(values, indexes, digit, rule), indexes, digit)
    decreases |indexes|
  {
    if indexes != [] {
      var init := indexes[..|indexes| - 1];
      var last := indexes[|indexes| - 1];
      var before := EliminateAll(values, init, digit, rule);
      var after := EliminateAll(values, indexes, digit, rule);
      EliminateAllExcludes(values, init, digit, rule);
      EliminateAllRefines(values, init, digit, rule);
      RefinesKeeps(values, before);
      if before[last].Choices? {
        WellFormedAscending(before[last]);
      }
      assert !after[last].HasLive(digit);
      forall k | 0 <= k < |indexes| ensures !after[indexes[k]].HasLive(digit) {
        if indexes[k] != last {
          assert indexes[k] == init[k];
        }
      }
    }
  }

  /** Processing a given cell of a group excludes its character from the
      whole group. */
  lemma AtMostOneAtExcludes(values: seq<Value>, subset: seq<nat>, p: nat)
    requires InBoard(values, subset) && p < |subset| && AllWellFormed(values)
    requires values[subset[p]].Given?
    ensures Excluded(AtMostOneAt(values, subset, p), subset, values[subset[p]].g)
  {
    var d := values[subset[p]].g;
    var indexes := IndexesOf(values, subset, d);
    var after := AtMostOneAt(values, subset, p);
    EliminateAllExcludes(values, indexes, d, AtMostOne);
    EliminateAllRefines(values, indexes, d, AtMostOne);
    RefinesKeeps(values, after);
    forall k | 0 <= k < |subset| ensures !after[subset[k]].HasLive(d) {
      var c := subset[k];
      ListedIsLive(values[c], d);
      if values[c].HasLive(d) {
        assert c in indexes;
        var j :| 0 <= j < |indexes| && indexes[j] == c;
      }
    }
  }

  /** A digit already excluded from a group stays excluded through one more
      at-most-one step. */
  lemma AtMostOneAtKeepsExcluded(values: seq<Value>, subset: seq<nat>, p: nat, digit: char)
    requires InBoard(values, subset) && p < |subset| && Excluded(values, subset, digit)
    ensures Excluded(AtMostOneAt(values, subset, p), subset, digit)
  {
    AtMostOneAtRefines(values, subset, p);
    ExcludedStays(values, AtMostOneAt(values, subset, p), subset, digit);
  }

  /** One more group step: if `after` refines `before`, which already
      excludes the givens of the first n - 1 cells of the group, and the step
      on cell n - 1 excludes that cell's given, then `after` excludes the
      givens of the first n cells. */
  lemma ExcludedStep(values: seq<Value>, before: seq<Value>, after: seq<Value>, subset: seq<nat>, n: nat)
    requires InBoard(values, subset) && 0 < n <= |subset|
    requires Refines(values, before) && Refines(before, after)
    requires forall p | 0 <= p < n - 1 && values[subset[p]].Given? :: Excluded(before, subset, values[subset[p]].g)
    requires before[subset[n - 1]].Given? ==> Excluded(after, subset, before[subset[n - 1]].g)
    ensures forall p | 0 <= p < n && values[subset[p]].Given? :: Excluded(after, subset, values[subset[p]].g)
  {
    RefinesKeeps(values, before);
    forall p | 0 <= p < n && values[subset[p]].Given?
      ensures Excluded(after, subset, values[subset[p]].g)
    {
      if p < n - 1 {
        ExcludedStays(before, after, subset, values[subset[p]].g);
      }
    }
  }

  lemma {:induction false} AtMostOneGroupSound(values: seq<Value>, subset: seq<nat>, n: nat)
    requires InBoard(values, subset) && n <= |subset| && AllWellFormed(values)
    ensures Refines(values, AtMostOneGroup(values, subset, n))
    ensures forall p | 0 <= p < n && values[subset[p]].Given? ::
              Excluded(AtMostOneGroup(values, subset, n), subset, values[subset[p]].g)
    decreases n
  {
    if n > 0 {
      var before := AtMostOneGroup(values, subset, n - 1);
      var after := AtMostOneAt(before, subset, n - 1);
      AtMostOneGroupSound(values, subset, n - 1);
      RefinesKeeps(values, before);
      AtMostOneAtRefines(before, subset, n - 1);
      if before[subset[n - 1]].Given? {
        AtMostOneAtExcludes(before, subset, n - 1);
      }
      ExcludedStep(values, before, after, subset, n);
      assert AtMostOneGroup(values, subset, n) == after;
      AtMostOneGroupRefines(values, subset, n);
    }
  }

  lemma {:induction false} AtMostOnePhaseSound(values: seq<Value>, subsets: seq<seq<nat>>)
    requires Groups.Fits(|values|, subsets) && AllWellFormed(values)
    ensures Refines(values, AtMostOnePhase(values, subsets))
    ensures ExcludesGivens(values, AtMostOnePhase(values, subsets), subsets)
    decreases |subsets|
  {
    if subsets != [] {
      var init := subsets[..|subsets| - 1];
      var subset := subsets[|subsets| - 1];
      var before := AtMostOnePhase(values, init);
      var after := AtMostOnePhase(values, subsets);
      AtMostOnePhaseSound(values, init);
      RefinesKeeps(values, before);
      AtMostOneGroupSound(before, subset, |subset|);
      BoardRefinesTransitive(values, before, after);
      forall g, p | 0 <= g < |subsets| && 0 <= p < |subsets[g]| && values[subsets[g][p]].Given?
        ensures Excluded(after, subsets[g], values[subsets[g][p]].g)
      {
        if g < |subsets| - 1 {
          assert subsets[g] == init[g];
          ExcludedStays(before, after, subsets[g], values[subsets[g][p]].g);
        }
      }
    }
  }

  /** Board::eliminate(indexes, d, rule) leaves every other digit live, and
      leaves the cells it does not list alone. */
  lemma {:induction false} EliminateAllKeepsLive(values: seq<Value>, indexes: seq<nat>, d: char, rule: Rule, j: nat, c: char)
    requires InBoard(values, indexes) && j < |values|
    requires values[j].HasLive(c) && (c != d || j !in indexes)
    ensures EliminateAll(values, indexes, d, rule)[j].HasLive(c)
    decreases |indexes|
  {
    if indexes != [] {
      var init := indexes[..|indexes| - 1];
      var last := indexes[|indexes| - 1];
      assert j !in indexes ==> j !in init;
      EliminateAllKeepsLive(values, init, d, rule, j, c);
      var before := EliminateAll(values, init, d, rule);
      if j == last {
        var k :| 0 <= k < |before[j].cs| && before[j].cs[k].digit == c && before[j].cs[k].reason.None?;
        assert before[j].Eliminate(d, rule).cs[k] == before[j].cs[k];
      }
    }
  }

  /** One cell of the at-most-one loop takes away at most its given
      character, and only from cells of its group. */
  lemma AtMostOneAtKeepsLive(values: seq<Value>, subset: seq<nat>, p: nat, j: nat, c: char)
    requires InBoard(values, subset) && p < |subset| && j < |values|
    requires values[j].HasLive(c)
    requires !(j in subset && values[subset[p]] == Given(c))
    ensures AtMostOneAt(values, subset, p)[j].HasLive(c)
  {
    if values[subset[p]].Given? {
      var d := values[subset[p]].g;
      EliminateAllKeepsLive(values, IndexesOf(values, subset, d), d, AtMostOne, j, c);
    }
  }

  /** A cell that is not given as `c` is not given as `c` in any refinement. */
  lemma NotGivenStays(a: Value, b: Value, c: char)
    requires ValueRefines(a, b) && a != Given(c)
    ensures b != Given(c)
  {
  }

  lemma {:induction false} AtMostOneGroupKeepsLive(values: seq<Value>, subset: seq<nat>, n: nat, j: nat, c: char)
    requires InBoard(values, subset) && n <= |subset| && j < |values|
    requires values[j].HasLive(c)
    requires j in subset ==> forall k | 0 <= k < n :: values[subset[k]] != Given(c)
    ensures AtMostOneGroup(values, subset, n)[j].HasLive(c)
    decreases n
  {
    if n > 0 {
      var before := AtMostOneGroup(values, subset, n - 1);
      AtMostOneGroupKeepsLive(values, subset, n - 1, j, c);
      if j in subset {
        var q := subset[n - 1];
        assert values[q] != Given(c);
        AtMostOneGroupRefines(values, subset, n - 1);
        assert ValueRefines(values[q], before[q]);
        NotGivenStays(values[q], before[q], c);
      }
      AtMostOneAtKeepsLive(before, subset, n - 1, j, c);
    }
  }

  /** Some group of `subsets` holding cell `j` has a cell given as `c`. */
  ghost predicate GivenInGroup(values: seq<Value>, subsets: seq<seq<nat>>, j: nat, c: char)
    requires Groups.Fits(|values|, subsets)
  {
    exists g, k | 0 <= g < |subsets| && 0 <= k < |subsets[g]| :: j in subsets[g] && values[subsets[g][k]] == Given(c)
  }

  lemma {:induction false} AtMostOnePhaseKeepsLive(values: seq<Value>, subsets: seq<seq<nat>>, j: nat, c: char)
    requires Groups.Fits(|values|, subsets) && j < |values|
    requires values[j].HasLive(c) && !GivenInGroup(values, subsets, j, c)
    ensures AtMostOnePhase(values, subsets)[j].HasLive(c)
    decreases |subsets|
  {
    if subsets != [] {
      var init := subsets[..|subsets| - 1];
      var subset := subsets[|subsets| - 1];
      forall g, k | 0 <= g < |init| && 0 <= k < |init[g]| && j in init[g]
        ensures values[init[g][k]] != Given(c)
      {
        assert init[g] == subsets[g];
      }
      AtMostOnePhaseKeepsLive(values, init, j, c);
      var before := AtMostOnePhase(values, init);
      AtMostOnePhaseRefines(values, init);
      forall k | 0 <= k < |subset| && j in subset
        ensures before[subset[k]] != Given(c)
      {
        assert subsets[|subsets| - 1] == subset;
        assert ValueRefines(values[subset[k]], before[subset[k]]);
      }
      AtMostOneGroupKeepsLive(before, subset, |subset|, j, c);
    }
  }

  /** The at-most-one loop, exactly: on a well-formed board, a cell has `c`
      live afterwards if and only if it had it live before and no group
      holding the cell has a cell given as `c`. */
  lemma AtMostOneLive(values: seq<Value>, subsets: seq<seq<nat>>)
    requires Groups.Fits(|values|, subsets) && AllWellFormed(values)
    ensures forall j, c | 0 <= j < |values| ::
              AtMostOnePhase(values, subsets)[j].HasLive(c) <==> values[j].HasLive(c) && !GivenInGroup(values, subsets, j, c)
  {
    var after := AtMostOnePhase(values, subsets);
    AtMostOnePhaseSound(values, subsets);
    RefinesKeeps(values, after);
    forall j, c | 0 <= j < |values|
      ensures after[j].HasLive(c) <==> values[j].HasLive(c) && !GivenInGroup(values, subsets, j, c)
    {
      if values[j].HasLive(c) && !GivenInGroup(values, subsets, j, c) {
        AtMostOnePhaseKeepsLive(values, subsets, j, c);
      }
      if GivenInGroup(values, subsets, j, c) {
        var g, k :| 0 <= g < |subsets| && 0 <= k < |subsets[g]| && j in subsets[g] && values[subsets[g][k]] == Given(c);
        assert Excluded(after, subsets[g], c);
        var k' :| 0 <= k' < |subsets[g]| && subsets[g][k'] == j;
      }
    }
  }

  /** For each group of `subsets` and each cell of it that is given in
      `source`, no cell of the group has that character live in `result`. */
  ghost predicate ExcludesGivens(source: seq<Value>, result: seq<Value>, subsets: seq<seq<nat>>)
    requires |source| == |result| && Groups.Fits(|source|, subsets)
  {
    forall g, p | 0 <= g < |subsets| && 0 <= p < |subsets[g]| && source[subsets[g][p]].Given? ::
      Excluded(result, subsets[g], source[subsets[g][p]].g)
  }

  /** The at-most-one rule holds: for every group and every given cell in it,
      no cell of that group has the given character live. */
  ghost predicate AtMostOneHolds(values: seq<Value>, subsets: seq<seq<nat>>)
    requires Groups.Fits(|values|, subsets)
  {
    ExcludesGivens(values, values, subsets)
  }

  /** Board::eval only adds reasons (givens untouched, live sets shrink, cells
      stay well formed and so ascending), and afterwards the at-most-one rule
      holds. */
  lemma EvalSound(values: seq<Value>, subsets: seq<seq<nat>>)
    requires Groups.Fits(|values|, subsets) && AllWellFormed(values)
    ensures Refines(values, Evaluated(values, subsets))
    ensures AllWellFormed(Evaluated(values, subsets))
    ensures AtMostOneHolds(Evaluated(values, subsets), subsets)
  {
    var mid := AtMostOnePhase(values, subsets);
    var after := Evaluated(values, subsets);
    AtMostOnePhaseSound(values, subsets);
    AtLeastOnePhaseRefines(mid, subsets, EVAL_DIGITS);
    BoardRefinesTransitive(values, mid, after);
    RefinesKeeps(values, after);
    ExcludesGivensStays(values, mid, after, subsets);
  }

  /** A later state keeps the exclusions of the givens. */
  lemma ExcludesGivensStays(source: seq<Value>, mid: seq<Value>, after: seq<Value>, subsets: seq<seq<nat>>)
    requires Groups.Fits(|source|, subsets) && Refines(source, mid) && Refines(mid, after)
    requires ExcludesGivens(source, mid, subsets)
    ensures ExcludesGivens(after, after, subsets)
  {
    BoardRefinesTransitive(source, mid, after);
    RefinesKeeps(source, after);
    RefinesKeeps(mid, after);
    forall g, p | 0 <= g < |subsets| && 0 <= p < |subsets[g]| && after[subsets[g][p]].Given?
      ensures Excluded(after, subsets[g], after[subsets[g][p]].g)
    {
      assert source[subsets[g][p]] == after[subsets[g][p]];
      ExcludedStays(mid, after, subsets[g], source[subsets[g][p]].g);
    }
  }

  // ---------------------------------------------------------------------
  // Seeding and boards Board::eval leaves alone.

  /** Board::new then Board::choose_all(givens): every cell is well formed,
      and Board::givens gives back the input, padded with '.' to 82 cells. */
  lemma SeedRoundTrip(givens: string)
    requires forall i | BOARD_SIZE <= i < |givens| :: givens[i] == '.'
    ensures |Seed(Blank(), givens)| == BOARD_SIZE && AllWellFormed(Seed(Blank(), givens))
    ensures forall i | 0 <= i < BOARD_SIZE && (i >= |givens| || givens[i] == '.') ::
              Seed(Blank(), givens)[i].Live() == Some(DIGITS)
    ensures forall i | 0 <= i < BOARD_SIZE :: Givens(Seed(Blank(), givens))[i] == if i < |givens| then givens[i] else '.'
  {
    var blank := Blank();
    SeededCells(blank, givens);
  }

  /** Seeding any board of fresh cells: every cell is well formed, the
      open ones keep all nine digits, and the givens read back. */
  lemma SeededCells(blank: seq<Value>, givens: string)
    requires forall i | |blank| <= i < |givens| :: givens[i] == '.'
    requires forall i | 0 <= i < |blank| :: blank[i] == Default()
    ensures AllWellFormed(Seed(blank, givens))
    ensures forall i | 0 <= i < |blank| && (i >= |givens| || givens[i] == '.') ::
              Seed(blank, givens)[i].Live() == Some(DIGITS)
    ensures forall i | 0 <= i < |blank| :: Givens(Seed(blank, givens))[i] == if i < |givens| then givens[i] else '.'
  {
  }

  lemma {:induction false} AtMostOneGroupIdle(values: seq<Value>, subset: seq<nat>, n: nat)
    requires InBoard(values, subset) && n <= |subset|
    requires forall k | 0 <= k < |subset| && values[subset[k]].Given? ::
               IndexesOf(values, subset, values[subset[k]].g) == []
    ensures AtMostOneGroup(values, subset, n) == values
    decreases n
  {
    if n > 0 {
      AtMostOneGroupIdle(values, subset, n - 1);
    }
  }

  lemma {:induction false} AtMostOnePhaseIdle(values: seq<Value>, subsets: seq<seq<nat>>)
    requires Groups.Fits(|values|, subsets)
    requires forall g, k | 0 <= g < |subsets| && 0 <= k < |subsets[g]| && values[subsets[g][k]].Given? ::
               IndexesOf(values, subsets[g], values[subsets[g][k]].g) == []
    ensures AtMostOnePhase(values, subsets) == values
    decreases |subsets|
  {
    if subsets != [] {
      var init := subsets[..|subsets| - 1];
      var subset := subsets[|subsets| - 1];
      AtMostOnePhaseIdle(values, init);
      AtMostOneGroupIdle(values, subset, |subset|);
    }
  }

  lemma {:induction false} AtLeastOneGroupIdle(values: seq<Value>, subset: seq<nat>, chars: string)
    requires InBoard(values, subset)
    requires forall j | 0 <= j < |chars| :: |IndexesOf(values, subset, chars[j])| != 1
    ensures AtLeastOneGroup(values, subset, chars) == values
    decreases |chars|
  {
    if chars != [] {
      AtLeastOneGroupIdle(values, subset, chars[..|chars| - 1]);
    }
  }

  lemma {:induction false} AtLeastOnePhaseIdle(values: seq<Value>, subsets: seq<seq<nat>>, chars: string)
    requires Groups.Fits(|values|, subsets)
    requires forall g, j | 0 <= g < |subsets| && 0 <= j < |chars| ::
               |IndexesOf(values, subsets[g], chars[j])| != 1
    ensures AtLeastOnePhase(values, subsets, chars) == values
    decreases |subsets|
  {
    if subsets != [] {
      var init := subsets[..|subsets| - 1];
      AtLeastOnePhaseIdle(values, init, chars);
      AtLeastOneGroupIdle(values, subsets[|subsets| - 1], chars);
    }
  }

  /** Board::eval changes nothing when no group lists the character of one of
      its given cells, and no group lists any character in exactly one cell. */
  lemma EvalIdle(values: seq<Value>, subsets: seq<seq<nat>>)
    requires Groups.Fits(|values|, subsets)
    requires forall g, k | 0 <= g < |subsets| && 0 <= k < |subsets[g]| && values[subsets[g][k]].Given? ::
               IndexesOf(values, subsets[g], values[subsets[g][k]].g) == []
    requires forall g, j | 0 <= g < |subsets| && 0 <= j < |EVAL_DIGITS| ::
               |IndexesOf(values, subsets[g], EVAL_DIGITS[j])| != 1
    ensures Evaluated(values, subsets) == values
  {
    AtMostOnePhaseIdle(values, subsets);
    AtLeastOnePhaseIdle(values, subsets, EVAL_DIGITS);
  }
}
