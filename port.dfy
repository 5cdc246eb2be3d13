/** The candidate computation of src/bin/sudoku-rust-port.rs. Its `main` pads
    the query string to 81 givens, keeps each cell's candidates as a string of
    digits, deletes from it the givens of the cell's groups (the at-most-one
    rule) and then records in a map the cells that are the only open cell of
    some group able to hold some digit (the at-least-one rule). The page shows
    a given cell as its character and an open cell as its candidates, each
    greyed out or linked to the board with that candidate chosen.

    The 27 groups are the table of Groups, which is the table the port spells
    out. The loops are proved against fold functions over the groups, and the
    properties are proved about those functions for any table of groups. */
module Port {
  import opened Digits
  import Groups

  /** `n` dots. */
  function Dots(n: nat): (r: string)
    ensures |r| == n && forall k | 0 <= k < n :: r[k] == '.'
  {
    if n == 0 then "" else Dots(n - 1) + "."
  }

  /** The 81 dots appended to the query string. */
  const BLANK: string := Dots(Groups.CELLS)

  /** The givens of the page: the query string followed by the blank board,
      cut to 81 characters. */
  function Pad(query: string): (givens: string)
    ensures |givens| == Groups.CELLS
    ensures forall i | 0 <= i < |givens| :: givens[i] == if i < |query| then query[i] else '.'
  {
    (query + BLANK)[..Groups.CELLS]
  }

  /** A string of 81 givens is read back unchanged: the query a link carries
      reproduces that board. */
  lemma PadFixed(givens: string)
    requires |givens| == Groups.CELLS
    ensures Pad(givens) == givens
  {
    assert Pad(givens) == givens;
  }

  // ---------------------------------------------------------------------
  // Candidate strings.

  /** A candidate string as the port keeps it: an ascending selection of the
      characters of "123456789". */
  predicate WellFormed(s: string)
  {
    Ascending(s) && forall k | 0 <= k < |s| :: s[k] in DIGITS
  }

  predicate AllWellFormed(choices: seq<string>)
  {
    forall j | 0 <= j < |choices| :: WellFormed(choices[j])
  }

  /** `str::replace(d, "")`: every occurrence of `d` deleted, the other
      characters kept in order. */
  function Remove(s: string, d: char): (r: string)
    ensures forall c :: c in r <==> c in s && c != d
    ensures |r| <= |s|
    decreases |s|
  {
    if s == [] then []
    else
      var rest := Remove(s[1..], d);
      assert forall c :: c in s <==> c == s[0] || c in s[1..];
      if s[0] == d then rest else [s[0]] + rest
  }

  /** Deleting a digit keeps a candidate string in ascending order and made
      of digits. */
  lemma {:induction false} RemoveWellFormed(s: string, d: char)
    ensures Ascending(s) ==> Ascending(Remove(s, d))
    ensures WellFormed(s) ==> WellFormed(Remove(s, d))
    decreases |s|
  {
    if s != [] && Ascending(s) {
      var rest := Remove(s[1..], d);
      RemoveWellFormed(s[1..], d);
      assert Ascending(s[1..]);
      assert forall k | 0 <= k < |rest| :: rest[k] in s[1..];
      assert forall k | 0 <= k < |rest| :: s[0] < rest[k];
      AscendingCons(s[0], rest);
    }
  }

  /** Every index of `subset` is a cell of a board of `size` cells. */
  predicate InRange(size: nat, subset: seq<nat>)
  {
    forall k | 0 <= k < |subset| :: subset[k] < size
  }

  /** The candidates every cell starts with. */
  function Initial(): (r: seq<string>)
    ensures |r| == Groups.CELLS
    ensures AllWellFormed(r)
  {
    seq(Groups.CELLS, _ => DIGITS)
  }

  // ---------------------------------------------------------------------
  // The at-most-one loop.

  /** The innermost loop: `d` deleted from the candidates of the first `n`
      cells of `subset`. */
  function RemoveIn(choices: seq<string>, subset: seq<nat>, d: char, n: nat): (r: seq<string>)
    requires InRange(|choices|, subset) && n <= |subset|
    ensures |r| == |choices|
    ensures AllWellFormed(choices) ==> AllWellFormed(r)
    decreases n
  {
    if n == 0 then choices
    else
      var before := RemoveIn(choices, subset, d, n - 1);
      var j := subset[n - 1];
      RemoveWellFormed(before[j], d);
      before[j := Remove(before[j], d)]
  }

  /** The middle loop over the first `n` cells of one group: the character of
      each given cell is deleted from the candidates of every cell of the
      group; an open cell ('.') deletes nothing. */
  function GroupPass(choices: seq<string>, givens: string, subset: seq<nat>, n: nat): (r: seq<string>)
    requires |givens| == |choices| && InRange(|choices|, subset) && n <= |subset|
    ensures |r| == |choices|
    ensures AllWellFormed(choices) ==> AllWellFormed(r)
    decreases n
  {
    if n == 0 then choices
    else
      var before := GroupPass(choices, givens, subset, n - 1);
      var d := givens[subset[n - 1]];
      if d == '.' then before else RemoveIn(before, subset, d, |subset|)
  }

  /** The outer loop over the groups. */
  function AtMostOnePass(choices: seq<string>, givens: string, subsets: seq<seq<nat>>): (r: seq<string>)
    requires |givens| == |choices| && Groups.Fits(|choices|, subsets)
    ensures |r| == |choices|
    ensures AllWellFormed(choices) ==> AllWellFormed(r)
    decreases |subsets|
  {
    if subsets == [] then choices
    else
      var before := AtMostOnePass(choices, givens, subsets[..|subsets| - 1]);
      var subset := subsets[|subsets| - 1];
      GroupPass(before, givens, subset, |subset|)
  }

  /** Cell `j` lies in `subset` and one of the first `n` cells of `subset`
      is given as `c`. */
  ghost predicate SeesGiven(givens: string, subset: seq<nat>, n: nat, j: nat, c: char)
    requires InRange(|givens|, subset) && n <= |subset|
  {
    c != '.' && j in subset && exists k | 0 <= k < n :: givens[subset[k]] == c
  }

  /** Some group holding cell `j` has a cell given as `c`. */
  ghost predicate Forbidden(givens: string, subsets: seq<seq<nat>>, j: nat, c: char)
    requires Groups.Fits(|givens|, subsets)
  {
    exists g | 0 <= g < |subsets| :: SeesGiven(givens, subsets[g], |subsets[g]|, j, c)
  }

  lemma {:induction false} RemoveInMeans(choices: seq<string>, subset: seq<nat>, d: char, n: nat)
    requires InRange(|choices|, subset) && n <= |subset|
    ensures forall j, c | 0 <= j < |choices| ::
              c in RemoveIn(choices, subset, d, n)[j] <==> c in choices[j] && !(c == d && j in subset[..n])
    decreases n
  {
    if n > 0 {
      RemoveInMeans(choices, subset, d, n - 1);
      assert subset[..n] == subset[..n - 1] + [subset[n - 1]];
    }
  }

  lemma {:induction false} GroupPassMeans(choices: seq<string>, givens: string, subset: seq<nat>, n: nat)
    requires |givens| == |choices| && InRange(|choices|, subset) && n <= |subset|
    ensures forall j, c | 0 <= j < |choices| ::
              c in GroupPass(choices, givens, subset, n)[j] <==> c in choices[j] && !SeesGiven(givens, subset, n, j, c)
    decreases n
  {
    if n > 0 {
      GroupPassMeans(choices, givens, subset, n - 1);
      var before := GroupPass(choices, givens, subset, n - 1);
      var d := givens[subset[n - 1]];
      if d != '.' {
        RemoveInMeans(before, subset, d, |subset|);
        assert subset[..|subset|] == subset;
      }
      forall j, c | 0 <= j < |choices|
        ensures SeesGiven(givens, subset, n, j, c) <==> SeesGiven(givens, subset, n - 1, j, c) || (c == d && d != '.' && j in subset)
      {
        if c == d && d != '.' && j in subset {
          assert givens[subset[n - 1]] == c;
        }
      }
    }
  }

  lemma {:induction false} AtMostOnePassMeans(choices: seq<string>, givens: string, subsets: seq<seq<nat>>)
    requires |givens| == |choices| && Groups.Fits(|choices|, subsets)
    ensures forall j, c | 0 <= j < |choices| ::
              c in AtMostOnePass(choices, givens, subsets)[j] <==> c in choices[j] && !Forbidden(givens, subsets, j, c)
    decreases |subsets|
  {
    if subsets != [] {
      var front := subsets[..|subsets| - 1];
      var subset := subsets[|subsets| - 1];
      AtMostOnePassMeans(choices, givens, front);
      GroupPassMeans(AtMostOnePass(choices, givens, front), givens, subset, |subset|);
      forall j, c | 0 <= j < |choices|
        ensures Forbidden(givens, subsets, j, c) <==> Forbidden(givens, front, j, c) || SeesGiven(givens, subset, |subset|, j, c)
      {
        if Forbidden(givens, subsets, j, c) {
          var g :| 0 <= g < |subsets| && SeesGiven(givens, subsets[g], |subsets[g]|, j, c);
          if g < |front| {
            assert front[g] == subsets[g];
          }
        }
        if Forbidden(givens, front, j, c) {
          var g :| 0 <= g < |front| && SeesGiven(givens, front[g], |front[g]|, j, c);
          assert subsets[g] == front[g];
        }
      }
    }
  }

  /** The at-most-one loop run from the initial candidates: a cell keeps a
      digit exactly when no group holding the cell has a cell given as that
      digit (a given that is not a digit deletes nothing), and every
      candidate string stays an ascending selection of "123456789". */
  lemma AtMostOneCandidates(givens: string, subsets: seq<seq<nat>>)
    requires |givens| == Groups.CELLS && Groups.Fits(|givens|, subsets)
    ensures AllWellFormed(AtMostOnePass(Initial(), givens, subsets))
    ensures forall j, c | 0 <= j < Groups.CELLS ::
              c in AtMostOnePass(Initial(), givens, subsets)[j] <==> c in DIGITS && !Forbidden(givens, subsets, j, c)
  {
    AtMostOnePassMeans(Initial(), givens, subsets);
  }

  /** Port lines 64-66: the character `d` deleted from the candidates of
      every cell of the group, in order. */
  method RemoveFromGroup(choices: seq<string>, subset: seq<nat>, d: char) returns (r: seq<string>)
    requires InRange(|choices|, subset)
    ensures r == RemoveIn(choices, subset, d, |subset|)
  {
    r := choices;
    for q := 0 to |subset|
      invariant r == RemoveIn(choices, subset, d, q)
    {
      var j := subset[q];
      r := r[j := Remove(r[j], d)];
    }
  }

  /** Port lines 58-67, one group: each given cell's character deleted from
      the candidates of every cell of the group. */
  method EliminateInGroup(choices: seq<string>, givens: string, subset: seq<nat>) returns (r: seq<string>)
    requires |givens| == |choices| && InRange(|choices|, subset)
    ensures r == GroupPass(choices, givens, subset, |subset|)
  {
    r := choices;
    for p := 0 to |subset|
      invariant r == GroupPass(choices, givens, subset, p)
    {
      var d := givens[subset[p]];
      if d != '.' {
        r := RemoveFromGroup(r, subset, d);
      }
    }
  }

  /** Port lines 21 and 56-68: every cell starts with "123456789"; then for
      each group and each given cell in it, the given's character is deleted
      from the candidates of every cell of the group. */
  method EliminateGivens(givens: string, subsets: seq<seq<nat>>) returns (choices: seq<string>)
    requires |givens| == Groups.CELLS && Groups.Fits(|givens|, subsets)
    ensures choices == AtMostOnePass(Initial(), givens, subsets)
  {
    choices := seq(Groups.CELLS, _ => DIGITS);
    ghost var start := choices;
    for g := 0 to |subsets|
      invariant choices == AtMostOnePass(start, givens, subsets[..g])
    {
      assert subsets[..g + 1][..g] == subsets[..g];
      var subset := subsets[g];
      choices := EliminateInGroup(choices, givens, subset);
    }
    assert subsets[..|subsets|] == subsets;
  }

  // ---------------------------------------------------------------------
  // The at-least-one scan.

  /** How often `d` occurs in `s`. */
  function Occurrences(s: string, d: char): (r: nat)
    ensures r > 0 <==> d in s
    ensures Ascending(s) ==> r <= 1
    decreases |s|
  {
    if s == [] then 0
    else
      var front := s[..|s| - 1];
      assert Ascending(s) ==> d in front ==> s[|s| - 1] != d;
      assert s == front + [s[|s| - 1]];
      Occurrences(front, d) + if s[|s| - 1] == d then 1 else 0
  }

  /** counts[d] after the first `n` cells of `subset`: the occurrences of `d`
      among the candidates of the open cells. */
  function Count(givens: string, choices: seq<string>, subset: seq<nat>, n: nat, d: char): nat
    requires |givens| == |choices| && InRange(|choices|, subset) && n <= |subset|
    decreases n
  {
    if n == 0 then 0
    else
      var i := subset[n - 1];
      Count(givens, choices, subset, n - 1, d) + if givens[i] == '.' then Occurrences(choices[i], d) else 0
  }

  /** where_[d] after the first `n` cells of `subset`: the last open cell
      whose candidates hold `d`, or 0, the value where_ starts from. */
  function Where(givens: string, choices: seq<string>, subset: seq<nat>, n: nat, d: char): nat
    requires |givens| == |choices| && InRange(|choices|, subset) && n <= |subset|
    decreases n
  {
    if n == 0 then 0
    else
      var i := subset[n - 1];
      if givens[i] == '.' && d in choices[i] then i else Where(givens, choices, subset, n - 1, d)
  }

  /** The insertions into `unique` for one group, for the first `m` digits of
      "123456789": a digit counted exactly once records its cell. */
  function GroupInserts(givens: string, choices: seq<string>, subset: seq<nat>, m: nat): (r: seq<(nat, char)>)
    requires |givens| == |choices| && InRange(|choices|, subset) && m <= |DIGITS|
    decreases m
  {
    if m == 0 then []
    else
      var d := DIGITS[m - 1];
      GroupInserts(givens, choices, subset, m - 1)
        + if Count(givens, choices, subset, |subset|, d) == 1 then [(Where(givens, choices, subset, |subset|, d), d)] else []
  }

  /** The insertions into `unique`, group after group. */
  function Inserts(givens: string, choices: seq<string>, subsets: seq<seq<nat>>): (r: seq<(nat, char)>)
    requires |givens| == |choices| && Groups.Fits(|choices|, subsets)
    decreases |subsets|
  {
    if subsets == [] then []
    else Inserts(givens, choices, subsets[..|subsets| - 1]) + GroupInserts(givens, choices, subsets[|subsets| - 1], |DIGITS|)
  }

  /** A map after the insertions `pairs`, in order. */
  function Build(start: map<nat, char>, pairs: seq<(nat, char)>): map<nat, char>
    decreases |pairs|
  {
    if pairs == [] then start
    else
      var last := pairs[|pairs| - 1];
      Build(start, pairs[..|pairs| - 1])[last.0 := last.1]
  }

  /** Building with one more pair sets that pair's key last. */
  lemma BuildSnoc(start: map<nat, char>, done: seq<(nat, char)>, p: (nat, char))
    ensures Build(start, done + [p]) == Build(start, done)[p.0 := p.1]
  {
    assert (done + [p])[..|done|] == done;
  }

  lemma {:induction false} BuildAppend(start: map<nat, char>, xs: seq<(nat, char)>, ys: seq<(nat, char)>)
    ensures Build(start, xs + ys) == Build(Build(start, xs), ys)
    decreases |ys|
  {
    if ys == [] {
      assert xs + ys == xs;
    } else {
      assert (xs + ys)[..|xs + ys| - 1] == xs + ys[..|ys| - 1];
      BuildAppend(start, xs, ys[..|ys| - 1]);
    }
  }

  /** A key is in the built map exactly when some insertion has it. */
  lemma {:induction false} InsertedKeys(pairs: seq<(nat, char)>)
    ensures forall w :: w in Build(map[], pairs) <==> exists i | 0 <= i < |pairs| :: pairs[i].0 == w
    decreases |pairs|
  {
    if pairs != [] {
      var front := pairs[..|pairs| - 1];
      var last := pairs[|pairs| - 1];
      InsertedKeys(front);
      var u := Build(map[], pairs);
      assert u == Build(map[], front)[last.0 := last.1];
      forall w
        ensures w in u <==> exists i | 0 <= i < |pairs| :: pairs[i].0 == w
      {
        if w in u && w != last.0 {
          var i :| 0 <= i < |front| && front[i].0 == w;
          assert pairs[i] == front[i];
        }
        if w == last.0 {
          assert pairs[|pairs| - 1].0 == w;
        }
      }
    }
  }

  /** A key is in the built map exactly when some insertion has it, and its
      value is that of the last insertion with that key. */
  lemma {:induction false} LastInsertionWins(pairs: seq<(nat, char)>)
    ensures forall w :: w in Build(map[], pairs) <==> exists i | 0 <= i < |pairs| :: pairs[i].0 == w
    ensures forall w | w in Build(map[], pairs) ::
              exists i | 0 <= i < |pairs| :: pairs[i] == (w, Build(map[], pairs)[w])
                && forall k | i < k < |pairs| :: pairs[k].0 != w
    decreases |pairs|
  {
    InsertedKeys(pairs);
    if pairs != [] {
      var front := pairs[..|pairs| - 1];
      var last := pairs[|pairs| - 1];
      LastInsertionWins(front);
      var u := Build(map[], pairs);
      assert u == Build(map[], front)[last.0 := last.1];
      forall w | w in u
        ensures exists i | 0 <= i < |pairs| :: pairs[i] == (w, u[w]) && forall k | i < k < |pairs| :: pairs[k].0 != w
      {
        if w == last.0 {
          assert pairs[|pairs| - 1] == (w, u[w]);
        } else {
          var i :| 0 <= i < |front| && front[i] == (w, Build(map[], front)[w])
                   && forall k | i < k < |front| :: front[k].0 != w;
          assert u[w] == Build(map[], front)[w];
          assert pairs[i] == front[i];
          forall k | i < k < |pairs| ensures pairs[k].0 != w {
            if k < |front| {
              assert pairs[k] == front[k];
            }
          }
        }
      }
    }
  }

  /** A digit counted at least once has its cell recorded in where_: an open
      cell of the group whose candidates hold the digit. */
  lemma {:induction false} WhereIsOpen(givens: string, choices: seq<string>, subset: seq<nat>, n: nat, d: char)
    requires |givens| == |choices| && InRange(|choices|, subset) && n <= |subset|
    requires Count(givens, choices, subset, n, d) > 0
    ensures exists k | 0 <= k < n :: subset[k] == Where(givens, choices, subset, n, d)
    ensures Where(givens, choices, subset, n, d) < |givens|
    ensures givens[Where(givens, choices, subset, n, d)] == '.'
    ensures d in choices[Where(givens, choices, subset, n, d)]
    decreases n
  {
    var i := subset[n - 1];
    if !(givens[i] == '.' && d in choices[i]) {
      WhereIsOpen(givens, choices, subset, n - 1, d);
    }
  }

  /** No open cell's candidates hold a digit counted zero times. */
  lemma {:induction false} CountZero(givens: string, choices: seq<string>, subset: seq<nat>, n: nat, d: char)
    requires |givens| == |choices| && InRange(|choices|, subset) && n <= |subset|
    requires Count(givens, choices, subset, n, d) == 0
    ensures forall k | 0 <= k < n && givens[subset[k]] == '.' :: d !in choices[subset[k]]
    decreases n
  {
    if n > 0 {
      CountZero(givens, choices, subset, n - 1, d);
    }
  }

  /** A digit counted exactly once: the cell where_ records is the only open
      cell of the group whose candidates hold it. */
  lemma {:induction false} CountOne(givens: string, choices: seq<string>, subset: seq<nat>, n: nat, d: char)
    requires |givens| == |choices| && InRange(|choices|, subset) && n <= |subset|
    requires Count(givens, choices, subset, n, d) == 1
    ensures forall k | 0 <= k < n && givens[subset[k]] == '.' && d in choices[subset[k]] ::
              subset[k] == Where(givens, choices, subset, n, d)
    decreases n
  {
    var i := subset[n - 1];
    if givens[i] == '.' && d in choices[i] {
      CountZero(givens, choices, subset, n - 1, d);
    } else {
      CountOne(givens, choices, subset, n - 1, d);
    }
  }

  /** Cell `w` is the one open cell of `subset` whose candidates hold `d`,
      and `d` occurs once among the open cells' candidates. */
  ghost predicate SoleOpen(givens: string, choices: seq<string>, subset: seq<nat>, w: nat, d: char)
    requires |givens| == |choices| && InRange(|choices|, subset)
  {
    && Count(givens, choices, subset, |subset|, d) == 1
    && w in subset && w < |givens| && givens[w] == '.' && d in choices[w]
    && forall k | 0 <= k < |subset| && givens[subset[k]] == '.' && d in choices[subset[k]] :: subset[k] == w
  }

  lemma {:induction false} GroupInsertsMeans(givens: string, choices: seq<string>, subset: seq<nat>, m: nat)
    requires |givens| == |choices| && InRange(|choices|, subset) && m <= |DIGITS|
    ensures forall p :: p in GroupInserts(givens, choices, subset, m) <==>
              exists n | 0 <= n < m :: p.1 == DIGITS[n] && Count(givens, choices, subset, |subset|, p.1) == 1
                && p.0 == Where(givens, choices, subset, |subset|, p.1)
    decreases m
  {
    if m > 0 {
      GroupInsertsMeans(givens, choices, subset, m - 1);
    }
  }

  /** Every pair inserted, over all groups, is (the cell, the digit) of a
      digit 1..9 that occurs once among some group's open cells. */
  lemma {:induction false} InsertsSound(givens: string, choices: seq<string>, subsets: seq<seq<nat>>)
    requires |givens| == |choices| && Groups.Fits(|choices|, subsets)
    ensures forall p | p in Inserts(givens, choices, subsets) ::
              exists g | 0 <= g < |subsets| :: p.1 in DIGITS && Count(givens, choices, subsets[g], |subsets[g]|, p.1) == 1
                && p.0 == Where(givens, choices, subsets[g], |subsets[g]|, p.1)
    decreases |subsets|
  {
    if subsets != [] {
      var front := subsets[..|subsets| - 1];
      var subset := subsets[|subsets| - 1];
      InsertsSound(givens, choices, front);
      GroupInsertsMeans(givens, choices, subset, |DIGITS|);
      forall p | p in Inserts(givens, choices, subsets)
        ensures exists g | 0 <= g < |subsets| :: p.1 in DIGITS && Count(givens, choices, subsets[g], |subsets[g]|, p.1) == 1
                  && p.0 == Where(givens, choices, subsets[g], |subsets[g]|, p.1)
      {
        if p in Inserts(givens, choices, front) {
          var g :| 0 <= g < |front| && p.1 in DIGITS && Count(givens, choices, front[g], |front[g]|, p.1) == 1
                   && p.0 == Where(givens, choices, front[g], |front[g]|, p.1);
          assert subsets[g] == front[g];
        } else {
          assert p in GroupInserts(givens, choices, subset, |DIGITS|);
          var n :| 0 <= n < |DIGITS| && p.1 == DIGITS[n] && Count(givens, choices, subset, |subset|, p.1) == 1
                   && p.0 == Where(givens, choices, subset, |subset|, p.1);
          assert subsets[|subsets| - 1] == subset;
        }
      }
    }
  }

  /** Every group and digit 1..9 that occurs once among the group's open
      cells puts its (cell, digit) pair into the insertions. */
  lemma {:induction false} InsertsComplete(givens: string, choices: seq<string>, subsets: seq<seq<nat>>)
    requires |givens| == |choices| && Groups.Fits(|choices|, subsets)
    ensures forall g, n | 0 <= g < |subsets| && 0 <= n < |DIGITS| && Count(givens, choices, subsets[g], |subsets[g]|, DIGITS[n]) == 1 ::
              (Where(givens, choices, subsets[g], |subsets[g]|, DIGITS[n]), DIGITS[n]) in Inserts(givens, choices, subsets)
    decreases |subsets|
  {
    if subsets != [] {
      var front := subsets[..|subsets| - 1];
      var subset := subsets[|subsets| - 1];
      InsertsComplete(givens, choices, front);
      GroupInsertsMeans(givens, choices, subset, |DIGITS|);
      forall g, n | 0 <= g < |subsets| && 0 <= n < |DIGITS| && Count(givens, choices, subsets[g], |subsets[g]|, DIGITS[n]) == 1
        ensures (Where(givens, choices, subsets[g], |subsets[g]|, DIGITS[n]), DIGITS[n]) in Inserts(givens, choices, subsets)
      {
        if g < |front| {
          assert front[g] == subsets[g];
        } else {
          assert subsets[g] == subset;
        }
      }
    }
  }

  /** An entry `unique[w] == d` is recorded only for an open cell `w` that,
      in some group, is the only open cell whose candidates hold `d`. */
  lemma UniqueSole(givens: string, choices: seq<string>, subsets: seq<seq<nat>>)
    requires |givens| == |choices| && Groups.Fits(|choices|, subsets)
    ensures forall w | w in Build(map[], Inserts(givens, choices, subsets)) ::
              exists g | 0 <= g < |subsets| ::
                SoleOpen(givens, choices, subsets[g], w, Build(map[], Inserts(givens, choices, subsets))[w])
  {
    var pairs := Inserts(givens, choices, subsets);
    var unique := Build(map[], pairs);
    InsertsSound(givens, choices, subsets);
    LastInsertionWins(pairs);
    forall w | w in unique
      ensures exists g | 0 <= g < |subsets| :: SoleOpen(givens, choices, subsets[g], w, unique[w])
    {
      var i :| 0 <= i < |pairs| && pairs[i] == (w, unique[w]) && forall k | i < k < |pairs| :: pairs[k].0 != w;
      assert pairs[i] in pairs;
      var g :| 0 <= g < |subsets| && unique[w] in DIGITS && Count(givens, choices, subsets[g], |subsets[g]|, unique[w]) == 1
               && w == Where(givens, choices, subsets[g], |subsets[g]|, unique[w]);
      SoleAt(givens, choices, subsets[g], unique[w]);
    }
  }

  /** A digit counted once in a group is held by exactly one open cell of
      the group, the cell recorded as where it was seen. */
  lemma SoleAt(givens: string, choices: seq<string>, subset: seq<nat>, d: char)
    requires |givens| == |choices| && InRange(|choices|, subset)
    requires Count(givens, choices, subset, |subset|, d) == 1
    ensures SoleOpen(givens, choices, subset, Where(givens, choices, subset, |subset|, d), d)
  {
    WhereIsOpen(givens, choices, subset, |subset|, d);
    CountOne(givens, choices, subset, |subset|, d);
  }

  /** Every group and digit 1..9 that occurs once in the group's open cells
      records its cell in `unique`. */
  lemma UniqueRecorded(givens: string, choices: seq<string>, subsets: seq<seq<nat>>)
    requires |givens| == |choices| && Groups.Fits(|choices|, subsets)
    ensures forall g, n | 0 <= g < |subsets| && 0 <= n < |DIGITS| && Count(givens, choices, subsets[g], |subsets[g]|, DIGITS[n]) == 1 ::
              Where(givens, choices, subsets[g], |subsets[g]|, DIGITS[n]) in Build(map[], Inserts(givens, choices, subsets))
  {
    var pairs := Inserts(givens, choices, subsets);
    var unique := Build(map[], pairs);
    InsertsComplete(givens, choices, subsets);
    InsertedKeys(pairs);
    forall g, n | 0 <= g < |subsets| && 0 <= n < |DIGITS| && Count(givens, choices, subsets[g], |subsets[g]|, DIGITS[n]) == 1
      ensures Where(givens, choices, subsets[g], |subsets[g]|, DIGITS[n]) in unique
    {
      var p := (Where(givens, choices, subsets[g], |subsets[g]|, DIGITS[n]), DIGITS[n]);
      assert p in pairs;
      var i :| 0 <= i < |pairs| && pairs[i] == p;
    }
  }

  /** What the at-least-one scan records: UniqueSole and UniqueRecorded, and
      where a cell is recorded for several digits the map keeps the last
      insertion, in group-then-digit order. */
  lemma UniqueEntries(givens: string, choices: seq<string>, subsets: seq<seq<nat>>)
    requires |givens| == |choices| && Groups.Fits(|choices|, subsets)
    ensures forall w | w in Build(map[], Inserts(givens, choices, subsets)) ::
              exists g | 0 <= g < |subsets| ::
                SoleOpen(givens, choices, subsets[g], w, Build(map[], Inserts(givens, choices, subsets))[w])
    ensures forall g, n | 0 <= g < |subsets| && 0 <= n < |DIGITS| && Count(givens, choices, subsets[g], |subsets[g]|, DIGITS[n]) == 1 ::
              Where(givens, choices, subsets[g], |subsets[g]|, DIGITS[n]) in Build(map[], Inserts(givens, choices, subsets))
    ensures forall w | w in Build(map[], Inserts(givens, choices, subsets)) ::
              var pairs := Inserts(givens, choices, subsets);
              exists i | 0 <= i < |pairs| :: pairs[i] == (w, Build(map[], pairs)[w]) && forall k | i < k < |pairs| :: pairs[k].0 != w
  {
    UniqueSole(givens, choices, subsets);
    UniqueRecorded(givens, choices, subsets);
    LastInsertionWins(Inserts(givens, choices, subsets));
  }

  /** Candidates one group's scan can count: every open cell of the group
      holds only digits 1..9, so the counts map has an entry for each of its
      candidates (`unwrap` would panic otherwise). */
  predicate CountableIn(givens: string, choices: seq<string>, subset: seq<nat>)
    requires |givens| == |choices| && InRange(|choices|, subset)
  {
    forall p, k | 0 <= p < |subset| && givens[subset[p]] == '.' && 0 <= k < |choices[subset[p]]| ::
      choices[subset[p]][k] in DIGITS
  }

  predicate Countable(givens: string, choices: seq<string>, subsets: seq<seq<nat>>)
    requires |givens| == |choices| && Groups.Fits(|choices|, subsets)
  {
    forall g | 0 <= g < |subsets| :: CountableIn(givens, choices, subsets[g])
  }

  /** Port lines 80-89, one group: counts[d] and where_[d] start at 0 for
      each digit; each open cell adds one to counts[d] for each of its
      candidates d and sets where_[d] to itself. */
  method Tally(givens: string, choices: seq<string>, subset: seq<nat>) returns (counts: map<char, nat>, where_: map<char, nat>)
    requires |givens| == |choices| && InRange(|choices|, subset)
    requires CountableIn(givens, choices, subset)
    ensures forall d | d in DIGITS :: d in counts && counts[d] == Count(givens, choices, subset, |subset|, d)
    ensures forall d | d in DIGITS :: d in where_ && where_[d] == Where(givens, choices, subset, |subset|, d)
  {
    var keys := DIGITS;
    counts := map d | d in keys :: 0;
    where_ := map d | d in keys :: 0;
    for p := 0 to |subset|
      invariant forall d | d in keys :: d in counts && counts[d] == Count(givens, choices, subset, p, d)
      invariant forall d | d in keys :: d in where_ && where_[d] == Where(givens, choices, subset, p, d)
    {
      counts, where_ := TallyAt(counts, where_, givens, choices, subset, p);
    }
  }

  /** Port lines 83-88, the `p`th cell of the group: an open cell adds its
      candidates to the tally, a given cell leaves it alone. */
  method TallyAt(counts: map<char, nat>, where_: map<char, nat>, givens: string, choices: seq<string>, subset: seq<nat>, p: nat)
    returns (counts': map<char, nat>, where': map<char, nat>)
    requires |givens| == |choices| && InRange(|choices|, subset) && p < |subset|
    requires CountableIn(givens, choices, subset)
    requires forall d | d in DIGITS :: d in counts && counts[d] == Count(givens, choices, subset, p, d)
    requires forall d | d in DIGITS :: d in where_ && where_[d] == Where(givens, choices, subset, p, d)
    ensures forall d | d in DIGITS :: d in counts' && counts'[d] == Count(givens, choices, subset, p + 1, d)
    ensures forall d | d in DIGITS :: d in where' && where'[d] == Where(givens, choices, subset, p + 1, d)
  {
    var i := subset[p];
    if givens[i] == '.' {
      counts', where' := TallyCell(counts, where_, DIGITS, choices[i], i);
    } else {
      counts', where' := counts, where_;
    }
  }

  /** Port lines 84-88, one open cell `i` with candidates `digits`: each
      candidate adds one to its count and records `i` as where it was seen. */
  method TallyCell(counts: map<char, nat>, where_: map<char, nat>, keys: string, digits: string, i: nat)
    returns (counts': map<char, nat>, where': map<char, nat>)
    requires forall k | 0 <= k < |digits| :: digits[k] in keys
    requires forall d | d in keys :: d in counts && d in where_
    ensures forall d | d in keys :: d in counts' && counts'[d] == counts[d] + Occurrences(digits, d)
    ensures forall d | d in keys :: d in where' && where'[d] == if d in digits then i else where_[d]
  {
    counts', where' := counts, where_;
    for q := 0 to |digits|
      invariant forall d | d in keys :: d in counts' && counts'[d] == counts[d] + Occurrences(digits[..q], d)
      invariant forall d | d in keys :: d in where' && where'[d] == if d in digits[..q] then i else where_[d]
    {
      var d := digits[q];
      assert digits[..q + 1][..q] == digits[..q];
      counts' := counts'[d := counts'[d] + 1];
      where' := where'[d := i];
    }
    assert digits[..|digits|] == digits;
  }

  /** Port lines 71-94: for each group, the tally of its open cells, then
      `unique[where_[d]] = d` for each digit d counted exactly once, in the
      order "123456789". The candidates are read, never written. */
  method FindUnique(givens: string, choices: seq<string>, subsets: seq<seq<nat>>) returns (unique: map<nat, char>)
    requires |givens| == |choices| && Groups.Fits(|choices|, subsets)
    requires Countable(givens, choices, subsets)
    ensures unique == Build(map[], Inserts(givens, choices, subsets))
  {
    unique := map[];
    for g := 0 to |subsets|
      invariant unique == Build(map[], Inserts(givens, choices, subsets[..g]))
    {
      assert subsets[..g + 1][..g] == subsets[..g];
      var subset := subsets[g];
      var counts, where_ := Tally(givens, choices, subset);
      unique := RecordUnique(unique, counts, where_, givens, choices, subset);
      BuildAppend(map[], Inserts(givens, choices, subsets[..g]), GroupInserts(givens, choices, subset, |DIGITS|));
    }
    assert subsets[..|subsets|] == subsets;
  }

  /** Port lines 89-93, one group: after the tally, `unique[where_[d]] = d`
      for each digit d of "123456789" counted exactly once. */
  method RecordUnique(unique: map<nat, char>, counts: map<char, nat>, where_: map<char, nat>,
                      ghost givens: string, ghost choices: seq<string>, ghost subset: seq<nat>)
    returns (unique': map<nat, char>)
    requires |givens| == |choices| && InRange(|choices|, subset)
    requires forall m | 0 <= m < |DIGITS| ::
               DIGITS[m] in counts && counts[DIGITS[m]] == Count(givens, choices, subset, |subset|, DIGITS[m])
    requires forall m | 0 <= m < |DIGITS| ::
               DIGITS[m] in where_ && where_[DIGITS[m]] == Where(givens, choices, subset, |subset|, DIGITS[m])
    ensures unique' == Build(unique, GroupInserts(givens, choices, subset, |DIGITS|))
  {
    unique' := unique;
    for m := 0 to |DIGITS|
      invariant unique' == Build(unique, GroupInserts(givens, choices, subset, m))
    {
      var d := DIGITS[m];
      ghost var done := GroupInserts(givens, choices, subset, m);
      if counts[d] == 1 {
        unique' := unique'[where_[d] := d];
        BuildSnoc(unique, done, (where_[d], d));
        assert GroupInserts(givens, choices, subset, m + 1) == done + [(where_[d], d)];
      } else {
        assert GroupInserts(givens, choices, subset, m + 1) == done + [];
        assert done + [] == done;
      }
    }
  }

  // ---------------------------------------------------------------------
  // The page.

  /** next_givens: the givens with position `i` set to `digit`; the argument
      is copied, not changed. */
  function NextGivens(givens: string, i: nat, digit: char): (r: string)
    requires i < |givens|
    ensures |r| == |givens| && r[i] == digit
    ensures forall j | 0 <= j < |givens| && j != i :: r[j] == givens[j]
  {
    givens[i := digit]
  }

  /** A link's query string is read back as the same board with cell `i`
      given as the chosen digit, every other cell as before. */
  lemma LinkRoundTrip(givens: string, i: nat, digit: char)
    requires |givens| == Groups.CELLS && i < |givens|
    ensures Pad(NextGivens(givens, i, digit)) == NextGivens(givens, i, digit)
    ensures Pad(NextGivens(givens, i, digit))[i] == digit
    ensures forall j | 0 <= j < Groups.CELLS && j != i :: Pad(NextGivens(givens, i, digit))[j] == givens[j]
  {
    PadFixed(NextGivens(givens, i, digit));
  }

  /** One candidate of an open cell on the page: greyed out, or a link to the
      board with it chosen. */
  datatype Candidate = Grey(digit: char) | Link(digit: char, target: string)

  /** A cell on the page: a given shows its character, an open cell its
      candidates. */
  datatype Shown = Fixed(digit: char) | Open(candidates: seq<Candidate>)

  /** The decision of choices_fn for candidate `digit` of cell `i`: grey when
      `unique` records a different digit for the cell, a link otherwise. */
  function Classify(givens: string, unique: map<nat, char>, i: nat, digit: char): (r: Candidate)
    requires i < |givens|
    ensures r.digit == digit
    ensures r.Grey? <==> i in unique && unique[i] != digit
    ensures r.Link? ==> r.target == NextGivens(givens, i, digit)
  {
    if i in unique && digit != unique[i] then Grey(digit) else Link(digit, NextGivens(givens, i, digit))
  }

  /** choices_fn: the candidates of cell `i`, in order, each classified. */
  function CandidatesOf(givens: string, choices: seq<string>, unique: map<nat, char>, i: nat): (r: seq<Candidate>)
    requires i < |givens| && i < |choices|
    ensures |r| == |choices[i]|
    ensures forall k | 0 <= k < |r| :: r[k] == Classify(givens, unique, i, choices[i][k])
  {
    seq(|choices[i]|, k requires 0 <= k < |choices[i]| => Classify(givens, unique, i, choices[i][k]))
  }

  /** What the page shows for cell `i`. */
  function Display(givens: string, choices: seq<string>, unique: map<nat, char>, i: nat): (r: Shown)
    requires i < |givens| && i < |choices|
    ensures givens[i] != '.' ==> r == Fixed(givens[i])
    ensures givens[i] == '.' ==> r == Open(CandidatesOf(givens, choices, unique, i))
  {
    if givens[i] != '.' then Fixed(givens[i]) else Open(CandidatesOf(givens, choices, unique, i))
  }

  /** A given cell looks the same whatever the candidates and the map hold
      for it. */
  lemma GivenIgnoresChoices(givens: string, choices: seq<string>, unique: map<nat, char>,
                            choices': seq<string>, unique': map<nat, char>, i: nat)
    requires i < |givens| && i < |choices| && i < |choices'| && givens[i] != '.'
    ensures Display(givens, choices, unique, i) == Display(givens, choices', unique', i) == Fixed(givens[i])
  {
  }

  /** Port lines 138-146 without the markup: each of the 81 cells in turn is
      shown from the givens or from its candidates. */
  method Render(givens: string, choices: seq<string>, unique: map<nat, char>) returns (cells: seq<Shown>)
    requires |givens| == Groups.CELLS && |choices| == Groups.CELLS
    ensures |cells| == Groups.CELLS
    ensures forall i | 0 <= i < Groups.CELLS :: cells[i] == Display(givens, choices, unique, i)
  {
    cells := [];
    for i := 0 to Groups.CELLS
      invariant |cells| == i
      invariant forall j | 0 <= j < i :: cells[j] == Display(givens, choices, unique, j)
    {
      var digit := givens[i];
      var content := if digit != '.' then Fixed(digit) else Open(CandidatesOf(givens, choices, unique, i));
      cells := cells + [content];
    }
  }

  // ---------------------------------------------------------------------
  // The whole computation.

  /** The candidates the page computes for a query string. */
  function PortChoices(query: string): (r: seq<string>)
    ensures |r| == Groups.CELLS
  {
    Groups.SubsetsFit(Groups.CELLS);
    AtMostOnePass(Initial(), Pad(query), Groups.SUBSETS)
  }

  /** The map of forced cells the page computes for a query string. */
  function PortUnique(query: string): map<nat, char>
  {
    Groups.SubsetsFit(Groups.CELLS);
    Build(map[], Inserts(Pad(query), PortChoices(query), Groups.SUBSETS))
  }

  /** `main` up to the markup: pad the query, apply the at-most-one rule,
      scan for the at-least-one rule and lay out the 81 cells. */
  method Analyse(query: string) returns (givens: string, choices: seq<string>, unique: map<nat, char>, cells: seq<Shown>)
    ensures givens == Pad(query)
    ensures choices == PortChoices(query) && unique == PortUnique(query)
    ensures |cells| == Groups.CELLS
    ensures forall i | 0 <= i < Groups.CELLS :: cells[i] == Display(givens, choices, unique, i)
  {
    givens := Pad(query);
    Groups.SubsetsFit(Groups.CELLS);
    choices := EliminateGivens(givens, Groups.SUBSETS);
    AtMostOneCandidates(givens, Groups.SUBSETS);
    ghost var subsets := Groups.SUBSETS;
    assert Countable(givens, choices, subsets);
    unique := FindUnique(givens, choices, Groups.SUBSETS);
    cells := Render(givens, choices, unique);
  }

  /** On the page, an open cell the map records as forced for `d` shows `d`
      among its candidates as its one link, every other candidate grey; an
      open cell with no entry links every candidate. */
  lemma ForcedCellLinks(query: string, i: nat)
    requires i < Groups.CELLS
    ensures var givens := Pad(query);
            var unique := PortUnique(query);
            var shown := CandidatesOf(givens, PortChoices(query), unique, i);
            && (i in unique ==> givens[i] == '.' && exists k | 0 <= k < |shown| :: shown[k].Link? && shown[k].digit == unique[i])
            && (i in unique ==> forall k, k' | 0 <= k < k' < |shown| :: !(shown[k].Link? && shown[k'].Link?))
            && (i !in unique ==> forall k | 0 <= k < |shown| :: shown[k].Link?)
  {
    var givens := Pad(query);
    var choices := PortChoices(query);
    var unique := PortUnique(query);
    Groups.SubsetsFit(Groups.CELLS);
    ghost var subsets := Groups.SUBSETS;
    AtMostOneCandidates(givens, subsets);
    var shown := CandidatesOf(givens, choices, unique, i);
    if i in unique {
      UniqueEntries(givens, choices, subsets);
      var g :| 0 <= g < |subsets| && SoleOpen(givens, choices, subsets[g], i, unique[i]);
      var k :| 0 <= k < |choices[i]| && choices[i][k] == unique[i];
      assert shown[k].Link?;
      assert WellFormed(choices[i]);
    }
  }
}
