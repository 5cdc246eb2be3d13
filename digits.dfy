/** The candidate digits both programs work with, and the order they are
    listed in. */
module Digits {

  /** The candidates of an open cell, in the order they are listed. */
  const DIGITS: string := "123456789"

  /** Strictly increasing characters. */
  predicate Ascending(s: seq<char>)
  {
    forall k, k' | 0 <= k < k' < |s| :: s[k] < s[k']
  }

  /** A character below every character of an ascending string can be put
      in front of it. */
  lemma AscendingCons(c: char, rest: seq<char>)
    ensures Ascending(rest) && (forall k | 0 <= k < |rest| :: c < rest[k]) ==> Ascending([c] + rest)
  {
    if Ascending(rest) && forall k | 0 <= k < |rest| :: c < rest[k] {
      var s := [c] + rest;
      forall k, k' | 0 <= k < k' < |s| ensures s[k] < s[k'] {
        assert s[k'] == rest[k' - 1];
        if k > 0 {
          assert s[k] == rest[k - 1];
        }
      }
    }
  }

  /** Two ascending strings holding the same characters are the same string. */
  lemma {:induction false} AscendingEqual(a: seq<char>, b: seq<char>)
    requires Ascending(a) && Ascending(b)
    requires forall c :: c in a <==> c in b
    ensures a == b
    decreases |a|
  {
    assert a != [] ==> a[0] in a;
    assert b != [] ==> b[0] in b;
    if a != [] && b != [] {
      assert a[0] == b[0] by {
        assert a[0] in b && b[0] in a;
        var i :| 0 <= i < |b| && b[i] == a[0];
        var j :| 0 <= j < |a| && a[j] == b[0];
        assert b[0] <= b[i] && a[0] <= a[j];
      }
      forall c ensures c in a[1..] <==> c in b[1..] {
        if c in a[1..] {
          var k :| 1 <= k < |a| && a[k] == c;
          assert c in b && c != b[0];
        }
        if c in b[1..] {
          var k :| 1 <= k < |b| && b[k] == c;
          assert c in a && c != a[0];
        }
      }
      AscendingEqual(a[1..], b[1..]);
      assert a == [a[0]] + a[1..] && b == [b[0]] + b[1..];
    }
  }
}
