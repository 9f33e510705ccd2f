/**
 * Tokens (interned strings) and the order in which the query reports them.
 * A label array returned by the query is the contents of a token set sorted
 * by the token order, which is the lexicographic order of the token text.
 */
module Tokens {

  type Token = string

  /** The set of tokens held in a token array (duplicates collapse). */
  function Elements(s: seq<Token>): set<Token>
  {
    set x | x in s
  }

  /** Lexicographic order of token text. */
  predicate TokenLess(a: Token, b: Token)
  {
    if a == [] then b != []
    else if b == [] then false
    else a[0] < b[0] || (a[0] == b[0] && TokenLess(a[1..], b[1..]))
  }

  lemma {:induction false} TokenLessIrreflexive(a: Token)
    ensures !TokenLess(a, a)
  {
    if a != [] {
      TokenLessIrreflexive(a[1..]);
    }
  }

  lemma {:induction false} TokenLessTransitive(a: Token, b: Token, c: Token)
    requires TokenLess(a, b) && TokenLess(b, c)
    ensures TokenLess(a, c)
  {
    if a != [] && a[0] == b[0] && b[0] == c[0] {
      TokenLessTransitive(a[1..], b[1..], c[1..]);
    }
  }

  lemma {:induction false} TokenLessTotal(a: Token, b: Token)
    requires a != b
    ensures TokenLess(a, b) || TokenLess(b, a)
  {
    if a != [] && b != [] && a[0] == b[0] {
      assert a == [a[0]] + a[1..] && b == [b[0]] + b[1..];
      TokenLessTotal(a[1..], b[1..]);
    }
  }

  /** Sorted by the token order with no token twice. */
  ghost predicate StrictlySorted(s: seq<Token>)
  {
    forall i, j :: 0 <= i < j < |s| ==> TokenLess(s[i], s[j])
  }

  lemma StrictlySortedIsDuplicateFree(s: seq<Token>)
    requires StrictlySorted(s)
    ensures forall i, j :: 0 <= i < j < |s| ==> s[i] != s[j]
    ensures |Elements(s)| == |s|
  {
    forall i, j | 0 <= i < j < |s| ensures s[i] != s[j] {
      TokenLessIrreflexive(s[i]);
    }
    DistinctCardinality(s);
  }

  lemma {:induction false} DistinctCardinality(s: seq<Token>)
    requires forall i, j :: 0 <= i < j < |s| ==> s[i] != s[j]
    ensures |Elements(s)| == |s|
  {
    if s != [] {
      DistinctCardinality(s[1..]);
      assert Elements(s) == {s[0]} + Elements(s[1..]);
      assert s[0] !in Elements(s[1..]) by {
        forall k | 0 <= k < |s[1..]| ensures s[1..][k] != s[0] {
          assert s[1..][k] == s[k + 1];
        }
      }
    }
  }

  /** Inserts a token that is not yet present into a strictly sorted array. */
  function InsertSorted(s: seq<Token>, x: Token): (r: seq<Token>)
    requires StrictlySorted(s) && x !in s
    ensures StrictlySorted(r)
    ensures Elements(r) == Elements(s) + {x}
    ensures |r| == |s| + 1
  {
    if s == [] then [x]
    else if TokenLess(x, s[0]) then
      assert StrictlySorted([x] + s) by {
        forall j | 0 <= j < |s| ensures TokenLess(x, s[j]) {
          if j > 0 { TokenLessTransitive(x, s[0], s[j]); }
        }
      }
      [x] + s
    else
      var rest := InsertSorted(s[1..], x);
      assert TokenLess(s[0], x) by { TokenLessTotal(x, s[0]); }
      forall y | y in rest ensures TokenLess(s[0], y) {
        assert y in Elements(rest);
        if y != x {
          var k :| 0 <= k < |s[1..]| && s[1..][k] == y;
          assert s[k + 1] == y;
        }
      }
      [s[0]] + rest
  }

  /**
   * The sorted token array made from a token set: the array is filled from
   * the set and then sorted.
   */
  method SortedTokens(labels: set<Token>) returns (r: seq<Token>)
    ensures StrictlySorted(r)
    ensures Elements(r) == labels
    ensures |r| == |labels|
  {
    r := [];
    var rest := labels;
    while rest != {}
      invariant StrictlySorted(r)
      invariant rest <= labels
      invariant Elements(r) == labels - rest
      decreases rest
    {
      var x :| x in rest;
      r := InsertSorted(r, x);
      rest := rest - {x};
    }
    StrictlySortedIsDuplicateFree(r);
  }
}
