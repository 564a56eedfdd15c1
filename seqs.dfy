/** The array operations the source relies on (`indexOf`, `splice(pos, 1)`)
    and a counting fact used to show that a walk has revisited a node. */
module Seqs {

  /** `s.indexOf(x)`: the first position of `x` in `s`, or -1. */
  function IndexOf<T(==)>(s: seq<T>, x: T): (i: int)
    ensures -1 <= i < |s|
    ensures i == -1 <==> x !in s
    ensures 0 <= i ==> s[i] == x && x !in s[..i]
  {
    if s == [] then -1
    else if s[0] == x then 0
    else
      var k := IndexOf(s[1..], x);
      assert k >= 0 ==> s[1..][..k] == s[1..k + 1];
      if k == -1 then -1 else k + 1
  }

  /** `pos = s.indexOf(x); if (pos > -1) s.splice(pos, 1)`: drops the first
      occurrence of `x`, if any. */
  function RemoveFirst<T(==)>(s: seq<T>, x: T): (r: seq<T>)
    ensures x !in s ==> r == s
    ensures x in s ==> |r| == |s| - 1
    ensures forall y :: y in r ==> y in s
  {
    var pos := IndexOf(s, x);
    if pos > -1 then s[..pos] + s[pos + 1..] else s
  }

  /** RemoveFirst takes away exactly one occurrence of `x`, when there is one. */
  lemma RemoveFirstCount<T>(s: seq<T>, x: T)
    ensures multiset(RemoveFirst(s, x)) == multiset(s) - multiset{x}
  {
    var pos := IndexOf(s, x);
    if pos > -1 {
      var a, b := s[..pos], s[pos + 1..];
      assert s[..pos + 1] == a + [x];
      assert s == s[..pos + 1] + b;
      assert multiset(s) == multiset(a) + multiset{x} + multiset(b);
      assert RemoveFirst(s, x) == a + b;
      assert multiset(a + b) == multiset(a) + multiset(b);
    } else {
      assert x !in multiset(s);
    }
  }

  /** No element occurs twice in `s`. */
  ghost predicate Distinct<T>(s: seq<T>) {
    forall i, j :: 0 <= i < j < |s| ==> s[i] != s[j]
  }

  /** Number of occurrences of `x` in `s`. */
  function Count<T(==)>(s: seq<T>, x: T): nat {
    multiset(s)[x]
  }

  /** A sequence longer than the set its elements come from repeats an element. */
  lemma {:induction false} Pigeonhole<T>(s: seq<T>, keys: set<T>)
    requires forall k :: 0 <= k < |s| ==> s[k] in keys
    requires |s| > |keys|
    ensures exists i, j :: 0 <= i < j < |s| && s[i] == s[j]
  {
    if s[0] in s[1..] {
      var j :| 0 <= j < |s[1..]| && s[1..][j] == s[0];
      assert s[0] == s[j + 1];
    } else {
      var rest := s[1..];
      forall k | 0 <= k < |rest| ensures rest[k] in keys - {s[0]} {
        assert rest[k] == s[k + 1];
      }
      Pigeonhole(rest, keys - {s[0]});
      var i, j :| 0 <= i < j < |rest| && rest[i] == rest[j];
      assert s[i + 1] == s[j + 1];
    }
  }

  /** A non-empty sequence is its front followed by its last element. */
  lemma SplitLast<T>(s: seq<T>)
    requires s != []
    ensures s == s[..|s| - 1] + [s[|s| - 1]]
    ensures forall x :: x in s <==> x in s[..|s| - 1] || x == s[|s| - 1]
  {
  }
}
