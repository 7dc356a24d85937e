/** Sums over sequences (what std::accumulate computes) and the facts about them
    that the planner's counters rely on. */
module Sums {

  /** Sum of the entries of s, accumulated from the front. */
  function Sum(s: seq<int>): int
  {
    if s == [] then 0 else s[0] + Sum(s[1..])
  }

  /** Sum of the entries of a sequence of reals. */
  function SumReal(s: seq<real>): real
  {
    if s == [] then 0.0 else s[0] + SumReal(s[1..])
  }

  ghost predicate NonNegative(s: seq<int>)
  {
    forall k :: 0 <= k < |s| ==> s[k] >= 0
  }

  /** Strictly increasing, hence without repetitions. */
  ghost predicate Ascending(s: seq<int>)
  {
    forall i, j :: 0 <= i < j < |s| ==> s[i] < s[j]
  }

  /** Appending an element above every entry keeps a sequence ascending. */
  lemma AscendingAppend(s: seq<int>, x: int)
    requires Ascending(s)
    requires forall y :: y in s ==> y < x
    ensures Ascending(s + [x])
  {
    forall i, j | 0 <= i < j < |s + [x]| ensures (s + [x])[i] < (s + [x])[j] {
      assert (s + [x])[i] == s[i] && s[i] in s;
    }
  }

  lemma {:induction false} SumNonNegative(s: seq<int>)
    requires NonNegative(s)
    ensures Sum(s) >= 0
  {
    if s != [] {
      SumNonNegative(s[1..]);
    }
  }

  /** With no negative entry, the sum bounds every entry. */
  lemma {:induction false} SumAtLeastEntry(s: seq<int>, k: int)
    requires NonNegative(s) && 0 <= k < |s|
    ensures Sum(s) >= s[k]
  {
    if k == 0 {
      SumNonNegative(s[1..]);
    } else {
      SumAtLeastEntry(s[1..], k - 1);
      assert s[1..][k - 1] == s[k];
    }
  }

  /** With no negative entry, the sum is zero exactly when every entry is. */
  lemma {:induction false} SumZeroIff(s: seq<int>)
    requires NonNegative(s)
    ensures Sum(s) == 0 <==> forall k :: 0 <= k < |s| ==> s[k] == 0
  {
    if s != [] {
      SumZeroIff(s[1..]);
      SumNonNegative(s[1..]);
      if Sum(s) == 0 {
        forall k | 0 <= k < |s| ensures s[k] == 0 {
          if k > 0 { assert s[k] == s[1..][k - 1]; }
        }
      } else if s[0] == 0 {
        var k :| 0 <= k < |s[1..]| && s[1..][k] != 0;
        assert s[k + 1] != 0;
      }
    }
  }

  /** Overwriting one entry changes the sum by the difference. */
  lemma {:induction false} SumUpdate(s: seq<int>, k: int, x: int)
    requires 0 <= k < |s|
    ensures Sum(s[k := x]) == Sum(s) - s[k] + x
  {
    if k == 0 {
      assert s[k := x][1..] == s[1..];
    } else {
      SumUpdate(s[1..], k - 1, x);
      assert s[k := x][1..] == s[1..][k - 1 := x];
    }
  }

  /** Two ascending sequences with the same members are the same sequence. */
  lemma {:induction false} AscendingByMembers(a: seq<int>, b: seq<int>)
    requires Ascending(a) && Ascending(b)
    requires forall x :: x in a <==> x in b
    ensures a == b
  {
    if a == [] {
      assert forall k :: 0 <= k < |b| ==> b[k] in b;
    } else {
      assert a[0] in a;
      assert b != [];
      assert b[0] in a;
      var i :| 0 <= i < |b| && b[i] == a[0];
      var j :| 0 <= j < |a| && a[j] == b[0];
      assert b[0] <= b[i] && a[0] <= a[j];
      forall x ensures x in a[1..] <==> x in b[1..] {
        if x in a[1..] {
          var m :| 0 <= m < |a[1..]| && a[1..][m] == x;
          assert a[0] < a[m + 1];
          assert x in b;
          var n :| 0 <= n < |b| && b[n] == x;
          assert n != 0;
          assert b[1..][n - 1] == x;
        }
        if x in b[1..] {
          var m :| 0 <= m < |b[1..]| && b[1..][m] == x;
          assert b[0] < b[m + 1];
          assert x in a;
          var n :| 0 <= n < |a| && a[n] == x;
          assert n != 0;
          assert a[1..][n - 1] == x;
        }
      }
      AscendingByMembers(a[1..], b[1..]);
      assert a == [a[0]] + a[1..];
      assert b == [b[0]] + b[1..];
    }
  }
}
