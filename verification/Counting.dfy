/** How many numbers there are below a bound. */
module Counting {

  ghost function Range(n: nat): set<int> { if n == 0 then {} else Range(n - 1) + {n - 1} }

  lemma {:induction false} InRange(n: nat, x: int)
    requires 0 <= x < n
    ensures x in Range(n)
  {
    if x < n - 1 {
      InRange(n - 1, x);
    }
  }

  lemma {:induction false} RangeCard(s: set<int>, n: nat)
    requires s <= Range(n)
    ensures |s| <= n
  {
    if n > 0 {
      RangeCard(s - {n - 1}, n - 1);
      assert n - 1 in s ==> s == (s - {n - 1}) + {n - 1};
      assert n - 1 !in s ==> s == s - {n - 1};
    }
  }
}
