/** Counting: distinct numbers below a bound that miss one of them are fewer than the bound. */
module Pigeonhole {

  ghost function Numbers(n: nat): (s: set<nat>)
    ensures |s| == n && forall k: nat :: k in s <==> k < n
  {
    if n == 0 then {} else Numbers(n - 1) + {n - 1}
  }

  lemma {:induction false} Distinct(s: seq<nat>)
    requires forall i, j | 0 <= i < j < |s| :: s[i] != s[j]
    ensures |set i | 0 <= i < |s| :: s[i]| == |s|
  {
    if s != [] {
      var n := |s| - 1;
      Distinct(s[..n]);
      assert (set i | 0 <= i < |s| :: s[i]) == (set i | 0 <= i < n :: s[..n][i]) + {s[n]};
    }
  }

  lemma {:induction false} Subset(a: set<nat>, b: set<nat>)
    requires a <= b
    ensures |a| <= |b|
  {
    if a != {} {
      var x :| x in a;
      Subset(a - {x}, b - {x});
    }
  }

  lemma {:induction false} Pigeons(s: seq<nat>, n: nat, missing: nat)
    requires forall i | 0 <= i < |s| :: s[i] < n && s[i] != missing
    requires forall i, j | 0 <= i < j < |s| :: s[i] != s[j]
    requires missing < n
    ensures |s| < n
  {
    var seen := set i | 0 <= i < |s| :: s[i];
    Distinct(s);
    assert seen <= Numbers(n) - {missing};
    Subset(seen, Numbers(n) - {missing});
  }
}
