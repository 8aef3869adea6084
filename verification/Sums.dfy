/**
Sums over finite maps.
*/
module Sums {

  ghost function Sum(m: map<nat, nat>): nat {
    if m == map[] then 0
    else
      var i :| i in m;
      m[i] + Sum(m - {i})
  }

  lemma {:induction false} SumPick(m: map<nat, nat>, i: nat)
    requires i in m
    ensures Sum(m) == m[i] + Sum(m - {i})
    decreases |m|
  {
    var j :| j in m && Sum(m) == m[j] + Sum(m - {j});
    if j != i {
      SumPick(m - {j}, i);
      SumPick(m - {i}, j);
      assert m - {j} - {i} == m - {i} - {j};
    }
  }

  lemma {:induction false} SumMono(a: map<nat, nat>, b: map<nat, nat>)
    requires forall i :: i in a ==> i in b && a[i] <= b[i]
    ensures Sum(a) <= Sum(b)
    decreases |a|
  {
    if a != map[] {
      var i :| i in a;
      SumPick(a, i);
      SumPick(b, i);
      SumMono(a - {i}, b - {i});
    }
  }

  lemma SumUpdate(m: map<nat, nat>, i: nat, v: nat)
    requires i in m
    ensures Sum(m[i := v]) == Sum(m) - m[i] + v
  {
    SumPick(m, i);
    SumPick(m[i := v], i);
    hide Sum;
    assert m - {i} == m[i := v] - {i};
  }
}
