// Frame-to-balance maps: their sums, and their keys in the ascending order in which
// Object.keys lists them (frame numbers are integer-like keys).

module BalanceMaps {

  type FrameBalances = map<int, int>

  ghost function Pick<T>(s: set<T>): (x: T)
    requires s != {}
    ensures x in s
  {
    var x :| x in s; x
  }

  ghost function Sum(m: FrameBalances): int {
    if m.Keys == {} then 0 else
      var k := Pick(m.Keys);
      m[k] + Sum(m - {k})
  }

  /** The order in which keys are summed does not matter. */
  lemma {:induction false} SumRemove(m: FrameBalances, k: int)
    requires k in m
    ensures Sum(m) == m[k] + Sum(m - {k})
    decreases |m|
  {
    var j := Pick(m.Keys);
    if j != k {
      assert (m - {j}) - {k} == (m - {k}) - {j};
      SumRemove(m - {j}, k);
      SumRemove(m - {k}, j);
    }
  }

  /** Setting one key changes the sum by the difference at that key. */
  lemma SumUpdate(m: FrameBalances, k: int, v: int)
    ensures Sum(m[k := v]) == Sum(m) + v - (if k in m then m[k] else 0)
  {
    var m' := m[k := v];
    SumRemove(m', k);
    if k in m {
      SumRemove(m, k);
      assert m' - {k} == m - {k};
    } else {
      assert m' - {k} == m;
    }
  }

  lemma {:induction false} LeastExists(s: set<int>)
    requires s != {}
    ensures exists k :: k in s && forall j :: j in s ==> k <= j
  {
    var k := Pick(s);
    var l := k;
    if s - {k} != {} {
      LeastExists(s - {k});
      var m :| m in s - {k} && forall j :: j in s - {k} ==> m <= j;
      l := if m <= k then m else k;
    }
    assert forall j :: j in s ==> j == k || j in s - {k};
    assert l in s && forall j :: j in s ==> l <= j;
  }

  function Least(s: set<int>): (k: int)
    requires s != {}
    ensures k in s
    ensures forall j :: j in s ==> k <= j
  {
    LeastExists(s);
    var k :| k in s && forall j :: j in s ==> k <= j;
    k
  }

  predicate Ascending(s: seq<int>) {
    forall i, j :: 0 <= i < j < |s| ==> s[i] < s[j]
  }

  /** Object.keys of a frame map. */
  function Keys(s: set<int>): (keys: seq<int>)
    ensures Ascending(keys)
    ensures forall k :: k in keys <==> k in s
  {
    if s == {} then [] else
      var k := Least(s);
      [k] + Keys(s - {k})
  }
}
