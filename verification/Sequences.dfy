/** Small facts about sequences and sets that several modules use. */
module Sequences {

  function Least(a: nat, b: nat): nat {
    if a < b then a else b
  }

  function Greater(a: nat, b: nat): nat {
    if a > b then a else b
  }

  function Clamp(x: nat, low: nat, high: nat): (n: nat)
    requires low <= high
    ensures low <= n <= high && (n == x || (n == low && x < low) || (n == high && x > high))
  {
    if x < low then low else if x > high then high else x
  }

  lemma DropDrop<T>(s: seq<T>, a: nat, b: nat)
    requires a + b <= |s|
    ensures s[a..][b..] == s[a + b..]
  {
  }

  lemma SubsetSize<T>(a: set<T>, b: set<T>)
    requires a <= b
    ensures |a| <= |b|
    ensures |a| == |b| ==> a == b
  {
    assert b == a + (b - a);
    assert |b| == |a| + |b - a|;
  }
}
