/** Facts about strictly ascending sequences of keys, shared by the balanced
    and the unbalanced search tree: the in-order traversal of either is such a
    sequence, and a strictly ascending sequence is fixed by its set of values. */
module Orders {

  /** Every element is strictly smaller than every later one (so no repeats). */
  predicate StrictlyIncreasing(s: seq<int>)
  {
    forall i, j :: 0 <= i < j < |s| ==> s[i] < s[j]
  }

  /** Gluing two ascending runs around a separating key keeps the order. */
  lemma Join(a: seq<int>, x: int, b: seq<int>)
    requires StrictlyIncreasing(a) && StrictlyIncreasing(b)
    requires forall y :: y in a ==> y < x
    requires forall y :: y in b ==> x < y
    ensures StrictlyIncreasing(a + [x] + b)
  {
    var s := a + [x] + b;
    forall i, j | 0 <= i < j < |s|
      ensures s[i] < s[j]
    {
      if j < |a| {
      } else if i < |a| {
        assert s[i] in a;
        if j > |a| { assert s[j] == b[j - |a| - 1]; assert s[j] in b; }
      } else if i == |a| {
        assert s[j] == b[j - |a| - 1];
        assert s[j] in b;
      } else {
        assert s[i] == b[i - |a| - 1] && s[j] == b[j - |a| - 1];
      }
    }
  }

  /** The tail of an ascending sequence holds everything but its head. */
  lemma TailMembers(a: seq<int>)
    requires StrictlyIncreasing(a) && a != []
    ensures forall y :: y in a[1..] <==> y in a && y != a[0]
  {
    assert a == [a[0]] + a[1..];
    forall y | y in a[1..]
      ensures y != a[0]
    {
      var k :| 0 <= k < |a[1..]| && a[1..][k] == y;
      assert a[k + 1] == y;
    }
  }

  /** Two strictly ascending sequences holding the same values are equal. */
  lemma {:induction false} Unique(a: seq<int>, b: seq<int>)
    requires StrictlyIncreasing(a) && StrictlyIncreasing(b)
    requires forall y :: y in a <==> y in b
    ensures a == b
  {
    if a != [] { assert a[0] in a; }
    if b != [] { assert b[0] in b; }
    if a != [] {
      assert forall k :: 0 <= k < |a| ==> a[0] <= a[k];
      assert forall k :: 0 <= k < |b| ==> b[0] <= b[k];
      assert a[0] == b[0];
      TailMembers(a);
      TailMembers(b);
      Unique(a[1..], b[1..]);
      assert a == [a[0]] + a[1..] && b == [b[0]] + b[1..];
    }
  }
}
