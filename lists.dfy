/** The `java.util.List` operations the core relies on, as functions on sequences. */
module Lists {

  /** `indexOf`: the position of the first element equal to `x`. */
  function IndexOf<T(==)>(s: seq<T>, x: T): (r: nat)
    requires x in s
    ensures r < |s| && s[r] == x
    ensures x !in s[..r]
  {
    if s[0] == x then 0
    else
      var k := IndexOf(s[1..], x);
      assert s[..k + 1] == [s[0]] + s[1..][..k];
      k + 1
  }

  /** `remove(Object)`: drops the first element equal to `x`, and nothing when there is none. */
  function RemoveFirst<T(==)>(s: seq<T>, x: T): (r: seq<T>)
    ensures x !in s ==> r == s
    ensures x in s ==> |r| == |s| - 1 && multiset(r) == multiset(s) - multiset{x}
    ensures x in s ==> forall k | 0 <= k < |r| :: r[k] == if k < IndexOf(s, x) then s[k] else s[k + 1]
  {
    if x in s then
      var i := IndexOf(s, x);
      var r := RemoveAt(s, i);
      MultisetTakeOne(multiset(r), multiset(s), x);
      r
    else s
  }

  lemma MultisetTakeOne<T>(a: multiset<T>, b: multiset<T>, x: T)
    requires a + multiset{x} == b
    ensures a == b - multiset{x}
  {
  }

  /** `remove(int)`: drops the element at position `i` and shifts the rest down. */
  function RemoveAt<T>(s: seq<T>, i: nat): (r: seq<T>)
    requires i < |s|
    ensures |r| == |s| - 1
    ensures forall k | 0 <= k < |r| :: r[k] == if k < i then s[k] else s[k + 1]
    ensures multiset(r) + multiset{s[i]} == multiset(s)
  {
    assert s == s[..i] + [s[i]] + s[i + 1..];
    s[..i] + s[i + 1..]
  }

  /** Removing one `x` keeps every other element. */
  lemma RemoveFirstKeeps<T>(s: seq<T>, x: T, y: T)
    requires y in s && y != x
    ensures y in RemoveFirst(s, x)
  {
    assert multiset(s)[y] > 0;
    assert multiset(RemoveFirst(s, x))[y] == multiset(s)[y];
  }
}
