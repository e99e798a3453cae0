// Operations of `java.util.List` shared by several classes of the model.
module Lists {

  /** The index of the first occurrence of `x` in `s`. */
  function IndexOf<T(==)>(s: seq<T>, x: T): (i: nat)
    requires x in s
    ensures i < |s| && s[i] == x && x !in s[..i]
    decreases |s|
  {
    if s[0] == x then 0
    else
      var i := IndexOf(s[1..], x);
      assert s[..i + 1] == [s[0]] + s[1..][..i];
      i + 1
  }

  /** `ArrayList.remove(Object)`: drop the first occurrence of `x`, if any;
      the rest keep their order (see RemoveFirstContents). */
  function RemoveFirst<T(==)>(s: seq<T>, x: T): (r: seq<T>)
    ensures x !in s ==> r == s
    ensures x in s ==> |r| == |s| - 1
  {
    if x !in s then s
    else
      var i := IndexOf(s, x);
      s[..i] + s[i + 1..]
  }

  /** Exactly one copy of `x` goes. */
  lemma RemoveFirstContents<T>(s: seq<T>, x: T)
    ensures multiset(RemoveFirst(s, x)) == multiset(s) - multiset{x}
  {
    if x !in s {
      assert multiset(s)[x] == 0;
    } else {
      var i := IndexOf(s, x);
      assert s == s[..i] + [x] + s[i + 1..];
      assert multiset(s) == multiset(s[..i]) + multiset{x} + multiset(s[i + 1..]);
    }
  }

  /** What precedes the removed copy stays in place and what follows it moves
      down by one. */
  lemma RemoveFirstOrder<T>(s: seq<T>, x: T)
    requires x in s
    ensures forall j :: 0 <= j < IndexOf(s, x) ==> RemoveFirst(s, x)[j] == s[j]
    ensures forall j :: IndexOf(s, x) <= j < |RemoveFirst(s, x)| ==> RemoveFirst(s, x)[j] == s[j + 1]
  {
  }

  /** Removing the head drops exactly the head. */
  lemma RemoveHead<T>(s: seq<T>)
    requires |s| > 0
    ensures RemoveFirst(s, s[0]) == s[1..]
  {
    assert IndexOf(s, s[0]) == 0;
    assert RemoveFirst(s, s[0]) == s[..0] + s[1..];
  }
}
