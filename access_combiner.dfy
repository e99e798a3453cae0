// Combining access words while refusing clashing visibility flags.
module AccessCombiner {
  import opened Wrappers
  import opened AccessFlags

  /** The pairs of visibility flags that may not appear together. */
  const InvalidCombinations: seq<Access> := [
    ACC_PRIVATE | ACC_PUBLIC,
    ACC_PROTECTED | ACC_PUBLIC,
    ACC_PROTECTED | ACC_PRIVATE
  ]

  /** Some bit of `flag` is set in `x`. */
  predicate Meets(flag: Access, x: Access) {
    flag & x != 0
  }

  /** The first `j` invalid pairs include one that meets both `access` and `acc`. */
  predicate ClashesWithin(access: Access, acc: Access, j: nat)
    requires j <= |InvalidCombinations|
  {
    j > 0 && (ClashesWithin(access, acc, j - 1)
      || (Meets(InvalidCombinations[j - 1], access) && Meets(InvalidCombinations[j - 1], acc)))
  }

  /** Some invalid pair meets both the candidate and the accumulator. */
  predicate Clashes(access: Access, acc: Access) {
    ClashesWithin(access, acc, |InvalidCombinations|)
  }

  /** The visibility bits: PUBLIC, PRIVATE and PROTECTED. */
  const Visibility: Access := ACC_PUBLIC | ACC_PRIVATE | ACC_PROTECTED

  predicate HasVisibility(a: Access) {
    a & Visibility != 0
  }

  /** Any two visibility bits, equal or not, lie together in one of the pairs. */
  lemma PairsCoverVisibility(x: Access, y: Access)
    ensures ((3 & x != 0 && 3 & y != 0) || (5 & x != 0 && 5 & y != 0) || (6 & x != 0 && 6 & y != 0))
      <==> HasVisibility(x) && HasVisibility(y)
  {
    assert Visibility == 7;
  }

  /**
   * The clash test through the three pairs is the same as "both carry some
   * visibility bit".
   */
  lemma ClashesIffBothVisible(access: Access, acc: Access)
    ensures Clashes(access, acc) <==> HasVisibility(access) && HasVisibility(acc)
  {
    var c := InvalidCombinations;
    assert c[0] == 3 && c[1] == 5 && c[2] == 6;
    var p0 := 3 & access != 0 && 3 & acc != 0;
    var p1 := 5 & access != 0 && 5 & acc != 0;
    var p2 := 6 & access != 0 && 6 & acc != 0;
    assert !ClashesWithin(access, acc, 0);
    assert ClashesWithin(access, acc, 1) == p0;
    assert ClashesWithin(access, acc, 2) == (p0 || p1);
    assert Clashes(access, acc) == (p0 || p1 || p2);
    PairsCoverVisibility(access, acc);
  }

  /** Java's bitwise `|` on access words. */
  function Or(x: Access, y: Access): Access {
    x | y
  }

  /** One step of the outer loop: an argument that clashes is dropped whole. */
  function Absorb(acc: Access, access: Access): Access {
    if HasVisibility(access) && HasVisibility(acc) then acc else Or(acc, access)
  }

  // Bit-level facts, each on its own so that the solver meets one at a time.

  lemma AbsorbDrops(acc: Access, a: Access)
    requires HasVisibility(a) && HasVisibility(acc)
    ensures Absorb(acc, a) == acc
  {
  }

  lemma AbsorbKeeps(acc: Access, a: Access)
    requires !(HasVisibility(a) && HasVisibility(acc))
    ensures Absorb(acc, a) == Or(acc, a)
  {
  }

  lemma NothingMeetsZero(flag: Access)
    ensures !Meets(flag, 0)
  {
  }

  /** Java's `access &= ~access` always yields 0. */
  lemma SelfClear(x: Access)
    ensures x & !x == 0
  {
  }

  /** `x` carries every bit of `y`. */
  predicate Includes(x: Access, y: Access) {
    x & y == y
  }

  lemma OrIncludes(x: Access, y: Access)
    ensures Includes(Or(x, y), x) && Includes(Or(x, y), y)
  {
  }

  lemma IncludesTransitive(x: Access, y: Access, z: Access)
    requires Includes(x, y) && Includes(y, z)
    ensures Includes(x, z)
  {
  }

  lemma OrAssociative(x: Access, y: Access, z: Access)
    ensures Or(Or(x, y), z) == Or(x, Or(y, z))
  {
  }

  lemma OrZero(x: Access)
    ensures Or(0, x) == x && Or(x, 0) == x
  {
  }

  /** The visibility bits of `x | y` when `y` has none, and when `x` has none. */
  lemma OrVisibility(x: Access, y: Access)
    ensures !HasVisibility(y) ==> Or(x, y) & Visibility == x & Visibility
    ensures !HasVisibility(x) ==> Or(x, y) & Visibility == y & Visibility
    ensures HasVisibility(x) ==> HasVisibility(Or(x, y))
    ensures !HasVisibility(x) && !HasVisibility(y) ==> !HasVisibility(Or(x, y))
  {
  }

  /** Absorbing never removes a bit, nor the presence of a visibility bit. */
  lemma AbsorbGrows(acc: Access, a: Access)
    ensures Includes(Absorb(acc, a), acc)
    ensures HasVisibility(acc) ==> HasVisibility(Absorb(acc, a))
  {
    if HasVisibility(a) && HasVisibility(acc) {
      AbsorbDrops(acc, a);
    } else {
      AbsorbKeeps(acc, a);
      OrIncludes(acc, a);
      OrVisibility(acc, a);
    }
  }

  /** The combined word, folding the arguments from `acc` left to right. */
  function Combine(acc: Access, accesses: seq<Access>): Access
    decreases |accesses|
  {
    if accesses == [] then acc else Combine(Absorb(acc, accesses[0]), accesses[1..])
  }

  /**
   * combineAccessFlags: a null argument array fails on the loop; otherwise
   * every argument is tested against the invalid pairs, zeroed on a clash,
   * and OR-ed into the result.
   */
  method CombineAccessFlags(accesses: Option<seq<Access>>) returns (r: Result<Access>)
    ensures accesses.None? ==> r == Err(NullPointer)
    ensures accesses.Some? ==> r == Ok(Combine(0, accesses.value))
  {
    if accesses.None? {
      return Err(NullPointer);
    }
    var all := accesses.value;
    var finalAccess: Access := 0;
    var i := 0;
    while i < |all|
      invariant 0 <= i <= |all|
      invariant Combine(0, all) == Combine(finalAccess, all[i..])
    {
      var access := ClearIfClashing(all[i], finalAccess);
      OrCleared(finalAccess, all[i], access);
      assert all[i..] == [all[i]] + all[i + 1..];
      finalAccess := finalAccess | access;
      i := i + 1;
    }
    assert all[i..] == [];
    return Ok(finalAccess);
  }

  /**
   * The inner loop: `access` becomes 0 as soon as one invalid pair meets both
   * words, which happens exactly when both carry a visibility bit.
   */
  method ClearIfClashing(original: Access, finalAccess: Access) returns (access: Access)
    ensures access == if HasVisibility(original) && HasVisibility(finalAccess) then 0 else original
  {
    access := original;
    var j := 0;
    while j < |InvalidCombinations|
      invariant 0 <= j <= |InvalidCombinations|
      invariant access == if ClashesWithin(original, finalAccess, j) then 0 else original
    {
      var invalidFlag := InvalidCombinations[j];
      NothingMeetsZero(invalidFlag);
      if invalidFlag & access != 0 && invalidFlag & finalAccess != 0 {
        SelfClear(access);
        access := access & !access;
      }
      j := j + 1;
    }
    ClashesIffBothVisible(original, finalAccess);
  }

  /** OR-ing the possibly cleared argument is one step of the fold. */
  lemma OrCleared(finalAccess: Access, original: Access, access: Access)
    requires access == if HasVisibility(original) && HasVisibility(finalAccess) then 0 else original
    ensures finalAccess | access == Absorb(finalAccess, original)
  {
    if HasVisibility(original) && HasVisibility(finalAccess) {
      AbsorbDrops(finalAccess, original);
      OrZero(finalAccess);
    } else {
      AbsorbKeeps(finalAccess, original);
    }
  }

  /** The arguments that survive: those without visibility bits, and the first with some. */
  function Kept(acc: Access, accesses: seq<Access>): seq<Access>
    decreases |accesses|
  {
    if accesses == [] then []
    else if HasVisibility(acc) && HasVisibility(accesses[0]) then Kept(acc, accesses[1..])
    else [accesses[0]] + Kept(Or(acc, accesses[0]), accesses[1..])
  }

  function OrAll(s: seq<Access>): Access
    decreases |s|
  {
    if s == [] then 0 else Or(s[0], OrAll(s[1..]))
  }

  /** `sub` is `s` with some elements removed, order kept. */
  predicate IsSubsequence(sub: seq<Access>, s: seq<Access>)
    decreases |s|
  {
    if sub == [] then true
    else if s == [] then false
    else (sub[0] == s[0] && IsSubsequence(sub[1..], s[1..])) || IsSubsequence(sub, s[1..])
  }

  /**
   * Every argument is either OR-ed in whole or dropped whole: the result is
   * the OR of a subsequence of the arguments.
   */
  lemma {:induction false} CombineIsOrOfKept(acc: Access, accesses: seq<Access>)
    ensures Combine(acc, accesses) == Or(acc, OrAll(Kept(acc, accesses)))
    decreases |accesses|
  {
    if accesses == [] {
      OrZero(acc);
    } else {
      var a, rest := accesses[0], accesses[1..];
      if HasVisibility(acc) && HasVisibility(a) {
        DroppedStep(acc, accesses);
        CombineIsOrOfKept(acc, rest);
      } else {
        KeptStep(acc, accesses);
        var k := Kept(Or(acc, a), rest);
        CombineIsOrOfKept(Or(acc, a), rest);
        assert Combine(acc, accesses) == Or(Or(acc, a), OrAll(k));
        OrOfKeptStep(acc, a, k);
        assert Kept(acc, accesses) == [a] + k;
      }
    }
  }

  /** The kept arguments appear among the arguments, in their order. */
  lemma {:induction false} KeptIsSubsequence(acc: Access, accesses: seq<Access>)
    ensures IsSubsequence(Kept(acc, accesses), accesses)
    decreases |accesses|
  {
    if accesses != [] {
      var a, rest := accesses[0], accesses[1..];
      if HasVisibility(acc) && HasVisibility(a) {
        KeptIsSubsequence(acc, rest);
      } else {
        KeptIsSubsequence(Or(acc, a), rest);
        assert ([a] + Kept(Or(acc, a), rest))[1..] == Kept(Or(acc, a), rest);
      }
    }
  }

  lemma DroppedStep(acc: Access, accesses: seq<Access>)
    requires accesses != [] && HasVisibility(acc) && HasVisibility(accesses[0])
    ensures Combine(acc, accesses) == Combine(acc, accesses[1..])
    ensures Kept(acc, accesses) == Kept(acc, accesses[1..])
  {
    AbsorbDrops(acc, accesses[0]);
  }

  lemma KeptStep(acc: Access, accesses: seq<Access>)
    requires accesses != [] && !(HasVisibility(acc) && HasVisibility(accesses[0]))
    ensures Combine(acc, accesses) == Combine(Or(acc, accesses[0]), accesses[1..])
    ensures Kept(acc, accesses) == [accesses[0]] + Kept(Or(acc, accesses[0]), accesses[1..])
  {
    AbsorbKeeps(acc, accesses[0]);
  }

  lemma OrOfKeptStep(acc: Access, a: Access, k: seq<Access>)
    ensures Or(Or(acc, a), OrAll(k)) == Or(acc, OrAll([a] + k))
  {
    assert ([a] + k)[1..] == k;
    OrAssociative(acc, a, OrAll(k));
  }

  /** The accumulator never loses bits. */
  lemma {:induction false} AccumulatorGrows(acc: Access, accesses: seq<Access>)
    ensures Includes(Combine(acc, accesses), acc)
    decreases |accesses|
  {
    if accesses == [] {
      OrIncludes(acc, acc);
    } else {
      var next := Absorb(acc, accesses[0]);
      AccumulatorGrows(next, accesses[1..]);
      AbsorbGrows(acc, accesses[0]);
      IncludesTransitive(Combine(acc, accesses), next, acc);
    }
  }

  /** The first argument is always kept in full. */
  lemma FirstArgumentKept(accesses: seq<Access>)
    requires accesses != []
    ensures Includes(Combine(0, accesses), accesses[0])
  {
    AbsorbKeeps(0, accesses[0]);
    OrZero(accesses[0]);
    AccumulatorGrows(accesses[0], accesses[1..]);
  }

  /** An argument without visibility bits is always OR-ed in. */
  lemma {:induction false} NonVisibleKept(acc: Access, accesses: seq<Access>, i: int)
    requires 0 <= i < |accesses| && !HasVisibility(accesses[i])
    ensures Includes(Combine(acc, accesses), accesses[i])
    decreases |accesses|
  {
    var a := accesses[0];
    var next := Absorb(acc, a);
    if i == 0 {
      AbsorbKeeps(acc, a);
      OrIncludes(acc, a);
      AccumulatorGrows(next, accesses[1..]);
      IncludesTransitive(Combine(acc, accesses), next, a);
    } else {
      NonVisibleKept(next, accesses[1..], i - 1);
    }
  }

  /**
   * Once the accumulator holds a visibility bit, a later visibility-bearing
   * argument contributes nothing, not even its other bits: the result is
   * what it would be without that argument.
   */
  lemma {:induction false} VisibleDroppedOnceVisible(acc: Access, accesses: seq<Access>, i: int)
    requires 0 <= i < |accesses| && HasVisibility(acc) && HasVisibility(accesses[i])
    ensures Combine(acc, accesses) == Combine(acc, accesses[..i] + accesses[i + 1..])
    decreases |accesses|
  {
    var next := Absorb(acc, accesses[0]);
    if i == 0 {
      AbsorbDrops(acc, accesses[0]);
      assert accesses[..0] + accesses[1..] == accesses[1..];
    } else {
      AbsorbGrows(acc, accesses[0]);
      VisibleDroppedOnceVisible(next, accesses[1..], i - 1);
      var rest := accesses[..i] + accesses[i + 1..];
      assert rest[0] == accesses[0] && rest[1..] == accesses[1..][..i - 1] + accesses[1..][i..];
    }
  }

  /** The index of the first argument carrying a visibility bit, or |accesses|. */
  function FirstVisible(accesses: seq<Access>): (k: nat)
    ensures k <= |accesses|
    ensures k < |accesses| ==> HasVisibility(accesses[k])
    ensures forall j :: 0 <= j < k ==> !HasVisibility(accesses[j])
    decreases |accesses|
  {
    if accesses == [] then 0
    else if HasVisibility(accesses[0]) then 0
    else 1 + FirstVisible(accesses[1..])
  }

  /** Once some visibility bit is in, the visibility bits never change again. */
  lemma {:induction false} VisibilityFrozen(acc: Access, accesses: seq<Access>)
    requires HasVisibility(acc)
    ensures Combine(acc, accesses) & Visibility == acc & Visibility
    decreases |accesses|
  {
    if accesses != [] {
      var a := accesses[0];
      if HasVisibility(a) {
        AbsorbDrops(acc, a);
      } else {
        AbsorbKeeps(acc, a);
        OrVisibility(acc, a);
      }
      VisibilityFrozen(Absorb(acc, a), accesses[1..]);
    }
  }

  /**
   * The visibility bits of the result are exactly those of the first
   * visibility-bearing argument, or none when no argument has any.
   */
  lemma {:induction false} FirstVisibilityWins(acc: Access, accesses: seq<Access>)
    requires !HasVisibility(acc)
    ensures var k := FirstVisible(accesses);
      Combine(acc, accesses) & Visibility
        == (if k < |accesses| then accesses[k] & Visibility else 0)
    decreases |accesses|
  {
    if accesses != [] {
      var a := accesses[0];
      AbsorbKeeps(acc, a);
      OrVisibility(acc, a);
      if HasVisibility(a) {
        VisibilityFrozen(Or(acc, a), accesses[1..]);
      } else {
        FirstVisibilityWins(Or(acc, a), accesses[1..]);
      }
    }
  }

  /** A single visibility bit, or none. */
  predicate AtMostOneVisibility(a: Access) {
    var v := a & Visibility;
    v == 0 || v == ACC_PUBLIC || v == ACC_PRIVATE || v == ACC_PROTECTED
  }

  /**
   * If no argument mixes visibility bits, the result carries at most one:
   * that of the first visibility-bearing argument.
   */
  lemma CombinedVisibilityIsSingle(accesses: seq<Access>)
    requires forall i :: 0 <= i < |accesses| ==> AtMostOneVisibility(accesses[i])
    ensures AtMostOneVisibility(Combine(0, accesses))
  {
    FirstVisibilityWins(0, accesses);
  }
}
