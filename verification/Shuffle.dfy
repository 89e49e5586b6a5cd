/**
 `shuffle_until_different`: Fisher-Yates passes over a slice, repeated until a pass swaps something.
 The random generator is a parameter giving every draw of every pass, so all draws are covered.
 */
module Shuffle {
  const MAX_ATTEMPTS := 1000

  function Swap<T>(s: seq<T>, i: nat, j: nat): (r: seq<T>)
    requires i < |s| && j < |s|
    ensures |r| == |s|
  {
    s[i := s[j]][j := s[i]]
  }

  /** A generator draws for place `i` an index in `0..i + 1`. */
  ghost predicate InRange(draw: nat -> nat)
  {
    forall i: nat :: draw(i) <= i
  }

  /** One pass, from place `i` down to place 1. */
  ghost function Pass<T>(s: seq<T>, draw: nat -> nat, i: nat): (r: seq<T>)
    requires InRange(draw) && (i == 0 || i < |s|)
    ensures |r| == |s|
    decreases i
  {
    if i == 0 then s else Pass(Swap(s, i, draw(i)), draw, i - 1)
  }

  ghost predicate Distinct<T(!new)>(s: seq<T>)
  {
    forall i, j | 0 <= i < j < |s| :: s[i] != s[j]
  }

  /** Some draw of the pass is not its own place. */
  ghost predicate Swaps(draw: nat -> nat, i: nat)
  {
    exists k: nat :: 1 <= k <= i && draw(k) != k
  }

  lemma SwapPermutes<T>(s: seq<T>, i: nat, j: nat)
    requires i < |s| && j < |s|
    ensures multiset(Swap(s, i, j)) == multiset(s)
  {}

  lemma {:induction false} PassPermutes<T>(s: seq<T>, draw: nat -> nat, i: nat)
    requires InRange(draw) && (i == 0 || i < |s|)
    ensures multiset(Pass(s, draw, i)) == multiset(s)
    decreases i
  {
    if i > 0 {
      SwapPermutes(s, i, draw(i));
      PassPermutes(Swap(s, i, draw(i)), draw, i - 1);
    }
  }

  /** A pass never comes back to a place it has left behind. */
  lemma {:induction false} PassFreezesAbove<T>(s: seq<T>, draw: nat -> nat, i: nat, k: nat)
    requires InRange(draw) && (i == 0 || i < |s|)
    requires i < k < |s|
    ensures Pass(s, draw, i)[k] == s[k]
    decreases i
  {
    if i > 0 {
      PassFreezesAbove(Swap(s, i, draw(i)), draw, i - 1, k);
    }
  }

  /** A pass changes the order of distinct elements if and only if it swaps at all. */
  lemma {:induction false} PassChangesExactlyWhen<T(!new)>(s: seq<T>, draw: nat -> nat, i: nat)
    requires InRange(draw) && (i == 0 || i < |s|) && Distinct(s)
    ensures Pass(s, draw, i) != s <==> Swaps(draw, i)
    decreases i
  {
    if i > 0 {
      if draw(i) == i {
        assert Swap(s, i, i) == s;
        PassChangesExactlyWhen(s, draw, i - 1);
        assert Swaps(draw, i) <==> Swaps(draw, i - 1);
      } else {
        PassFreezesAbove(Swap(s, i, draw(i)), draw, i - 1, i);
        assert Pass(s, draw, i)[i] == s[draw(i)] != s[i];
        assert Swaps(draw, i);
      }
    }
  }

  /**
   The promise of a different order holds for every run of swapping draws if and only if the elements are
   pairwise distinct: two equal ones may be all that gets swapped.
   */
  lemma DiffersExactlyWhenDistinct<T(!new)>(s: seq<T>)
    ensures (forall draw: nat -> nat | InRange(draw) && Swaps(draw, Top(|s|)) :: Pass(s, draw, Top(|s|)) != s)
       <==> Distinct(s)
  {
    if Distinct(s) {
      forall draw: nat -> nat | InRange(draw) && Swaps(draw, Top(|s|)) ensures Pass(s, draw, Top(|s|)) != s {
        PassChangesExactlyWhen(s, draw, Top(|s|));
      }
    } else {
      var draw := DrawsSwappingEquals(s);
    }
  }

  lemma DrawsSwappingEquals<T(!new)>(s: seq<T>) returns (draw: nat -> nat)
    requires !Distinct(s)
    ensures InRange(draw) && Swaps(draw, Top(|s|)) && Pass(s, draw, Top(|s|)) == s
  {
    var i, j :| 0 <= i < j < |s| && s[i] == s[j];
    draw := k => if k == j then i else k;
    assert draw(j) != j;
    SwappingEqualsChangesNothing(s, draw, Top(|s|));
  }

  lemma {:induction false} SwappingEqualsChangesNothing<T>(s: seq<T>, draw: nat -> nat, i: nat)
    requires InRange(draw) && (i == 0 || i < |s|)
    requires forall k: nat | 1 <= k <= i :: s[draw(k)] == s[k]
    ensures Pass(s, draw, i) == s
    decreases i
  {
    if i > 0 {
      assert Swap(s, i, draw(i)) == s;
      SwappingEqualsChangesNothing(s, draw, i - 1);
    }
  }

  /** The draws of one attempt. */
  function Draws(rng: (nat, nat) -> nat, attempt: nat): nat -> nat
  {
    k => rng(attempt, k)
  }

  ghost predicate AttemptSwaps(rng: (nat, nat) -> nat, attempt: nat, top: nat)
  {
    Swaps(Draws(rng, attempt), top)
  }

  /** Every draw of every attempt is in range. */
  ghost predicate IsRng(rng: (nat, nat) -> nat)
  {
    forall attempt: nat, i: nat :: rng(attempt, i) <= i
  }

  /** `t` is what the first attempt that swaps makes of `s`. */
  ghost predicate FirstSwappingPass<T>(s: seq<T>, rng: (nat, nat) -> nat, t: seq<T>)
    requires IsRng(rng)
  {
    exists n: nat ::
      && n < 1000 && AttemptSwaps(rng, n, Top(|s|))
      && (forall earlier: nat | earlier < n :: !AttemptSwaps(rng, earlier, Top(|s|)))
      && t == Pass(s, Draws(rng, n), Top(|s|))
  }

  method ShuffleUntilDifferent<T(!new)>(slice: array<T>, rng: (nat, nat) -> nat) returns (ok: bool)
    requires IsRng(rng)
    modifies slice
    ensures multiset(slice[..]) == multiset(old(slice[..]))
    ensures ok && Distinct(old(slice[..])) ==> slice[..] != old(slice[..])
    ensures !ok ==> slice[..] == old(slice[..])
    // it gives up exactly when no draw of the thousand attempts swaps anything
    ensures ok <==> exists n: nat :: n < 1000 && AttemptSwaps(rng, n, Top(slice.Length))
    // otherwise the first attempt that swaps decides the result
    ensures ok ==> FirstSwappingPass(old(slice[..]), rng, slice[..])
  {
    ghost var start := slice[..];
    for attempt := 0 to MAX_ATTEMPTS
      invariant slice[..] == start
      invariant forall earlier: nat | earlier < attempt :: !AttemptSwaps(rng, earlier, Top(slice.Length))
    {
      var swapped := ShufflePass(slice, Draws(rng, attempt));
      if swapped {
        PassPermutes(start, Draws(rng, attempt), Top(slice.Length));
        if Distinct(start) {
          PassChangesExactlyWhen(start, Draws(rng, attempt), Top(slice.Length));
        }
        assert AttemptSwaps(rng, attempt, Top(slice.Length));
        return true;
      }
    }
    return false;
  }

  /** One pass in place; the result tells whether anything was swapped. */
  method ShufflePass<T>(slice: array<T>, draw: nat -> nat) returns (swapped: bool)
    requires InRange(draw)
    modifies slice
    ensures slice[..] == Pass(old(slice[..]), draw, Top(slice.Length))
    ensures swapped <==> Swaps(draw, Top(slice.Length))
    ensures !swapped ==> slice[..] == old(slice[..])
  {
    ghost var start := slice[..];
    swapped := false;
    var i: nat := Top(slice.Length);
    while i >= 1
      invariant i <= Top(slice.Length)
      invariant Pass(slice[..], draw, i) == Pass(start, draw, Top(slice.Length))
      invariant swapped <==> exists k: nat :: i < k <= Top(slice.Length) && draw(k) != k
      invariant !swapped ==> slice[..] == start
    {
      var otherIdx := draw(i);
      ghost var before := slice[..];
      if otherIdx != i {
        slice[i], slice[otherIdx] := slice[otherIdx], slice[i];
        swapped := true;
      }
      assert slice[..] == Swap(before, i, draw(i));
      i := i - 1;
    }
  }

  /** The highest place of a slice. */
  function Top(length: nat): nat
  {
    if length == 0 then 0 else length - 1
  }

  /** Every order of the elements comes out of a pass for some draws. */
  lemma EveryOrderCanComeOut<T>(s: seq<T>, t: seq<T>) returns (draw: nat -> nat)
    requires multiset(s) == multiset(t)
    ensures InRange(draw) && Pass(s, draw, Top(|s|)) == t
  {
    assert |s| == |multiset(s)| == |multiset(t)| == |t|;
    if s == [] {
      draw := k => k;
    } else {
      assert s[..|s|] == s && t[..|s|] == t;
      draw := DrawsFor(s, t, |s| - 1);
    }
  }

  /** Draws that swap something on the way to `t`; between two equal elements a swap leads back to `s`. */
  lemma SwappingDrawsFor<T(!new)>(s: seq<T>, t: seq<T>) returns (draw: nat -> nat)
    requires multiset(s) == multiset(t) && (t != s || !Distinct(s))
    ensures InRange(draw) && Swaps(draw, Top(|s|)) && Pass(s, draw, Top(|s|)) == t
  {
    if t == s {
      draw := DrawsSwappingEquals(s);
    } else {
      draw := EveryOrderCanComeOut(s, t);
      if !Swaps(draw, Top(|s|)) {
        SwappingEqualsChangesNothing(s, draw, Top(|s|));
      }
    }
  }

  /**
   The orders the whole function can hand back: every one other than the order it was given, and that
   one if and only if two elements are equal.
   */
  lemma EveryOtherOrderCanComeOut<T(!new)>(s: seq<T>, t: seq<T>)
    requires multiset(s) == multiset(t)
    ensures (exists rng :: IsRng(rng) && FirstSwappingPass(s, rng, t)) <==> t != s || !Distinct(s)
  {
    if t != s || !Distinct(s) {
      var draw := SwappingDrawsFor(s, t);
      var rng: (nat, nat) -> nat := (attempt, i) => draw(i);
      SameDrawsBelow(s, draw, Draws(rng, 0), Top(|s|));
      assert AttemptSwaps(rng, 0, Top(|s|));
      assert IsRng(rng) && FirstSwappingPass(s, rng, t);
    } else {
      forall rng | IsRng(rng) ensures !FirstSwappingPass(s, rng, t) {
        DistinctNeverComeBack(s, rng);
      }
    }
  }

  lemma DistinctNeverComeBack<T(!new)>(s: seq<T>, rng: (nat, nat) -> nat)
    requires Distinct(s) && IsRng(rng)
    ensures !FirstSwappingPass(s, rng, s)
  {
    forall n: nat | AttemptSwaps(rng, n, Top(|s|)) ensures Pass(s, Draws(rng, n), Top(|s|)) != s {
      PassChangesExactlyWhen(s, Draws(rng, n), Top(|s|));
    }
  }

  lemma SameWithoutLast<T>(a: seq<T>, b: seq<T>, last: T)
    requires multiset(a + [last]) == multiset(b + [last])
    ensures multiset(a) == multiset(b)
  {
    assert multiset(a) == multiset(a + [last]) - multiset{last};
    assert multiset(b) == multiset(b + [last]) - multiset{last};
  }

  /** The element that belongs last is somewhere, and swapping it there leaves the others to be arranged. */
  lemma FindLast<T>(s: seq<T>, t: seq<T>) returns (j: nat)
    requires |s| == |t| > 0 && multiset(s) == multiset(t)
    ensures j < |s| && s[j] == t[|t| - 1]
    ensures multiset(Swap(s, |s| - 1, j)[..|s| - 1]) == multiset(t[..|t| - 1])
  {
    var i := |s| - 1;
    assert t[i] in multiset(t);
    assert t[i] in s;
    j :| 0 <= j < |s| && s[j] == t[i];
    var s' := Swap(s, i, j);
    SwapPermutes(s, i, j);
    assert s' == s'[..i] + [t[i]] && t == t[..i] + [t[i]];
    SameWithoutLast(s'[..i], t[..i], t[i]);
  }

  lemma FindForPlace<T>(s: seq<T>, t: seq<T>, i: nat) returns (j: nat)
    requires |s| == |t| && i < |s| && multiset(s[..i + 1]) == multiset(t[..i + 1])
    ensures j <= i && s[j] == t[i]
    ensures multiset(Swap(s, i, j)[..i]) == multiset(t[..i])
  {
    var a, b := s[..i + 1], t[..i + 1];
    j := FindLast(a, b);
    forall k | 0 <= k < i ensures Swap(s, i, j)[..i][k] == Swap(a, i, j)[..i][k] {
      assert Swap(s, i, j)[k] == Swap(a, i, j)[k];
    }
    assert Swap(s, i, j)[..i] == Swap(a, i, j)[..i];
    assert b[..i] == t[..i];
  }

  lemma {:induction false} DrawsFor<T>(s: seq<T>, t: seq<T>, i: nat) returns (draw: nat -> nat)
    requires |s| == |t| && i < |s|
    requires multiset(s[..i + 1]) == multiset(t[..i + 1])
    requires forall k | i < k < |s| :: s[k] == t[k]
    ensures InRange(draw) && Pass(s, draw, i) == t
    decreases i
  {
    var j := FindForPlace(s, t, i);
    var s' := Swap(s, i, j);
    assert forall k | i <= k < |s'| :: s'[k] == t[k];
    if i == 0 {
      draw := k => k;
    } else {
      var below := DrawsFor(s', t, i - 1);
      draw := k => if k == i then j else below(k);
      SameDrawsBelow(s', below, draw, i - 1);
    }
  }

  lemma {:induction false} SameDrawsBelow<T>(s: seq<T>, a: nat -> nat, b: nat -> nat, i: nat)
    requires InRange(a) && InRange(b) && (i == 0 || i < |s|)
    requires forall k: nat | k <= i :: a(k) == b(k)
    ensures Pass(s, a, i) == Pass(s, b, i)
    decreases i
  {
    if i > 0 {
      SameDrawsBelow(Swap(s, i, a(i)), a, b, i - 1);
    }
  }
}
