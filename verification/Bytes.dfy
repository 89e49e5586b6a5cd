/** Byte strings, the order in which every backend keeps its keys, and how prefixes sit in that order. */
module Bytes {
  type Byte = x: int | 0 <= x < 256

  type Data = seq<Byte>

  datatype Ordering = Less | Equal | Greater

  /** Lexicographic comparison of byte slices: the first difference decides, then the length. */
  function Compare(a: Data, b: Data): Ordering
  {
    if a == [] then (if b == [] then Equal else Less)
    else if b == [] then Greater
    else if a[0] < b[0] then Less
    else if a[0] > b[0] then Greater
    else Compare(a[1..], b[1..])
  }

  predicate Below(a: Data, b: Data)
  {
    Compare(a, b) == Less
  }

  predicate StartsWith(key: Data, prefix: Data)
  {
    prefix <= key
  }

  /** Comparison says Equal for equal strings only, and swapping the arguments swaps the answer. */
  lemma {:induction false} CompareIsTotal(a: Data, b: Data)
    ensures Compare(a, b) == Equal <==> a == b
    ensures Below(a, b) <==> Compare(b, a) == Greater
    ensures Below(a, b) || a == b || Below(b, a)
    ensures !(Below(a, b) && Below(b, a))
  {
    if a != [] && b != [] {
      CompareIsTotal(a[1..], b[1..]);
      assert a == [a[0]] + a[1..] && b == [b[0]] + b[1..];
    }
  }

  lemma {:induction false} BelowIsTransitive(a: Data, b: Data, c: Data)
    requires Below(a, b) && Below(b, c)
    ensures Below(a, c)
  {
    if a != [] && a[0] == b[0] == c[0] {
      BelowIsTransitive(a[1..], b[1..], c[1..]);
    }
  }

  /** An independent reading of the order: at the first difference `n`, either `a` ends or its byte is smaller. */
  ghost predicate FirstDifferenceDecides(a: Data, b: Data, n: nat)
  {
    && n <= |a| && n < |b|
    && a[..n] == b[..n]
    && (n == |a| || a[n] < b[n])
  }

  lemma {:induction false} BelowMeansFirstDifference(a: Data, b: Data)
    ensures Below(a, b) <==> exists n: nat :: FirstDifferenceDecides(a, b, n)
  {
    if a == [] {
      if b != [] {
        assert FirstDifferenceDecides(a, b, 0);
      }
    } else if b != [] {
      if a[0] == b[0] {
        BelowMeansFirstDifference(a[1..], b[1..]);
        if n: nat :| FirstDifferenceDecides(a[1..], b[1..], n) {
          assert a[..n + 1] == [a[0]] + a[1..][..n];
          assert b[..n + 1] == [b[0]] + b[1..][..n];
          assert FirstDifferenceDecides(a, b, n + 1);
        }
        if n: nat :| FirstDifferenceDecides(a, b, n) {
          assert n > 0;
          assert a[1..][..n - 1] == a[..n][1..] && b[1..][..n - 1] == b[..n][1..];
          assert FirstDifferenceDecides(a[1..], b[1..], n - 1);
        }
      } else {
        if a[0] < b[0] {
          assert FirstDifferenceDecides(a, b, 0);
        }
      }
    }
  }

  /** A string never sorts before one of its prefixes. */
  lemma {:induction false} PrefixIsNotAbove(key: Data, prefix: Data)
    requires StartsWith(key, prefix)
    ensures !Below(key, prefix)
  {
    if prefix != [] {
      PrefixIsNotAbove(key[1..], prefix[1..]);
    }
  }

  /** Strings sharing a prefix are contiguous: what lies between the prefix and one of them shares it too. */
  lemma {:induction false} SharedPrefixIsContiguous(prefix: Data, a: Data, b: Data)
    requires !Below(a, prefix) && Below(a, b) && StartsWith(b, prefix)
    ensures StartsWith(a, prefix)
  {
    if prefix != [] {
      assert a != [] && a[0] == prefix[0] == b[0];
      SharedPrefixIsContiguous(prefix[1..], a[1..], b[1..]);
      assert a == [a[0]] + a[1..] && prefix == [prefix[0]] + prefix[1..];
    }
  }
}
