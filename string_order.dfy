/** The order in which clue texts are compared: `strcmp`, byte-wise
    lexicographic order, where the end of a string (its terminating NUL)
    compares below every character. Dafny's own `<` on sequences is the
    proper-prefix relation, so the order is written out here and proved to
    be a strict total order. */
module StringOrder {

  /** The sign of `strcmp(a, b)`: negative, zero or positive, as -1, 0 or 1.
      Texts are sequences of Unicode code points compared by their numeric
      value; on UTF-8 text this is the order byte-wise `strcmp` gives, as
      UTF-8 encoding preserves code-point order. */
  function Compare(a: string, b: string): (r: int)
    ensures -1 <= r <= 1
    decreases |a|
  {
    if |a| == 0 && |b| == 0 then 0
    else if |a| == 0 then -1
    else if |b| == 0 then 1
    else if a[0] < b[0] then -1
    else if b[0] < a[0] then 1
    else Compare(a[1..], b[1..])
  }

  /** The first position where the two texts differ decides the sign:
      the text with the smaller character there sorts first, whatever
      follows and whatever the lengths. */
  lemma {:induction false} CompareFirstDifference(a: string, b: string, k: nat)
    requires k < |a| && k < |b| && a[..k] == b[..k] && a[k] < b[k]
    ensures Compare(a, b) == -1
    decreases k
  {
    if k > 0 {
      assert a[0] == a[..k][0] == b[..k][0] == b[0];
      assert a[1..][..k - 1] == a[..k][1..] == b[..k][1..] == b[1..][..k - 1];
      CompareFirstDifference(a[1..], b[1..], k - 1);
    }
  }

  /** `strcmp(a, b) < 0`. */
  predicate Lt(a: string, b: string) {
    Compare(a, b) < 0
  }

  /** `strcmp` returns zero exactly on equal strings. */
  lemma {:induction false} CompareZeroIffEqual(a: string, b: string)
    ensures Compare(a, b) == 0 <==> a == b
    decreases |a|
  {
    if |a| > 0 && |b| > 0 && a[0] == b[0] {
      CompareZeroIffEqual(a[1..], b[1..]);
      assert a == [a[0]] + a[1..];
      assert b == [b[0]] + b[1..];
      if a == b {
        assert a[1..] == b[1..];
      }
    } else if |a| > 0 && |b| > 0 {
      assert a[0] != b[0];
    }
  }

  /** Swapping the arguments of `strcmp` flips the sign of its result. */
  lemma {:induction false} CompareFlip(a: string, b: string)
    ensures Compare(b, a) == -Compare(a, b)
    decreases |a|
  {
    if |a| > 0 && |b| > 0 && a[0] == b[0] {
      CompareFlip(a[1..], b[1..]);
    }
  }

  lemma LtIrreflexive(a: string)
    ensures !Lt(a, a)
  {
    CompareZeroIffEqual(a, a);
  }

  lemma LtAsymmetric(a: string, b: string)
    ensures Lt(a, b) ==> !Lt(b, a)
  {
    CompareFlip(a, b);
  }

  lemma {:induction false} LtTransitive(a: string, b: string, c: string)
    requires Lt(a, b) && Lt(b, c)
    ensures Lt(a, c)
    decreases |a|
  {
    if |a| > 0 && a[0] == b[0] && b[0] == c[0] {
      LtTransitive(a[1..], b[1..], c[1..]);
    }
  }

  /** Any two distinct texts are ordered one way or the other. */
  lemma LtTotal(a: string, b: string)
    ensures a == b || Lt(a, b) || Lt(b, a)
  {
    CompareZeroIffEqual(a, b);
    CompareFlip(a, b);
  }

  /** A proper prefix compares below the longer string, as the NUL
      terminator of the prefix meets a character of the other string. */
  lemma {:induction false} ProperPrefixIsLess(a: string, b: string)
    requires a < b
    ensures Lt(a, b)
    decreases |a|
  {
    if |a| > 0 {
      assert a[0] == b[0];
      assert a[1..] < b[1..];
      ProperPrefixIsLess(a[1..], b[1..]);
    }
  }
}
