/**
 * How JavaScript evaluates `a < b` when `a` and `b` are arrays of plain
 * objects: both sides are converted to primitives with `Array.prototype.join`,
 * every element printing as "[object Object]", and the two resulting strings
 * are compared code unit by code unit.
 */
module JsCoercion {

  /** What a plain object turns into when converted to a string. */
  const ObjectTag: string := "[object Object]"

  /** The string an array of `n` plain objects is coerced to. */
  function ArrayString(n: nat): (s: string)
    ensures n == 0 ==> |s| == 0
    ensures n > 0 ==> |s| == 16 * n - 1
  {
    if n == 0 then ""
    else if n == 1 then ObjectTag
    else ArrayString(n - 1) + "," + ObjectTag
  }

  /**
   * JavaScript's `<` on two strings: lexicographic order, character by
   * character. Only ASCII strings ("[object Object]" and ",") are compared
   * here, where characters and UTF-16 code units coincide.
   */
  predicate LexLess(a: string, b: string): (r: bool)
    ensures r <==> StringLess(a, b)
    decreases |a|
  {
    if |a| == 0 then |b| > 0
    else if |b| == 0 then false
    else if a[0] != b[0] then
      FirstCharDecides(a, b);
      a[0] < b[0]
    else
      SameFirstChar(a, b);
      LexLess(a[1..], b[1..])
  }

  /**
   * The string order of section 7.2.13 of ECMA-262 (IsLessThan on two
   * strings): a proper prefix is smaller; otherwise the first position where
   * the strings differ decides.
   */
  predicate StringLess(a: string, b: string) {
    PrefixLess(a, b) || exists k :: 0 <= k < |a| && DiffersFirstAt(a, b, k)
  }

  /** `a` is a proper prefix of `b`. */
  predicate PrefixLess(a: string, b: string) {
    |a| < |b| && a == b[..|a|]
  }

  /** `a` and `b` agree before position `k`, where `a` holds the smaller character. */
  predicate DiffersFirstAt(a: string, b: string, k: int) {
    0 <= k < |a| && k < |b| && a[..k] == b[..k] && a[k] < b[k]
  }

  lemma FirstCharDecides(a: string, b: string)
    requires |a| > 0 && |b| > 0 && a[0] != b[0]
    ensures StringLess(a, b) <==> a[0] < b[0]
  {
    if a[0] < b[0] {
      assert a[..0] == b[..0];
      assert DiffersFirstAt(a, b, 0);
    }
    if exists k :: DiffersFirstAt(a, b, k) {
      var k :| DiffersFirstAt(a, b, k);
      if k > 0 {
        assert a[0] == a[..k][0];
      }
    }
  }

  lemma PrefixShift(a: string, b: string)
    requires |a| > 0 && |b| > 0 && a[0] == b[0]
    ensures PrefixLess(a, b) <==> PrefixLess(a[1..], b[1..])
  {
    if PrefixLess(a, b) {
      assert a[1..] == b[1..][..|a| - 1];
    }
    if PrefixLess(a[1..], b[1..]) {
      assert a == [a[0]] + a[1..] && b[..|a|] == [b[0]] + b[1..][..|a| - 1];
    }
  }

  lemma DiffShift(a: string, b: string, k: int)
    requires |a| > 0 && |b| > 0 && a[0] == b[0] && k > 0
    ensures DiffersFirstAt(a, b, k) <==> DiffersFirstAt(a[1..], b[1..], k - 1)
  {
    if DiffersFirstAt(a, b, k) {
      assert a[1..][..k - 1] == a[..k][1..] && b[1..][..k - 1] == b[..k][1..];
    }
    if DiffersFirstAt(a[1..], b[1..], k - 1) {
      assert a[..k] == [a[0]] + a[1..][..k - 1] && b[..k] == [b[0]] + b[1..][..k - 1];
    }
  }

  lemma SameFirstChar(a: string, b: string)
    requires |a| > 0 && |b| > 0 && a[0] == b[0]
    ensures StringLess(a, b) <==> StringLess(a[1..], b[1..])
  {
    PrefixShift(a, b);
    if exists k :: DiffersFirstAt(a, b, k) {
      var k :| DiffersFirstAt(a, b, k);
      assert k != 0;
      DiffShift(a, b, k);
    }
    if exists k :: DiffersFirstAt(a[1..], b[1..], k) {
      var k :| DiffersFirstAt(a[1..], b[1..], k);
      DiffShift(a, b, k + 1);
    }
  }

  /** A proper prefix is always smaller. */
  lemma {:induction false} ProperPrefixIsLess(a: string, b: string)
    requires a < b
    ensures LexLess(a, b)
    decreases |a|
  {
    if |a| > 0 {
      assert a[1..] < b[1..];
      ProperPrefixIsLess(a[1..], b[1..]);
    }
  }

  /** A string is never smaller than one of its prefixes. */
  lemma {:induction false} ExtensionIsNotLess(a: string, b: string)
    requires b <= a
    ensures !LexLess(a, b)
    decreases |a|
  {
    if |a| > 0 && |b| > 0 {
      assert b[1..] <= a[1..];
      ExtensionIsNotLess(a[1..], b[1..]);
    }
  }

  /** The coerced string of a shorter array is a prefix of a longer one's. */
  lemma {:induction false} ArrayStringPrefix(n: nat, m: nat)
    requires n <= m
    ensures ArrayString(n) <= ArrayString(m)
    decreases m - n
  {
    if n < m {
      ArrayStringPrefix(n, m - 1);
      var s := ArrayString(m - 1);
      if m - 1 == 0 {
        assert ArrayString(m - 1) == [];
      } else {
        assert ArrayString(m) == s + ("," + ObjectTag);
      }
    }
  }

  /**
   * Comparing two arrays of plain objects with `<` is the same as comparing
   * their lengths, because one coerced string is always a prefix of the other.
   */
  lemma ArrayLessIsLengthLess(n: nat, m: nat)
    ensures LexLess(ArrayString(n), ArrayString(m)) <==> n < m
  {
    if n < m {
      ArrayStringPrefix(n, m);
      ProperPrefixIsLess(ArrayString(n), ArrayString(m));
    } else {
      ArrayStringPrefix(m, n);
      ExtensionIsNotLess(ArrayString(n), ArrayString(m));
    }
  }
}
