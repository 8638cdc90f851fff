/** Small sequence and character helpers shared by the modules. */
module Common {

  datatype Option<T> = None | Some(value: T)

  /** A decimal digit, as `\d` matches it. */
  predicate IsDigit(c: char) {
    '0' <= c <= '9'
  }

  /** The position of the first occurrence of `x` in `s`, if any. */
  function IndexOf<T(==)>(s: seq<T>, x: T): (r: Option<nat>)
    ensures r.Some? ==> r.value < |s| && s[r.value] == x
    ensures r.Some? ==> forall k :: 0 <= k < r.value ==> s[k] != x
    ensures r.None? <==> x !in s
    decreases |s|
  {
    if s == [] then None
    else if s[0] == x then Some(0)
    else
      match IndexOf(s[1..], x)
      case None => None
      case Some(k) => Some(k + 1)
  }

  /** No value occurs twice in `s`. */
  predicate Distinct<T(==)>(s: seq<T>) {
    forall i, j :: 0 <= i < j < |s| ==> s[i] != s[j]
  }

  /** Appending a new element keeps a sequence free of repetitions. */
  lemma DistinctAppend<T>(s: seq<T>, x: T)
    requires Distinct(s) && x !in s
    ensures Distinct(s + [x])
  {
    var t := s + [x];
    forall i, j | 0 <= i < j < |t| ensures t[i] != t[j] {
      if j == |s| {
        assert t[i] == s[i];
      } else {
        assert t[i] == s[i] && t[j] == s[j];
      }
    }
  }

  /** In a sequence without repetitions, the first occurrence of `s[k]` is `k`. */
  lemma IndexOfDistinct<T>(s: seq<T>, k: nat)
    requires Distinct(s) && k < |s|
    ensures IndexOf(s, s[k]) == Some(k)
  {
  }

  /** Looking up `x` in `s + [y]`: found in `s`, found at the new last position, or absent. */
  lemma IndexOfAppend<T>(s: seq<T>, y: T, x: T)
    ensures IndexOf(s + [y], x) ==
      if x in s then IndexOf(s, x) else if x == y then Some(|s|) else None
  {
    if x in s {
      assert (s + [y])[IndexOf(s, x).value] == x;
    } else if x == y {
      assert (s + [y])[|s|] == x;
    } else {
      assert x !in s + [y];
    }
  }

  /** In a sequence without repetitions every element occurs exactly once. */
  lemma {:induction false} DistinctOccursOnce<T>(s: seq<T>, k: nat)
    requires Distinct(s) && k < |s|
    ensures multiset(s)[s[k]] == 1
  {
    assert s == [s[0]] + s[1..];
    if k == 0 {
      assert s[0] !in s[1..];
    } else {
      assert s[1..][k - 1] == s[k];
      DistinctOccursOnce(s[1..], k - 1);
    }
  }
}
