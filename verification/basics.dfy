/** Small vocabulary shared by the components: Swift's optional, duplicate-freedom of an
    array, and the array method `removeAll(where:)`. */
module Basics {

  /** Swift's `Optional`: `nil` or a wrapped value. */
  datatype Option<+T> = None | Some(value: T)

  /** No two positions of `s` hold elements with equal keys. */
  ghost predicate DistinctBy<T, K>(s: seq<T>, key: T -> K)
  {
    forall i, j :: 0 <= i < j < |s| ==> key(s[i]) != key(s[j])
  }

  /** No two positions of `s` hold equal elements. */
  ghost predicate NoDuplicates<T>(s: seq<T>)
  {
    DistinctBy(s, (x: T) => x)
  }

  /** `Array.removeAll(where:)`: drops every element that `matches`, keeping the rest in order. */
  function RemoveAll<T>(s: seq<T>, matches: T -> bool): (r: seq<T>)
    ensures |r| <= |s|
    ensures forall i :: 0 <= i < |r| ==> !matches(r[i])
    ensures forall i :: 0 <= i < |r| ==> r[i] in s
    ensures forall i :: 0 <= i < |s| && !matches(s[i]) ==> s[i] in r
  {
    if s == [] then []
    else
      assert s == [s[0]] + s[1..];
      (if matches(s[0]) then [] else [s[0]]) + RemoveAll(s[1..], matches)
  }

  /** Removal works piecewise, so the survivors keep their relative order. */
  lemma {:induction false} RemoveAllConcat<T>(a: seq<T>, b: seq<T>, matches: T -> bool)
    ensures RemoveAll(a + b, matches) == RemoveAll(a, matches) + RemoveAll(b, matches)
    decreases |a|
  {
    if a == [] {
      assert a + b == b;
    } else {
      assert (a + b)[1..] == a[1..] + b;
      RemoveAllConcat(a[1..], b, matches);
    }
  }

  /** Removing when nothing matches returns the array unchanged. */
  lemma {:induction false} RemoveAllNoMatch<T>(s: seq<T>, matches: T -> bool)
    requires forall i :: 0 <= i < |s| ==> !matches(s[i])
    ensures RemoveAll(s, matches) == s
    decreases |s|
  {
    if s != [] {
      var tail := s[1..];
      assert forall i :: 0 <= i < |tail| ==> tail[i] == s[i + 1];
      RemoveAllNoMatch(tail, matches);
      RemoveAllCons(s, matches);
      assert s == [s[0]] + tail;
    }
  }

  /** One step of removal: the head survives exactly when it does not match. */
  lemma RemoveAllCons<T>(s: seq<T>, matches: T -> bool)
    requires s != []
    ensures RemoveAll(s, matches) == (if matches(s[0]) then [] else [s[0]]) + RemoveAll(s[1..], matches)
  {
  }

  /** When exactly the element at `k` matches, removal cuts out that one position. */
  lemma {:induction false} RemoveAllSingleMatch<T>(s: seq<T>, matches: T -> bool, k: int)
    requires 0 <= k < |s| && matches(s[k])
    requires forall i :: 0 <= i < |s| && i != k ==> !matches(s[i])
    ensures RemoveAll(s, matches) == s[..k] + s[k + 1..]
    decreases |s|
  {
    var tail := s[1..];
    RemoveAllCons(s, matches);
    if k == 0 {
      RemoveAllNoMatch(tail, matches);
      assert s[k + 1..] == tail;
    } else {
      assert forall i :: 0 <= i < |tail| && i != k - 1 ==> !matches(tail[i]) by {
        forall i | 0 <= i < |tail| && i != k - 1 ensures !matches(tail[i]) {
          assert tail[i] == s[i + 1];
        }
      }
      RemoveAllSingleMatch(tail, matches, k - 1);
      assert !matches(s[0]);
      CutAfterHead(s, k);
    }
  }

  /** Cutting position `k > 0` out of `s` keeps the head and cuts position `k - 1` out of the
      tail. */
  lemma CutAfterHead<T>(s: seq<T>, k: int)
    requires 0 < k < |s|
    ensures [s[0]] + (s[1..][..k - 1] + s[1..][k..]) == s[..k] + s[k + 1..]
  {
    assert s[1..][..k - 1] == s[1..k];
    assert s[1..][k..] == s[k + 1..];
    assert [s[0]] + s[1..k] == s[..k];
  }

  /** Removal cannot make two survivors share a key if no two elements did before. */
  lemma {:induction false} RemoveAllKeepsKeysDistinct<T, K>(s: seq<T>, matches: T -> bool, key: T -> K)
    requires DistinctBy(s, key)
    ensures DistinctBy(RemoveAll(s, matches), key)
    decreases |s|
  {
    if s != [] {
      var tail := s[1..];
      assert forall i :: 0 <= i < |tail| ==> tail[i] == s[i + 1];
      RemoveAllKeepsKeysDistinct(tail, matches, key);
      RemoveAllCons(s, matches);
      if !matches(s[0]) {
        var rest := RemoveAll(tail, matches);
        forall j | 0 <= j < |rest| ensures key(rest[j]) != key(s[0]) {
          var m :| 0 <= m < |tail| && tail[m] == rest[j];
        }
        ConsKeepsKeysDistinct(s[0], rest, key);
      }
    }
  }

  /** Putting an element with a fresh key in front keeps the keys distinct. */
  lemma ConsKeepsKeysDistinct<T, K>(x: T, s: seq<T>, key: T -> K)
    requires DistinctBy(s, key)
    requires forall j :: 0 <= j < |s| ==> key(s[j]) != key(x)
    ensures DistinctBy([x] + s, key)
  {
    var r := [x] + s;
    forall a, b | 0 <= a < b < |r| ensures key(r[a]) != key(r[b]) {
      assert r[b] == s[b - 1];
      if a > 0 {
        assert r[a] == s[a - 1];
      }
    }
  }
}
