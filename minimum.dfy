/** The selection rule every scan of the source uses: keep the first element seen and
    replace the candidate only when a later element has a strictly smaller key. */
module Minimum {
  import opened Outcomes

  /** `s[k]` has the least key of `s` and every element before it has a strictly larger key. */
  ghost predicate IsFirstMinimum<T>(s: seq<T>, k: int, key: T -> int) {
    && 0 <= k < |s|
    && (forall i :: 0 <= i < |s| ==> key(s[k]) <= key(s[i]))
    && (forall i :: 0 <= i < k ==> key(s[k]) < key(s[i]))
  }

  /** The candidate a left-to-right scan of `s` holds at the end: the scan starts with no
      candidate and takes an element when it has none yet or when the element's key is
      strictly smaller than the candidate's. */
  function FirstMin<T>(s: seq<T>, key: T -> int): (r: Option<T>)
    ensures r.Some? <==> s != []
    ensures r.Some? ==> r.value in s
  {
    if s == [] then None
    else
      var m := FirstMin(s[..|s| - 1], key);
      if m.None? || key(s[|s| - 1]) < key(m.value) then Some(s[|s| - 1]) else m
  }

  /** The scan keeps exactly the first element of least key. */
  lemma {:induction false} FirstMinIsFirstMinimum<T>(s: seq<T>, key: T -> int)
    requires s != []
    ensures exists k :: IsFirstMinimum(s, k, key) && FirstMin(s, key) == Some(s[k])
  {
    var n := |s| - 1;
    var init := s[..n];
    if init == [] {
      assert IsFirstMinimum(s, 0, key);
    } else {
      FirstMinIsFirstMinimum(init, key);
      var k :| IsFirstMinimum(init, k, key) && FirstMin(init, key) == Some(init[k]);
      assert forall i :: 0 <= i < n ==> s[i] == init[i];
      if key(s[n]) < key(init[k]) {
        assert IsFirstMinimum(s, n, key);
      } else {
        assert IsFirstMinimum(s, k, key);
      }
    }
  }

  /** At most one position of a sequence is its first minimum. */
  lemma FirstMinimumUnique<T>(s: seq<T>, k1: int, k2: int, key: T -> int)
    requires IsFirstMinimum(s, k1, key) && IsFirstMinimum(s, k2, key)
    ensures k1 == k2
  {
    assert key(s[k1]) == key(s[k2]);
  }

  /** The scan's candidate has the least key of all elements of `s`. */
  lemma FirstMinIsLeast<T>(s: seq<T>, key: T -> int, x: T)
    requires x in s
    ensures FirstMin(s, key).Some? && key(FirstMin(s, key).value) <= key(x)
  {
    FirstMinIsFirstMinimum(s, key);
  }

  /** One more element at the end of the scanned sequence: the scan's step. */
  lemma FirstMinSnoc<T>(s: seq<T>, x: T, key: T -> int)
    ensures FirstMin(s + [x], key) ==
      var m := FirstMin(s, key); if m.None? || key(x) < key(m.value) then Some(x) else m
  {
    assert (s + [x])[..|s|] == s;
  }
}
