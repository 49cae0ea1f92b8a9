/** Order-preserving selection: walk a sequence front to back, keep the
    elements a test accepts and report each kept one through a mapping. Both
    loops of gosearch that append to a growing slice (the word list and the
    confirmed directories) compute such a selection. */
module Selection {

  /** The images under `f` of the elements of `s` that `keep` accepts, in the
      order of `s`. Defined from the back, the way a loop appends. */
  function Select<T, U>(s: seq<T>, keep: T -> bool, f: T -> U): (r: seq<U>)
    ensures |r| <= |s|
    ensures |r| == |s| ==> forall i :: 0 <= i < |s| ==> keep(s[i])
  {
    if s == [] then []
    else Select(s[..|s| - 1], keep, f) + (if keep(s[|s| - 1]) then [f(s[|s| - 1])] else [])
  }

  /** Selecting from a sequence extended by one element. */
  lemma SelectSnoc<T, U>(s: seq<T>, x: T, keep: T -> bool, f: T -> U)
    ensures Select(s + [x], keep, f) == Select(s, keep, f) + (if keep(x) then [f(x)] else [])
  {
    assert (s + [x])[..|s|] == s;
  }

  /** The position in `s` of the element the `k`-th selected value comes from. */
  function Origin<T, U>(s: seq<T>, keep: T -> bool, f: T -> U, k: nat): (i: nat)
    requires k < |Select(s, keep, f)|
    ensures i < |s| && keep(s[i]) && Select(s, keep, f)[k] == f(s[i])
  {
    var n := |s| - 1;
    var prefix := Select(s[..n], keep, f);
    if k < |prefix| then
      var i := Origin(s[..n], keep, f, k);
      assert s[..n][i] == s[i];
      i
    else
      n
  }

  /** Later selected values come from later positions: the selection keeps
      the order of `s`. */
  lemma {:induction false} OriginIncreasing<T, U>(s: seq<T>, keep: T -> bool, f: T -> U, j: nat, k: nat)
    requires j < k < |Select(s, keep, f)|
    ensures Origin(s, keep, f, j) < Origin(s, keep, f, k)
  {
    var n := |s| - 1;
    if k < |Select(s[..n], keep, f)| {
      OriginIncreasing(s[..n], keep, f, j, k);
    }
  }

  /** Every accepted element of `s` is the origin of some selected value:
      nothing accepted is dropped. */
  lemma {:induction false} OriginOnto<T, U>(s: seq<T>, keep: T -> bool, f: T -> U, i: nat)
    requires i < |s| && keep(s[i])
    ensures exists k :: 0 <= k < |Select(s, keep, f)| && Origin(s, keep, f, k) == i
  {
    var n := |s| - 1;
    var prefix := Select(s[..n], keep, f);
    if i < n {
      assert s[..n][i] == s[i];
      OriginOnto(s[..n], keep, f, i);
      var k :| 0 <= k < |prefix| && Origin(s[..n], keep, f, k) == i;
      assert Origin(s, keep, f, k) == i;
    } else {
      assert Origin(s, keep, f, |prefix|) == i;
    }
  }

  /** The selection, exactly: its values are the images of the accepted
      elements of `s` and of nothing else, in the order of `s`. */
  lemma SelectExactly<T, U>(s: seq<T>, keep: T -> bool, f: T -> U)
    ensures forall k :: 0 <= k < |Select(s, keep, f)| ==>
      var i := Origin(s, keep, f, k); i < |s| && keep(s[i]) && Select(s, keep, f)[k] == f(s[i])
    ensures forall j, k :: 0 <= j < k < |Select(s, keep, f)| ==> Origin(s, keep, f, j) < Origin(s, keep, f, k)
    ensures forall i :: 0 <= i < |s| && keep(s[i]) ==>
      exists k :: 0 <= k < |Select(s, keep, f)| && Origin(s, keep, f, k) == i
  {
    forall j, k | 0 <= j < k < |Select(s, keep, f)| ensures Origin(s, keep, f, j) < Origin(s, keep, f, k) {
      OriginIncreasing(s, keep, f, j, k);
    }
    forall i | 0 <= i < |s| && keep(s[i])
      ensures exists k :: 0 <= k < |Select(s, keep, f)| && Origin(s, keep, f, k) == i
    {
      OriginOnto(s, keep, f, i);
    }
  }
}
