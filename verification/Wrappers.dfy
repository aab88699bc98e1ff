/** What every module uses: the option type for Python's `None`-or-value results, and facts about sequences. */
module Wrappers {
  datatype Option<+T> = None | Some(value: T)
  {
    function UnwrapOr(default: T): T {
      if Some? then value else default
    }
  }

  ghost predicate Distinct<T>(w: seq<T>) {
    forall i, j :: 0 <= i < j < |w| ==> w[i] != w[j]
  }

  lemma DistinctSnoc<T>(w: seq<T>, x: T)
    requires Distinct(w) && x !in w
    ensures Distinct(w + [x]) && forall y :: y in w + [x] <==> y in w || y == x
  {
  }

  lemma {:induction false} DistinctFits<T>(w: seq<T>, s: set<T>)
    requires Distinct(w) && forall x :: x in w ==> x in s
    ensures |w| <= |s|
    decreases |w|
  {
    if |w| > 0 {
      var last := w[|w| - 1];
      DistinctFits(w[..|w| - 1], s - {last});
    }
  }

  function Reverse<T>(s: seq<T>): (r: seq<T>)
    ensures |r| == |s|
  {
    if s == [] then [] else Reverse(s[1..]) + [s[0]]
  }

  lemma ReverseSnoc<T>(s: seq<T>, x: T)
    ensures Reverse(s + [x]) == [x] + Reverse(s)
  {
    if s != [] {
      ReverseSnoc(s[1..], x);
      assert (s + [x])[1..] == s[1..] + [x];
    }
  }
}
