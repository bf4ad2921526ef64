/** Order-preserving selection from a sequence: the list comprehensions with an
    `if` and the SQL `WHERE` filters of the backend are all instances of it. */
module Sequences {

  /** The elements of `s` that satisfy `p`, in their original order. */
  function Filter<T(==,!new)>(s: seq<T>, p: T -> bool): (r: seq<T>)
    ensures |r| <= |s|
    ensures forall x :: x in r <==> x in s && p(x)
  {
    if s == [] then [] else (if p(s[0]) then [s[0]] else []) + Filter(s[1..], p)
  }

  /** Filtering one more element at the end extends the result by that element
      exactly when it is selected (the step of a loop that appends survivors). */
  lemma {:induction false} FilterAppend<T(!new)>(s: seq<T>, x: T, p: T -> bool)
    ensures Filter(s + [x], p) == Filter(s, p) + (if p(x) then [x] else [])
  {
    if s == [] {
      assert [x][1..] == [];
    } else {
      assert (s + [x])[1..] == s[1..] + [x];
      FilterAppend(s[1..], x, p);
    }
  }

  /** The first selected element is the first element of `s` that satisfies `p`. */
  lemma {:induction false} FilterFirst<T(!new)>(s: seq<T>, p: T -> bool)
    requires Filter(s, p) != []
    ensures exists k :: 0 <= k < |s| && s[k] == Filter(s, p)[0] && p(s[k]) &&
                        forall j :: 0 <= j < k ==> !p(s[j])
  {
    if p(s[0]) {
      assert s[0] == Filter(s, p)[0];
    } else {
      assert Filter(s, p) == Filter(s[1..], p);
      FilterFirst(s[1..], p);
      var k :| 0 <= k < |s[1..]| && s[1..][k] == Filter(s[1..], p)[0] && p(s[1..][k]) &&
                forall j :: 0 <= j < k ==> !p(s[1..][j]);
      assert s[k + 1] == s[1..][k];
      forall j | 0 <= j < k + 1 ensures !p(s[j]) {
        if j > 0 { assert s[j] == s[1..][j - 1]; }
      }
    }
  }

  /** A filter selects every element exactly when every element satisfies `p`. */
  lemma {:induction false} FilterKeepsAll<T(!new)>(s: seq<T>, p: T -> bool)
    requires forall j :: 0 <= j < |s| ==> p(s[j])
    ensures Filter(s, p) == s
  {
    if s != [] {
      FilterKeepsAll(s[1..], p);
      assert [s[0]] + s[1..] == s;
    }
  }
}
