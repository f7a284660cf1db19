/** Order-preserving selections from a sequence: what a filter keeps. */
module Seqs {

  /** `s` is `t` with some elements left out, the rest in their order. */
  predicate Subsequence<T(==)>(s: seq<T>, t: seq<T>)
    decreases |t|
  {
    if s == [] then true
    else if t == [] then false
    else
      (s[|s| - 1] == t[|t| - 1] && Subsequence(s[..|s| - 1], t[..|t| - 1]))
      || Subsequence(s, t[..|t| - 1])
  }

  /** One element is a subsequence of any sequence it starts. */
  lemma {:induction false} SubsequenceSingle<T>(x: T, t: seq<T>)
    ensures Subsequence([x], [x] + t)
    decreases |t|
  {
    if t != [] {
      var t' := [x] + t;
      assert t'[..|t'| - 1] == [x] + t[..|t| - 1];
      SubsequenceSingle(x, t[..|t| - 1]);
    }
  }

  /** An element put in front of the longer sequence is one more that can be left out. */
  lemma {:induction false} SubsequenceSkipFront<T>(x: T, s: seq<T>, t: seq<T>)
    requires Subsequence(s, t)
    ensures Subsequence(s, [x] + t)
    decreases |t|
  {
    if s != [] && t != [] {
      var t' := [x] + t;
      assert t'[..|t'| - 1] == [x] + t[..|t| - 1];
      if s[|s| - 1] == t[|t| - 1] && Subsequence(s[..|s| - 1], t[..|t| - 1]) {
        SubsequenceSkipFront(x, s[..|s| - 1], t[..|t| - 1]);
      } else {
        SubsequenceSkipFront(x, s, t[..|t| - 1]);
      }
    }
  }

  /** An element put in front of both sequences is kept. */
  lemma {:induction false} SubsequenceKeepFront<T>(x: T, s: seq<T>, t: seq<T>)
    requires Subsequence(s, t)
    ensures Subsequence([x] + s, [x] + t)
    decreases |t|
  {
    if s == [] {
      assert [x] + s == [x];
      SubsequenceSingle(x, t);
    } else if t != [] {
      var s', t' := [x] + s, [x] + t;
      assert s'[..|s'| - 1] == [x] + s[..|s| - 1];
      assert t'[..|t'| - 1] == [x] + t[..|t| - 1];
      if s[|s| - 1] == t[|t| - 1] && Subsequence(s[..|s| - 1], t[..|t| - 1]) {
        SubsequenceKeepFront(x, s[..|s| - 1], t[..|t| - 1]);
      } else {
        SubsequenceKeepFront(x, s, t[..|t| - 1]);
      }
    }
  }
}
