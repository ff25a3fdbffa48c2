/** Facts about sequences shared by the list operations of the model. */
module Sequences {

  /** `s` is an order-preserving subsequence of `t`: `s` is `t` with some elements dropped. */
  predicate Subseq<T(==)>(s: seq<T>, t: seq<T>)
    decreases |t|
  {
    if s == [] then true
    else if t == [] then false
    else (s[0] == t[0] && Subseq(s[1..], t[1..])) || Subseq(s, t[1..])
  }

  /** Keeping the head of both sides preserves the subsequence relation. */
  lemma SubseqCons<T>(x: T, s: seq<T>, t: seq<T>)
    requires Subseq(s, t)
    ensures Subseq([x] + s, [x] + t)
  {
    assert ([x] + s)[1..] == s;
    assert ([x] + t)[1..] == t;
  }

  /** Dropping the head of the longer side preserves the subsequence relation. */
  lemma SubseqSkip<T>(x: T, s: seq<T>, t: seq<T>)
    requires Subseq(s, t)
    ensures Subseq(s, [x] + t)
  {
    assert ([x] + t)[1..] == t;
  }

  /** A subsequence contains only elements of the sequence it was drawn from. */
  lemma {:induction false} SubseqElements<T>(s: seq<T>, t: seq<T>)
    requires Subseq(s, t)
    ensures forall x :: x in s ==> x in t
  {
    if s != [] && t != [] {
      if s[0] == t[0] && Subseq(s[1..], t[1..]) {
        SubseqElements(s[1..], t[1..]);
        assert forall x :: x in s ==> x == s[0] || x in s[1..];
      } else {
        SubseqElements(s, t[1..]);
      }
      assert forall x :: x in t[1..] ==> x in t;
    }
  }
}
