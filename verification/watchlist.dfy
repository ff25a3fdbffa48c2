/**
 * The watchlist toggle (App.tsx, `handleToggleWatchlist`): an id already in the
 * list is removed with `filter(id => id !== animeId)`, any other id is appended.
 */
module Watchlist {
  import opened Sequences

  /** `prev.filter(id => id !== x)`: every occurrence of `x` dropped, the rest in order. */
  function RemoveAll(s: seq<int>, x: int): seq<int>
  {
    if s == [] then []
    else (if s[0] == x then [] else [s[0]]) + RemoveAll(s[1..], x)
  }

  /** The updater passed to `setWatchlist`. */
  function Toggle(prev: seq<int>, id: int): seq<int>
  {
    if id in prev then RemoveAll(prev, id) else prev + [id]
  }

  /** No id occurs twice. */
  predicate NoDup(s: seq<int>)
  {
    forall j, k :: 0 <= j < k < |s| ==> s[j] != s[k]
  }

  /** Removal keeps the remaining ids in their order. */
  lemma {:induction false} RemoveAllSubseq(s: seq<int>, x: int)
    ensures Subseq(RemoveAll(s, x), s)
  {
    if s != [] {
      RemoveAllSubseq(s[1..], x);
      assert s == [s[0]] + s[1..];
      if s[0] == x {
        assert RemoveAll(s, x) == RemoveAll(s[1..], x);
        SubseqSkip(s[0], RemoveAll(s[1..], x), s[1..]);
      } else {
        SubseqCons(s[0], RemoveAll(s[1..], x), s[1..]);
      }
    }
  }

  /** Removal drops exactly the occurrences of `x`: its count becomes 0 and every other count is unchanged. */
  lemma {:induction false} RemoveAllCounts(s: seq<int>, x: int)
    ensures multiset(RemoveAll(s, x)) == multiset(s)[x := 0]
  {
    if s != [] {
      var rest := RemoveAll(s[1..], x);
      RemoveAllCounts(s[1..], x);
      assert s == [s[0]] + s[1..];
      assert multiset(s) == multiset{s[0]} + multiset(s[1..]);
      if s[0] == x {
        assert RemoveAll(s, x) == rest;
      } else {
        assert RemoveAll(s, x) == [s[0]] + rest;
        assert multiset(RemoveAll(s, x)) == multiset{s[0]} + multiset(rest);
      }
    }
  }

  /** Removal keeps the remaining ids in order and drops exactly the occurrences of `x`. */
  lemma RemoveAllSpec(s: seq<int>, x: int)
    ensures Subseq(RemoveAll(s, x), s)
    ensures multiset(RemoveAll(s, x)) == multiset(s)[x := 0]
  {
    RemoveAllSubseq(s, x);
    RemoveAllCounts(s, x);
  }

  /** Removing an id that does not occur changes nothing. */
  lemma {:induction false} RemoveAllAbsent(s: seq<int>, x: int)
    requires x !in s
    ensures RemoveAll(s, x) == s
  {
    if s != [] {
      RemoveAllAbsent(s[1..], x);
      assert s == [s[0]] + s[1..];
    }
  }

  /** Removal distributes over concatenation. */
  lemma {:induction false} RemoveAllAppend(s: seq<int>, t: seq<int>, x: int)
    ensures RemoveAll(s + t, x) == RemoveAll(s, x) + RemoveAll(t, x)
  {
    if s != [] {
      RemoveAllAppend(s[1..], t, x);
      assert (s + t)[1..] == s[1..] + t;
    } else {
      assert s + t == t;
    }
  }

  /**
   * Toggling flips the membership of `id`: afterwards it occurs exactly once
   * if it was absent and not at all if it was present. Every other id keeps
   * its count and the ids other than `id` keep their order.
   */
  lemma ToggleSpec(prev: seq<int>, id: int)
    ensures id in Toggle(prev, id) <==> id !in prev
    ensures multiset(Toggle(prev, id))[id] == if id in prev then 0 else 1
    ensures forall y :: y != id ==> multiset(Toggle(prev, id))[y] == multiset(prev)[y]
    ensures RemoveAll(Toggle(prev, id), id) == RemoveAll(prev, id)
  {
    RemoveAllSpec(prev, id);
    if id in prev {
      RemoveAllSpec(RemoveAll(prev, id), id);
      RemoveAllAbsent(RemoveAll(prev, id), id);
    } else {
      RemoveAllAppend(prev, [id], id);
      assert RemoveAll([id], id) == [];
      assert RemoveAll(prev + [id], id) == RemoveAll(prev, id) + [];
    }
  }

  /** Toggling an absent id twice restores the original watchlist exactly. */
  lemma ToggleAbsentTwice(prev: seq<int>, id: int)
    requires id !in prev
    ensures Toggle(Toggle(prev, id), id) == prev
  {
    RemoveAllAppend(prev, [id], id);
    RemoveAllAbsent(prev, id);
    assert RemoveAll([id], id) == [];
  }

  /** Toggling a present id twice moves it to the end, once, dropping its other occurrences. */
  lemma TogglePresentTwice(prev: seq<int>, id: int)
    requires id in prev
    ensures Toggle(Toggle(prev, id), id) == RemoveAll(prev, id) + [id]
  {
    RemoveAllSpec(prev, id);
    assert id !in RemoveAll(prev, id) by {
      assert multiset(RemoveAll(prev, id))[id] == 0;
    }
  }

  /** A subsequence of a duplicate-free list is duplicate-free. */
  lemma {:induction false} SubseqNoDup(s: seq<int>, t: seq<int>)
    requires Subseq(s, t) && NoDup(t)
    ensures NoDup(s)
    decreases |t|
  {
    if s != [] && t != [] {
      if s[0] == t[0] && Subseq(s[1..], t[1..]) {
        SubseqNoDup(s[1..], t[1..]);
        SubseqElements(s[1..], t[1..]);
        forall k | 0 < k < |s| ensures s[0] != s[k] {
          assert s[k] in s[1..];
          var m :| 0 <= m < |t[1..]| && t[1..][m] == s[k];
          assert t[m + 1] == s[k];
        }
        forall j, k | 0 <= j < k < |s| ensures s[j] != s[k] {
          if j > 0 {
            assert s[j] == s[1..][j - 1] && s[k] == s[1..][k - 1];
          }
        }
      } else {
        SubseqNoDup(s, t[1..]);
      }
    }
  }

  /** Toggling never introduces a duplicate into a duplicate-free watchlist. */
  lemma TogglePreservesNoDup(prev: seq<int>, id: int)
    requires NoDup(prev)
    ensures NoDup(Toggle(prev, id))
  {
    if id in prev {
      RemoveAllSpec(prev, id);
      SubseqNoDup(RemoveAll(prev, id), prev);
    }
  }
}
