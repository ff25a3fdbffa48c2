/**
 * The de-duplication applied whenever a fetched page is merged into the result
 * list (App.tsx, `setAnimeList` updater of `loadAnime`): an element survives
 * exactly when it is the first element of the merged list carrying its id.
 */
module AnimeList {
  import opened AnimeModel
  import opened Sequences

  /** `Array.prototype.findIndex` with `t => t.id === id`: the first index carrying `id`, or -1. */
  function FindIndex(a: seq<Anime>, id: int): (r: int)
    ensures -1 <= r < |a|
    ensures r >= 0 ==> a[r].id == id && forall k :: 0 <= k < r ==> a[k].id != id
    ensures r == -1 ==> forall k :: 0 <= k < |a| ==> a[k].id != id
  {
    if a == [] then -1
    else if a[0].id == id then 0
    else
      var r := FindIndex(a[1..], id);
      if r == -1 then -1 else r + 1
  }

  /** The page merge before de-duplication: a reset replaces the list, otherwise the page is appended. */
  function Merge(prev: seq<Anime>, page: seq<Anime>, reset: bool): seq<Anime>
  {
    if reset then page else prev + page
  }

  /** `a.filter((v, i, a) => a.findIndex(t => t.id === v.id) === i)` applied to positions `i..`. */
  function KeepFirsts(a: seq<Anime>, i: nat): seq<Anime>
    decreases |a| - i
  {
    if i >= |a| then []
    else (if FindIndex(a, a[i].id) == i then [a[i]] else []) + KeepFirsts(a, i + 1)
  }

  /** The de-duplicated list. */
  function Dedup(a: seq<Anime>): seq<Anime>
  {
    KeepFirsts(a, 0)
  }

  /** Every element the filter keeps from position `i` on is the first element of `a` with its id, found at or after `i`. */
  ghost predicate FirstsFrom(a: seq<Anime>, i: nat, r: seq<Anime>)
  {
    forall j :: 0 <= j < |r| ==> i <= FindIndex(a, r[j].id) && r[j] == a[FindIndex(a, r[j].id)]
  }

  /** The kept elements form an order-preserving subsequence of `a[i..]`. */
  lemma {:induction false} KeepFirstsSubseq(a: seq<Anime>, i: nat)
    requires i <= |a|
    ensures Subseq(KeepFirsts(a, i), a[i..])
    decreases |a| - i
  {
    if i == |a| {
      assert a[i..] == [];
    } else {
      KeepFirstsSubseq(a, i + 1);
      assert a[i..] == [a[i]] + a[i + 1..];
      if FindIndex(a, a[i].id) == i {
        SubseqCons(a[i], KeepFirsts(a, i + 1), a[i + 1..]);
      } else {
        assert KeepFirsts(a, i) == KeepFirsts(a, i + 1);
        SubseqSkip(a[i], KeepFirsts(a, i + 1), a[i + 1..]);
      }
    }
  }

  /** Each kept element is the first occurrence of its id, at a position no smaller than `i`. */
  lemma {:induction false} KeepFirstsFirsts(a: seq<Anime>, i: nat)
    requires i <= |a|
    ensures FirstsFrom(a, i, KeepFirsts(a, i))
    decreases |a| - i
  {
    if i < |a| {
      KeepFirstsFirsts(a, i + 1);
      var rest := KeepFirsts(a, i + 1);
      if FindIndex(a, a[i].id) == i {
        var r := KeepFirsts(a, i);
        assert r == [a[i]] + rest;
        forall j | 0 <= j < |r|
          ensures i <= FindIndex(a, r[j].id) && r[j] == a[FindIndex(a, r[j].id)]
        {
          if j > 0 {
            assert r[j] == rest[j - 1];
          }
        }
      }
    }
  }

  /** The kept elements carry pairwise distinct ids. */
  lemma {:induction false} KeepFirstsUniqueIds(a: seq<Anime>, i: nat)
    requires i <= |a|
    ensures UniqueIds(KeepFirsts(a, i))
    decreases |a| - i
  {
    if i < |a| {
      KeepFirstsUniqueIds(a, i + 1);
      var rest := KeepFirsts(a, i + 1);
      if FindIndex(a, a[i].id) == i {
        KeepFirstsFirsts(a, i + 1);
        var r := KeepFirsts(a, i);
        assert r == [a[i]] + rest;
        forall j, k | 0 <= j < k < |r| ensures r[j].id != r[k].id {
          assert r[k] == rest[k - 1];
          if j > 0 {
            assert r[j] == rest[j - 1];
          } else {
            assert i + 1 <= FindIndex(a, rest[k - 1].id);
          }
        }
      }
    }
  }

  /** The elements of `r` appear in the order of their first occurrences in `a`. */
  ghost predicate InFirstOrder(a: seq<Anime>, r: seq<Anime>)
  {
    forall j, k :: 0 <= j < k < |r| ==> FindIndex(a, r[j].id) < FindIndex(a, r[k].id)
  }

  /** An element whose first occurrence precedes those of an ordered list can be put in front of it. */
  lemma OrderedCons(a: seq<Anime>, x: Anime, rest: seq<Anime>)
    requires InFirstOrder(a, rest)
    requires forall m :: 0 <= m < |rest| ==> FindIndex(a, x.id) < FindIndex(a, rest[m].id)
    ensures InFirstOrder(a, [x] + rest)
  {
    var r := [x] + rest;
    forall j, k | 0 <= j < k < |r|
      ensures FindIndex(a, r[j].id) < FindIndex(a, r[k].id)
    {
      assert r[k] == rest[k - 1];
      if j > 0 {
        assert r[j] == rest[j - 1];
      }
    }
  }

  /** The kept elements appear in the order of their first occurrences in `a`. */
  lemma {:induction false} KeepFirstsOrdered(a: seq<Anime>, i: nat)
    requires i <= |a|
    ensures InFirstOrder(a, KeepFirsts(a, i))
    decreases |a| - i
  {
    if i < |a| {
      KeepFirstsOrdered(a, i + 1);
      var rest := KeepFirsts(a, i + 1);
      if FindIndex(a, a[i].id) == i {
        KeepFirstsFirsts(a, i + 1);
        assert FirstsFrom(a, i + 1, rest);
        OrderedCons(a, a[i], rest);
        assert KeepFirsts(a, i) == [a[i]] + rest;
      } else {
        assert KeepFirsts(a, i) == rest;
      }
    }
  }

  /** Every id whose first occurrence lies at or after `i` is carried by some kept element. */
  lemma {:induction false} KeepFirstsIds(a: seq<Anime>, i: nat)
    requires i <= |a|
    ensures forall k :: i <= k < |a| && i <= FindIndex(a, a[k].id) ==> a[k].id in Ids(KeepFirsts(a, i))
    decreases |a| - i
  {
    if i < |a| {
      KeepFirstsIds(a, i + 1);
      var rest := KeepFirsts(a, i + 1);
      var r := KeepFirsts(a, i);
      forall k | i <= k < |a| && i <= FindIndex(a, a[k].id)
        ensures a[k].id in Ids(r)
      {
        if FindIndex(a, a[k].id) == i {
          assert r == [a[i]] + rest;
          assert a[i] in r;
        } else {
          assert a[k].id in Ids(rest);
          var x :| x in rest && x.id == a[k].id;
          assert x in r;
        }
      }
    }
  }

  /**
   * After the merge the list has unique ids, is an order-preserving subsequence
   * of the merged list, keeps every id of it, each survivor is the first
   * element of the merged list with its id, and survivors appear in the order
   * of those first positions.
   */
  lemma DedupSpec(a: seq<Anime>)
    ensures UniqueIds(Dedup(a))
    ensures Subseq(Dedup(a), a)
    ensures Ids(Dedup(a)) == Ids(a)
    ensures forall j :: 0 <= j < |Dedup(a)| ==>
      FindIndex(a, Dedup(a)[j].id) >= 0 && Dedup(a)[j] == a[FindIndex(a, Dedup(a)[j].id)]
    ensures forall j, k :: 0 <= j < k < |Dedup(a)| ==> FindIndex(a, Dedup(a)[j].id) < FindIndex(a, Dedup(a)[k].id)
  {
    KeepFirstsSubseq(a, 0);
    KeepFirstsOrdered(a, 0);
    KeepFirstsUniqueIds(a, 0);
    KeepFirstsFirsts(a, 0);
    KeepFirstsIds(a, 0);
    assert a[0..] == a;
    SubseqElements(Dedup(a), a);
    forall id | id in Ids(a) ensures id in Ids(Dedup(a)) {
      var x :| x in a && x.id == id;
      var k :| 0 <= k < |a| && a[k] == x;
    }
  }

  /** On a list whose ids are already unique, the filter keeps every position from `i` on. */
  lemma {:induction false} KeepFirstsUnique(a: seq<Anime>, i: nat)
    requires UniqueIds(a) && i <= |a|
    ensures KeepFirsts(a, i) == a[i..]
    decreases |a| - i
  {
    if i < |a| {
      KeepFirstsUnique(a, i + 1);
      assert a[i..] == [a[i]] + a[i + 1..];
    }
  }

  /** De-duplication leaves a list with unique ids unchanged, so applying it twice is applying it once. */
  lemma DedupIdempotent(a: seq<Anime>)
    ensures UniqueIds(a) ==> Dedup(a) == a
    ensures Dedup(Dedup(a)) == Dedup(a)
  {
    if UniqueIds(a) {
      KeepFirstsUnique(a, 0);
    }
    DedupSpec(a);
    KeepFirstsUnique(Dedup(a), 0);
  }

  /** Over the prefix `p` whose ids are unique, every position is the first carrying its id. */
  lemma {:induction false} KeepFirstsOverPrefix(p: seq<Anime>, q: seq<Anime>, i: nat)
    requires UniqueIds(p) && i <= |p|
    ensures KeepFirsts(p + q, i) == p[i..] + KeepFirsts(p + q, |p|)
    decreases |p| - i
  {
    if i < |p| {
      var a := p + q;
      KeepFirstsOverPrefix(p, q, i + 1);
      assert FindIndex(a, a[i].id) == i;
      assert p[i..] == [p[i]] + p[i + 1..];
    }
  }

  /**
   * Loading the next page never reorders or drops entries already shown: when
   * the shown list has unique ids, it is a prefix of the merged and
   * de-duplicated list, and everything after it has an id not shown before.
   */
  lemma AppendPageKeepsShown(prev: seq<Anime>, page: seq<Anime>)
    requires UniqueIds(prev)
    ensures |Dedup(Merge(prev, page, false))| >= |prev|
    ensures Dedup(Merge(prev, page, false))[..|prev|] == prev
    ensures forall j :: |prev| <= j < |Dedup(Merge(prev, page, false))| ==>
      Dedup(Merge(prev, page, false))[j].id !in Ids(prev)
  {
    var a := prev + page;
    KeepFirstsOverPrefix(prev, page, 0);
    assert prev[0..] == prev;
    var tail := KeepFirsts(a, |prev|);
    KeepFirstsFirsts(a, |prev|);
    assert Dedup(a) == prev + tail;
    forall j | |prev| <= j < |Dedup(a)| ensures Dedup(a)[j].id !in Ids(prev) {
      var x := tail[j - |prev|];
      assert Dedup(a)[j] == x;
      forall y | y in prev ensures y.id != x.id {
        var k :| 0 <= k < |prev| && prev[k] == y;
        assert a[k] == y;
      }
    }
  }

  /**
   * A reset load shows the new page alone, de-duplicated: the page's ids, each
   * by its first record in the page, in the order of those first positions;
   * nothing of the previous list survives unless the page repeats it.
   */
  lemma ResetShowsPage(prev: seq<Anime>, page: seq<Anime>)
    ensures Ids(Dedup(Merge(prev, page, true))) == Ids(page)
    ensures Subseq(Dedup(Merge(prev, page, true)), page)
    ensures forall j :: 0 <= j < |Dedup(Merge(prev, page, true))| ==>
      var x := Dedup(Merge(prev, page, true))[j];
      FindIndex(page, x.id) >= 0 && x == page[FindIndex(page, x.id)]
    ensures forall j, k :: 0 <= j < k < |Dedup(Merge(prev, page, true))| ==>
      FindIndex(page, Dedup(Merge(prev, page, true))[j].id) < FindIndex(page, Dedup(Merge(prev, page, true))[k].id)
    ensures UniqueIds(page) ==> Dedup(Merge(prev, page, true)) == page
  {
    DedupSpec(page);
    DedupIdempotent(page);
  }
}
