/**
 * The merge step of the ingestor: the master rows followed by the batch rows,
 * with duplicate (SYMBOL, DATE) keys dropped so that only the LAST row of
 * each key survives (pandas `concat` followed by
 * `drop_duplicates(subset=['SYMBOL', 'DATE'], keep='last')`).
 */
module Dedup {
  import opened Rows

  /**
   * Keep-last deduplication: a row survives exactly when no later row has
   * its key. Survivors keep their relative order and are not altered.
   */
  function DedupKeepLast(s: seq<Row>): (r: seq<Row>)
    ensures KeySet(r) == KeySet(s)
    ensures DistinctKeys(r)
  {
    if s == [] then []
    else
      KeySetCons(s[0], s[1..]);
      assert s == [s[0]] + s[1..];
      if KeyOf(s[0]) in KeySet(s[1..]) then DedupKeepLast(s[1..])
      else
        var rest := DedupKeepLast(s[1..]);
        KeySetCons(s[0], rest);
        assert forall j :: 0 <= j < |rest| ==> KeyOf(rest[j]) in KeySet(rest) by {
          forall j | 0 <= j < |rest| ensures KeyOf(rest[j]) in KeySet(rest) {
            assert rest[j] in rest;
          }
        }
        [s[0]] + rest
  }

  /** The new master: the old master followed by the batch, deduplicated. */
  function Merge(master: seq<Row>, batch: seq<Row>): (r: seq<Row>)
    ensures DistinctKeys(r)
    ensures KeySet(r) == KeySet(master) + KeySet(batch)
  {
    KeySetAppend(master, batch);
    DedupKeepLast(master + batch)
  }

  /** `a` is obtained from `b` by deleting rows, without reordering. */
  predicate IsSubsequence(a: seq<Row>, b: seq<Row>) {
    if a == [] then true
    else if b == [] then false
    else (a[0] == b[0] && IsSubsequence(a[1..], b[1..])) || IsSubsequence(a, b[1..])
  }

  /** Each row of `r` is, unaltered, the last row of `s` that has its key. */
  predicate SurvivorsAreLast(s: seq<Row>, r: seq<Row>) {
    forall x :: x in r ==>
      0 <= LastIndex(s, KeyOf(x)) && x == s[LastIndex(s, KeyOf(x))]
  }

  /** The rows of `r` appear in the order of their keys' last positions in `s`. */
  predicate InLastOccurrenceOrder(s: seq<Row>, r: seq<Row>) {
    forall i, j :: 0 <= i < j < |r| ==>
      LastIndex(s, KeyOf(r[i])) < LastIndex(s, KeyOf(r[j]))
  }

  /** One row per distinct key of the input. */
  lemma DedupCount(s: seq<Row>)
    ensures |DedupKeepLast(s)| == |KeySet(s)|
  {
    DistinctKeysCount(DedupKeepLast(s));
  }

  /**
   * Each surviving row is, unaltered, the last row of the input that has
   * its key.
   */
  lemma {:induction false} DedupSurvivorsAreLast(s: seq<Row>)
    ensures SurvivorsAreLast(s, DedupKeepLast(s))
  {
    if s != [] {
      var t := s[1..];
      DedupSurvivorsAreLast(t);
      var r, rest := DedupKeepLast(s), DedupKeepLast(t);
      forall x | x in rest
        ensures LastIndex(s, KeyOf(x)) == LastIndex(t, KeyOf(x)) + 1
      {
      }
      if KeyOf(s[0]) !in KeySet(t) {
        assert r == [s[0]] + rest;
        assert LastIndex(s, KeyOf(s[0])) == 0;
      }
    }
  }

  /**
   * Survivors appear in the order of their last occurrences in the input.
   */
  lemma {:induction false} DedupKeepsOrder(s: seq<Row>)
    ensures InLastOccurrenceOrder(s, DedupKeepLast(s))
  {
    if s != [] {
      var t := s[1..];
      var rest := DedupKeepLast(t);
      DedupKeepsOrder(t);
      forall x | x in rest
        ensures KeyOf(x) in KeySet(t)
      {
      }
      OrderShift(s, rest);
      if KeyOf(s[0]) !in KeySet(t) {
        assert LastIndex(s, KeyOf(s[0])) == 0;
        assert forall k :: 0 <= k < |rest| ==> rest[k] in rest;
        OrderCons(s, s[0], rest);
      }
    }
  }

  /** Order by last positions in `s[1..]` is order by last positions in `s`. */
  lemma OrderShift(s: seq<Row>, r: seq<Row>)
    requires s != []
    requires forall x :: x in r ==> KeyOf(x) in KeySet(s[1..])
    requires InLastOccurrenceOrder(s[1..], r)
    ensures InLastOccurrenceOrder(s, r)
    ensures forall x :: x in r ==> LastIndex(s, KeyOf(x)) >= 1
  {
  }

  /** A row whose key last occurs at position 0 can head an ordered sequence. */
  lemma OrderCons(s: seq<Row>, h: Row, r: seq<Row>)
    requires LastIndex(s, KeyOf(h)) == 0
    requires InLastOccurrenceOrder(s, r)
    requires forall k :: 0 <= k < |r| ==> LastIndex(s, KeyOf(r[k])) >= 1
    ensures InLastOccurrenceOrder(s, [h] + r)
  {
  }

  /**
   * What keep-last deduplication means, stated without recursion: `r` holds
   * every key of `s` once, each row is the last row of `s` with its key, and
   * rows follow the positions of those last occurrences.
   */
  predicate KeepsLastOf(s: seq<Row>, r: seq<Row>) {
    && KeySet(r) == KeySet(s)
    && DistinctKeys(r)
    && SurvivorsAreLast(s, r)
    && InLastOccurrenceOrder(s, r)
  }

  /** `DedupKeepLast` is the one and only sequence that keeps the last rows. */
  lemma DedupCharacterization(s: seq<Row>, r: seq<Row>)
    ensures r == DedupKeepLast(s) <==> KeepsLastOf(s, r)
  {
    DedupSurvivorsAreLast(s);
    DedupKeepsOrder(s);
    if KeepsLastOf(s, r) {
      KeepsLastOfUnique(s, r);
    }
  }

  /** Any sequence that keeps the last rows of `s` is `DedupKeepLast(s)`. */
  lemma {:induction false} KeepsLastOfUnique(s: seq<Row>, r: seq<Row>)
    requires KeepsLastOf(s, r)
    ensures r == DedupKeepLast(s)
  {
    if s == [] {
      DistinctKeysCount(r);
    } else if KeyOf(s[0]) in KeySet(s[1..]) {
      KeepsLastOfDropFirst(s, r);
      KeepsLastOfUnique(s[1..], r);
    } else {
      KeepsLastOfKeepFirst(s, r);
      KeepsLastOfUnique(s[1..], r[1..]);
      assert DedupKeepLast(s) == [s[0]] + DedupKeepLast(s[1..]);
      assert r == [r[0]] + r[1..];
    }
  }

  /** Shifting past a first row whose key occurs again later. */
  lemma KeepsLastOfDropFirst(s: seq<Row>, r: seq<Row>)
    requires s != [] && KeyOf(s[0]) in KeySet(s[1..])
    requires KeepsLastOf(s, r)
    ensures KeepsLastOf(s[1..], r)
  {
  }

  /** A first row whose key never occurs again survives, and comes first. */
  lemma KeepsLastOfKeepFirst(s: seq<Row>, r: seq<Row>)
    requires s != [] && KeyOf(s[0]) !in KeySet(s[1..])
    requires KeepsLastOf(s, r)
    ensures r != [] && r[0] == s[0] && KeepsLastOf(s[1..], r[1..])
  {
    KeepsLastOfHead(s, r);
    TailKeys(s, r);
    TailShift(s, r);
  }

  /** Without its first row, `r` holds exactly the keys of the rest of `s`. */
  lemma TailKeys(s: seq<Row>, r: seq<Row>)
    requires s != [] && r != [] && r[0] == s[0] && KeyOf(s[0]) !in KeySet(s[1..])
    requires KeySet(r) == KeySet(s) && DistinctKeys(r)
    ensures KeySet(r[1..]) == KeySet(s[1..]) && DistinctKeys(r[1..])
    ensures forall x :: x in r[1..] ==> x in r && KeyOf(x) in KeySet(s[1..])
  {
    var t, tail := s[1..], r[1..];
    forall x | x in tail
      ensures KeyOf(x) != KeyOf(s[0]) && x in r
    {
      var p :| 0 <= p < |tail| && tail[p] == x;
      assert r[p + 1] == x;
    }
    assert r == [r[0]] + tail;
    KeySetCons(r[0], tail);
    assert s == [s[0]] + t;
    KeySetCons(s[0], t);
  }

  /** Positions in the rest of `s` are one less than in `s`. */
  lemma TailShift(s: seq<Row>, r: seq<Row>)
    requires s != [] && r != []
    requires SurvivorsAreLast(s, r) && InLastOccurrenceOrder(s, r)
    requires forall x :: x in r[1..] ==> x in r && KeyOf(x) in KeySet(s[1..])
    ensures SurvivorsAreLast(s[1..], r[1..]) && InLastOccurrenceOrder(s[1..], r[1..])
  {
    var t, tail := s[1..], r[1..];
    forall x | x in tail
      ensures LastIndex(s, KeyOf(x)) == LastIndex(t, KeyOf(x)) + 1
    {
    }
    forall i, j | 0 <= i < j < |tail|
      ensures LastIndex(t, KeyOf(tail[i])) < LastIndex(t, KeyOf(tail[j]))
    {
      assert tail[i] == r[i + 1] && tail[j] == r[j + 1];
      assert tail[i] in tail && tail[j] in tail;
    }
  }

  /** The row of the first key, which never occurs again, heads `r`. */
  lemma KeepsLastOfHead(s: seq<Row>, r: seq<Row>)
    requires s != [] && KeyOf(s[0]) !in KeySet(s[1..])
    requires KeepsLastOf(s, r)
    ensures r != [] && r[0] == s[0]
  {
    var k0 := KeyOf(s[0]);
    assert s[0] in s;
    assert LastIndex(s, k0) == 0;
    var x :| x in r && KeyOf(x) == k0;
    var p :| 0 <= p < |r| && r[p] == x;
    assert r[0] in r;
  }

  /** The output is a subsequence of the input. */
  lemma {:induction false} DedupSubsequence(s: seq<Row>)
    ensures IsSubsequence(DedupKeepLast(s), s)
  {
    if s != [] {
      var r, rest := DedupKeepLast(s), DedupKeepLast(s[1..]);
      DedupSubsequence(s[1..]);
      if KeyOf(s[0]) !in KeySet(s[1..]) {
        assert r == [s[0]] + rest;
        assert r[1..] == rest;
      }
    }
  }

  /** Deduplicating a sequence that has no duplicate keys changes nothing. */
  lemma {:induction false} DedupIdempotent(s: seq<Row>)
    requires DistinctKeys(s)
    ensures DedupKeepLast(s) == s
  {
    if s != [] {
      var t := s[1..];
      assert DistinctKeys(t) by {
        forall i, j | 0 <= i < j < |t|
          ensures KeyOf(t[i]) != KeyOf(t[j])
        {
          assert t[i] == s[i + 1] && t[j] == s[j + 1];
        }
      }
      DedupIdempotent(t);
      forall x | x in t
        ensures KeyOf(x) != KeyOf(s[0])
      {
        var j :| 0 <= j < |t| && t[j] == x;
        assert s[j + 1] == x;
      }
      assert KeyOf(s[0]) !in KeySet(t);
      assert s == [s[0]] + t;
    }
  }

  /**
   * Deduplicating a concatenation: the rows of the deduplicated first part
   * whose keys the second part does not hold, then the deduplicated second
   * part.
   */
  lemma {:induction false} DedupAppend(a: seq<Row>, b: seq<Row>)
    ensures DedupKeepLast(a + b) == RemoveKeys(DedupKeepLast(a), KeySet(b)) + DedupKeepLast(b)
  {
    if a == [] {
      assert a + b == b;
    } else {
      var t := a[1..];
      assert (a + b)[0] == a[0] && (a + b)[1..] == t + b;
      DedupAppend(t, b);
      KeySetAppend(t, b);
      if KeyOf(a[0]) !in KeySet(t) && KeyOf(a[0]) !in KeySet(b) {
        var d := DedupKeepLast(t);
        assert DedupKeepLast(a) == [a[0]] + d;
        assert ([a[0]] + d)[1..] == d;
        assert [a[0]] + RemoveKeys(d, KeySet(b)) + DedupKeepLast(b)
            == [a[0]] + (RemoveKeys(d, KeySet(b)) + DedupKeepLast(b));
      } else if KeyOf(a[0]) !in KeySet(t) {
        var d := DedupKeepLast(t);
        assert DedupKeepLast(a) == [a[0]] + d;
        assert ([a[0]] + d)[1..] == d;
      }
    }
  }

  /**
   * The merged master is the old master's surviving rows whose keys the
   * batch does not touch, in master order, followed by the deduplicated
   * batch.
   */
  lemma MergeStructure(master: seq<Row>, batch: seq<Row>)
    ensures Merge(master, batch)
         == RemoveKeys(DedupKeepLast(master), KeySet(batch)) + DedupKeepLast(batch)
  {
    DedupAppend(master, batch);
  }

  /** One row per distinct key across the old master and the batch. */
  lemma MergeCount(master: seq<Row>, batch: seq<Row>)
    ensures |Merge(master, batch)| == |KeySet(master) + KeySet(batch)|
  {
    DistinctKeysCount(Merge(master, batch));
  }

  /**
   * A batch row beats a master row with the same key, and a later batch row
   * beats an earlier one; a key the batch does not hold keeps the last
   * master row for it.
   */
  lemma MergeBatchWins(master: seq<Row>, batch: seq<Row>)
    ensures forall x :: x in Merge(master, batch) ==>
      if KeyOf(x) in KeySet(batch) then x == batch[LastIndex(batch, KeyOf(x))]
      else 0 <= LastIndex(master, KeyOf(x)) && x == master[LastIndex(master, KeyOf(x))]
  {
    var d := DedupKeepLast(batch);
    var kept := RemoveKeys(DedupKeepLast(master), KeySet(batch));
    MergeStructure(master, batch);
    DedupSurvivorsAreLast(master);
    DedupSurvivorsAreLast(batch);
    RemoveKeysSublist(DedupKeepLast(master), KeySet(batch));
    forall x | x in d
      ensures KeyOf(x) in KeySet(batch)
    {
    }
  }

  /** Every row of `RemoveKeys(s, ks)` is a row of `s` whose key is not in `ks`. */
  lemma {:induction false} RemoveKeysSublist(s: seq<Row>, ks: set<Key>)
    ensures forall x :: x in RemoveKeys(s, ks) ==> x in s && KeyOf(x) !in ks
  {
    if s != [] {
      RemoveKeysSublist(s[1..], ks);
    }
  }

  /**
   * In a sequence made of rows whose keys are outside `ks` followed by rows
   * whose keys are inside `ks`, no row with a key in `ks` precedes a row
   * with a key outside it.
   */
  lemma PartitionedByKeys(a: seq<Row>, c: seq<Row>, ks: set<Key>)
    requires forall x :: x in a ==> KeyOf(x) !in ks
    requires forall x :: x in c ==> KeyOf(x) in ks
    ensures forall i, j :: 0 <= i < j < |a + c| && KeyOf((a + c)[i]) in ks ==>
      KeyOf((a + c)[j]) in ks
  {
  }

  /**
   * Rows whose key only the old master holds all come before the rows whose
   * key the batch holds.
   */
  lemma MergeMasterRowsFirst(master: seq<Row>, batch: seq<Row>)
    ensures var r := Merge(master, batch);
      forall i, j :: 0 <= i < j < |r| && KeyOf(r[i]) in KeySet(batch) ==>
        KeyOf(r[j]) in KeySet(batch)
  {
    var ks := KeySet(batch);
    var kept, d := RemoveKeys(DedupKeepLast(master), ks), DedupKeepLast(batch);
    MergeStructure(master, batch);
    RemoveKeysSublist(DedupKeepLast(master), ks);
    forall x | x in d
      ensures KeyOf(x) in ks
    {
    }
    PartitionedByKeys(kept, d, ks);
  }

  /**
   * Re-running the merge with the same batch on its own result leaves the
   * result unchanged.
   */
  lemma MergeRerun(master: seq<Row>, batch: seq<Row>)
    ensures Merge(Merge(master, batch), batch) == Merge(master, batch)
  {
    var r := Merge(master, batch);
    var ks := KeySet(batch);
    var kept, d := RemoveKeys(DedupKeepLast(master), ks), DedupKeepLast(batch);
    calc {
      Merge(r, batch);
      { MergeStructure(r, batch); }
      RemoveKeys(DedupKeepLast(r), ks) + d;
      { DedupIdempotent(r); }
      RemoveKeys(r, ks) + d;
      { MergeStructure(master, batch); }
      RemoveKeys(kept + d, ks) + d;
      { RemoveKeysAppend(kept, d, ks); }
      RemoveKeys(kept, ks) + RemoveKeys(d, ks) + d;
      { RemoveKeysIdempotent(DedupKeepLast(master), ks); RemoveAllKeys(d, ks); }
      kept + [] + d;
      { assert kept + [] == kept; }
      kept + d;
      { MergeStructure(master, batch); }
      r;
    }
  }
}
