/**
 * Rows of the stock dataset and the (SYMBOL, DATE) key that identifies them.
 *
 * A row carries the two key columns and, opaquely, every other column
 * (open, high, low, close, volume, ...). Nothing in the ingestor looks at
 * those other columns: they are only carried along.
 */
module Rows {

  /** The DATE column. The ingestor only ever compares dates for equality. */
  type Date = string

  /** Every column other than SYMBOL and DATE, column name to cell value. */
  type Payload = map<string, string>

  datatype Row = Row(symbol: string, date: Date, payload: Payload)

  /** The deduplication key: the pair (SYMBOL, DATE). */
  datatype Key = Key(symbol: string, date: Date)

  function KeyOf(r: Row): Key {
    Key(r.symbol, r.date)
  }

  /** The set of keys present in a sequence of rows. */
  function KeySet(s: seq<Row>): set<Key> {
    set r | r in s :: KeyOf(r)
  }

  /** No two rows share a (SYMBOL, DATE) key. */
  predicate DistinctKeys(s: seq<Row>) {
    forall i, j :: 0 <= i < j < |s| ==> KeyOf(s[i]) != KeyOf(s[j])
  }

  /**
   * The position of the last row of `s` whose key is `k`, or -1 when no row
   * has that key.
   */
  function LastIndex(s: seq<Row>, k: Key): (i: int)
    ensures -1 <= i < |s|
    ensures i == -1 <==> k !in KeySet(s)
    ensures 0 <= i ==> KeyOf(s[i]) == k
  {
    if s == [] then -1
    else
      var i := LastIndex(s[1..], k);
      if 0 <= i then i + 1
      else if KeyOf(s[0]) == k then 0
      else -1
  }

  /** No row after position `LastIndex(s, k)` has key `k`. */
  lemma {:induction false} LastIndexIsLast(s: seq<Row>, k: Key)
    ensures forall j :: LastIndex(s, k) < j < |s| ==> KeyOf(s[j]) != k
  {
    if s != [] {
      LastIndexIsLast(s[1..], k);
      assert forall j :: 0 < j < |s| ==> s[j] == s[1..][j - 1];
    }
  }

  /** The rows of `s` whose key is not in `ks`, in their order in `s`. */
  function RemoveKeys(s: seq<Row>, ks: set<Key>): (r: seq<Row>)
    ensures KeySet(r) == KeySet(s) - ks
    ensures |r| <= |s|
  {
    if s == [] then []
    else
      KeySetCons(s[0], s[1..]);
      assert s == [s[0]] + s[1..];
      if KeyOf(s[0]) in ks then RemoveKeys(s[1..], ks)
      else
        KeySetCons(s[0], RemoveKeys(s[1..], ks));
        [s[0]] + RemoveKeys(s[1..], ks)
  }

  lemma KeySetCons(r: Row, s: seq<Row>)
    ensures KeySet([r] + s) == {KeyOf(r)} + KeySet(s)
  {
  }

  lemma KeySetAppend(a: seq<Row>, b: seq<Row>)
    ensures KeySet(a + b) == KeySet(a) + KeySet(b)
  {
  }

  /** A sequence with distinct keys has exactly one row per key. */
  lemma {:induction false} DistinctKeysCount(s: seq<Row>)
    requires DistinctKeys(s)
    ensures |s| == |KeySet(s)|
  {
    if s != [] {
      var t := s[1..];
      assert DistinctKeys(t) by {
        forall i, j | 0 <= i < j < |t|
          ensures KeyOf(t[i]) != KeyOf(t[j])
        {
          assert t[i] == s[i + 1] && t[j] == s[j + 1];
        }
      }
      DistinctKeysCount(t);
      forall x | x in t
        ensures KeyOf(x) != KeyOf(s[0])
      {
        var j :| 0 <= j < |t| && t[j] == x;
        assert s[j + 1] == x;
      }
      assert s == [s[0]] + t;
      KeySetCons(s[0], t);
      assert KeyOf(s[0]) !in KeySet(t);
    }
  }

  /** Removing keys distributes over concatenation. */
  lemma {:induction false} RemoveKeysAppend(a: seq<Row>, b: seq<Row>, ks: set<Key>)
    ensures RemoveKeys(a + b, ks) == RemoveKeys(a, ks) + RemoveKeys(b, ks)
  {
    if a == [] {
      assert a + b == b;
    } else {
      assert (a + b)[0] == a[0] && (a + b)[1..] == a[1..] + b;
      RemoveKeysAppend(a[1..], b, ks);
      if KeyOf(a[0]) !in ks {
        assert [a[0]] + RemoveKeys(a[1..], ks) + RemoveKeys(b, ks)
            == [a[0]] + (RemoveKeys(a[1..], ks) + RemoveKeys(b, ks));
      }
    }
  }

  /** Removing every key a sequence holds leaves nothing. */
  lemma {:induction false} RemoveAllKeys(s: seq<Row>, ks: set<Key>)
    requires KeySet(s) <= ks
    ensures RemoveKeys(s, ks) == []
  {
    if s != [] {
      assert s[0] in s;
      assert KeySet(s[1..]) <= KeySet(s) by {
        assert forall x :: x in s[1..] ==> x in s;
      }
      RemoveAllKeys(s[1..], ks);
    }
  }

  /** Removing the same keys twice is the same as removing them once. */
  lemma {:induction false} RemoveKeysIdempotent(s: seq<Row>, ks: set<Key>)
    ensures RemoveKeys(RemoveKeys(s, ks), ks) == RemoveKeys(s, ks)
  {
    if s != [] {
      RemoveKeysIdempotent(s[1..], ks);
      if KeyOf(s[0]) !in ks {
        assert ([s[0]] + RemoveKeys(s[1..], ks))[1..] == RemoveKeys(s[1..], ks);
      }
    }
  }
}
