/** `sorted(data, key=lambda x: x[key], reverse=reverse)` on text keys.
    Python's sort is stable, and with `reverse=True` rows with equal keys
    still keep their original relative order. The sort is an insertion
    sort, so that the three facts a caller relies on (a permutation, in
    order, ties in input order) each follow from one small induction. */
module StableSort {
  import opened CsvTable
  import opened TextOrder

  /** Key `a` must be placed strictly before key `b`. */
  predicate Before(a: string, b: string, reverse: bool)
  {
    if reverse then Less(b, a) else Less(a, b)
  }

  /** No row is strictly before a row that precedes it. */
  predicate Sorted(rows: seq<Row>, key: string, reverse: bool)
    requires HasColumn(rows, key)
  {
    forall i, j :: 0 <= i < j < |rows| ==> !Before(rows[j][key], rows[i][key], reverse)
  }

  lemma BeforeIrreflexive(a: string, reverse: bool)
    ensures !Before(a, a, reverse)
  {
    LessIrreflexive(a);
  }

  /** "Not strictly before" is transitive, because `Less` is a strict total
      order in either direction. */
  lemma NotBeforeTransitive(a: string, b: string, c: string, reverse: bool)
    requires !Before(b, a, reverse) && !Before(c, b, reverse)
    ensures !Before(c, a, reverse)
  {
    if a != b && b != c {
      LessTotal(a, b);
      LessTotal(b, c);
      if reverse {
        LessTransitive(c, b, a);
      } else {
        LessTransitive(a, b, c);
      }
      if Before(c, a, reverse) {
        if reverse { LessAsymmetric(c, a); } else { LessAsymmetric(a, c); }
      }
    }
  }

  /** Insert `x` in front of the first row whose key is not strictly before
      `x`'s key: `x` comes from earlier in the input than every row of `s`,
      so it goes ahead of the rows whose key equals its own. */
  function Insert(x: Row, s: seq<Row>, key: string, reverse: bool): (r: seq<Row>)
    requires key in x && HasColumn(s, key)
    ensures HasColumn(r, key)
    ensures multiset(r) == multiset(s) + multiset{x}
  {
    if |s| == 0 then [x]
    else if !Before(s[0][key], x[key], reverse) then [x] + s
    else
      assert s == [s[0]] + s[1..];
      [s[0]] + Insert(x, s[1..], key, reverse)
  }

  /** The rows ordered by their `key` cell, ascending or (with `reverse`)
      descending; the result is a rearrangement of the input. */
  function Sort(s: seq<Row>, key: string, reverse: bool): (r: seq<Row>)
    requires HasColumn(s, key)
    ensures HasColumn(r, key)
    ensures multiset(r) == multiset(s)
  {
    if |s| == 0 then []
    else
      assert s == [s[0]] + s[1..];
      Insert(s[0], Sort(s[1..], key, reverse), key, reverse)
  }

  lemma {:induction false} InsertSorted(x: Row, s: seq<Row>, key: string, reverse: bool)
    requires key in x && HasColumn(s, key) && Sorted(s, key, reverse)
    ensures Sorted(Insert(x, s, key, reverse), key, reverse)
  {
    if |s| == 0 {
    } else if !Before(s[0][key], x[key], reverse) {
      var r := [x] + s;
      forall i, j | 0 <= i < j < |r|
        ensures !Before(r[j][key], r[i][key], reverse)
      {
        if i == 0 && j > 1 {
          NotBeforeTransitive(x[key], s[0][key], s[j - 1][key], reverse);
        }
      }
    } else {
      var tail := Insert(x, s[1..], key, reverse);
      InsertSorted(x, s[1..], key, reverse);
      var r := [s[0]] + tail;
      forall j | 0 < j < |r|
        ensures !Before(r[j][key], s[0][key], reverse)
      {
        var e := tail[j - 1];
        assert e in multiset(tail);
        if e == x {
          if reverse { LessAsymmetric(x[key], s[0][key]); } else { LessAsymmetric(s[0][key], x[key]); }
        } else {
          assert e in multiset(s[1..]);
          var k :| 0 <= k < |s[1..]| && s[1..][k] == e;
          assert s[k + 1] == e;
        }
      }
      assert Sorted(r, key, reverse);
    }
  }

  lemma {:induction false} SortSorted(s: seq<Row>, key: string, reverse: bool)
    requires HasColumn(s, key)
    ensures Sorted(Sort(s, key, reverse), key, reverse)
  {
    if |s| > 0 {
      SortSorted(s[1..], key, reverse);
      InsertSorted(s[0], Sort(s[1..], key, reverse), key, reverse);
    }
  }

  /** Inserting `x` adds it in front of the rows that share its key. */
  lemma {:induction false} InsertStable(x: Row, s: seq<Row>, key: string, reverse: bool, v: string)
    requires key in x && HasColumn(s, key)
    ensures Matching(Insert(x, s, key, reverse), key, v)
         == (if x[key] == v then [x] else []) + Matching(s, key, v)
  {
    if |s| > 0 && Before(s[0][key], x[key], reverse) {
      InsertStable(x, s[1..], key, reverse, v);
      InsertStablePast(x, s, key, reverse, v);
    } else {
      MatchingCons(x, s, key, v);
    }
  }

  /** The step of `InsertStable` where `x` moves past the first row: that
      row's key is strictly before `x`'s, so at most one of the two rows
      holds `v`, and their order among the matches does not matter. */
  lemma InsertStablePast(x: Row, s: seq<Row>, key: string, reverse: bool, v: string)
    requires key in x && HasColumn(s, key)
    requires |s| > 0 && Before(s[0][key], x[key], reverse)
    requires Matching(Insert(x, s[1..], key, reverse), key, v)
          == (if x[key] == v then [x] else []) + Matching(s[1..], key, v)
    ensures Matching(Insert(x, s, key, reverse), key, v)
         == (if x[key] == v then [x] else []) + Matching(s, key, v)
  {
    var own := if x[key] == v then [x] else [];
    var head := if s[0][key] == v then [s[0]] else [];
    var tail := Insert(x, s[1..], key, reverse);
    assert Insert(x, s, key, reverse) == [s[0]] + tail;
    MatchingCons(s[0], tail, key, v);
    assert s == [s[0]] + s[1..];
    MatchingCons(s[0], s[1..], key, v);
    BeforeIrreflexive(x[key], reverse);
    assert own == [] || head == [];
    SwapFront(own, head, Matching(s[1..], key, v));
  }

  lemma SwapFront(a: seq<Row>, b: seq<Row>, c: seq<Row>)
    requires a == [] || b == []
    ensures b + (a + c) == a + (b + c)
  {
    if a == [] {
      assert a + c == c;
      assert a + (b + c) == b + c;
    } else {
      assert b + (a + c) == a + c;
      assert b + c == c;
    }
  }

  lemma MatchingCons(h: Row, t: seq<Row>, key: string, v: string)
    requires key in h && HasColumn(t, key)
    ensures HasColumn([h] + t, key)
    ensures Matching([h] + t, key, v) == (if h[key] == v then [h] else []) + Matching(t, key, v)
  {
    assert ([h] + t)[1..] == t;
  }

  /** Stability: for every key value, the rows holding it appear in the
      output in the same relative order as in the input. */
  lemma {:induction false} SortStable(s: seq<Row>, key: string, reverse: bool, v: string)
    requires HasColumn(s, key)
    ensures Matching(Sort(s, key, reverse), key, v) == Matching(s, key, v)
  {
    if |s| > 0 {
      SortStable(s[1..], key, reverse, v);
      InsertStable(s[0], Sort(s[1..], key, reverse), key, reverse, v);
    }
  }
}
