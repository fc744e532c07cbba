/** The Python list operations the table code applies to its header:
    membership as a set, `list.index`, `list.remove` and `list.insert`. */
module Seqs {

  /** No name occurs twice. */
  predicate NoDup(s: seq<string>)
  {
    forall i, j :: 0 <= i < j < |s| ==> s[i] != s[j]
  }

  /** The names of a header, as a set (what a row's key set is compared with). */
  function FieldSet(s: seq<string>): set<string>
  {
    set x | x in s
  }

  /** `s.index(x)`: the position of the first occurrence of `x`. */
  function IndexOf(s: seq<string>, x: string): (i: nat)
    requires x in s
    ensures i < |s| && s[i] == x
    ensures x !in s[..i]
  {
    if s[0] == x then 0
    else
      assert x in s[1..] by { assert s == [s[0]] + s[1..]; }
      var k := IndexOf(s[1..], x);
      assert s[..k + 1] == [s[0]] + s[1..][..k];
      k + 1
  }

  /** `s.remove(x)` when `x` is present; `s` itself when it is not (the
      callers in the table code test membership before they remove). */
  function RemoveFirst(s: seq<string>, x: string): (r: seq<string>)
    ensures x !in s ==> r == s
    ensures x in s ==> |r| == |s| - 1
    ensures x in s ==> r == s[..IndexOf(s, x)] + s[IndexOf(s, x) + 1..]
  {
    if |s| == 0 then []
    else if s[0] == x then s[1..]
    else
      assert s == [s[0]] + s[1..];
      var r := [s[0]] + RemoveFirst(s[1..], x);
      assert x in s ==> s[..IndexOf(s, x)] == [s[0]] + s[1..][..IndexOf(s[1..], x)];
      r
  }

  /** `s.insert(p, x)` for an index inside the list or one past its end. */
  function InsertAt(s: seq<string>, p: nat, x: string): (r: seq<string>)
    requires p <= |s|
    ensures |r| == |s| + 1 && r[p] == x
    ensures r[..p] + r[p + 1..] == s
  {
    var r := s[..p] + [x] + s[p..];
    assert r[..p] == s[..p] && r[p + 1..] == s[p..];
    assert s == s[..p] + s[p..];
    r
  }

  /** Removing a name from a duplicate-free header removes it entirely,
      shortens the header by one and keeps it duplicate-free. */
  lemma RemoveFirstNoDup(s: seq<string>, x: string)
    ensures NoDup(s) ==> NoDup(RemoveFirst(s, x))
    ensures NoDup(s) ==> x !in RemoveFirst(s, x)
    ensures NoDup(s) ==> FieldSet(RemoveFirst(s, x)) == FieldSet(s) - {x}
  {
    if x in s && NoDup(s) {
      var i := IndexOf(s, x);
      var r := RemoveFirst(s, x);
      assert forall k :: 0 <= k < |r| ==> r[k] == s[if k < i then k else k + 1];
      forall a, b | 0 <= a < b < |r|
        ensures r[a] != r[b]
      {
      }
      forall y | y in r
        ensures y != x && y in s
      {
      }
      forall y | y in s && y != x
        ensures y in r
      {
        var k :| 0 <= k < |s| && s[k] == y;
        assert k != i;
        var k' := if k < i then k else k - 1;
        assert r[k'] == y;
      }
    }
  }

  /** Inserting a name absent from a duplicate-free header keeps it
      duplicate-free and adds exactly that name. */
  lemma InsertAtNoDup(s: seq<string>, p: nat, x: string)
    requires p <= |s| && NoDup(s) && x !in s
    ensures NoDup(InsertAt(s, p, x))
    ensures FieldSet(InsertAt(s, p, x)) == FieldSet(s) + {x}
  {
    var r := InsertAt(s, p, x);
    assert s == s[..p] + s[p..];
    forall a, b | 0 <= a < b < |r|
      ensures r[a] != r[b]
    {
      if a != p && b != p {
        var a' := if a < p then a else a - 1;
        var b' := if b < p then b else b - 1;
        assert r[a] == s[a'] && r[b] == s[b'];
      } else if a == p {
        assert r[b] == s[b - 1];
      } else {
        assert r[a] == s[a];
      }
    }
  }

  /** Overwriting the name at index `i` with a name not used elsewhere
      keeps the header duplicate-free and swaps one name for the other. */
  lemma ReplaceNoDup(s: seq<string>, i: nat, y: string)
    requires i < |s| && NoDup(s) && (y !in s || y == s[i])
    ensures NoDup(s[i := y])
    ensures FieldSet(s[i := y]) == FieldSet(s) - {s[i]} + {y}
  {
    var r := s[i := y];
    forall z | z in FieldSet(s) - {s[i]} + {y}
      ensures z in r
    {
      if z != y {
        var k :| 0 <= k < |s| && s[k] == z;
        assert r[k] == z;
      } else {
        assert r[i] == z;
      }
    }
  }

  /** The first occurrence of a freshly written name is where it was
      written. */
  lemma IndexOfReplaced(s: seq<string>, i: nat, y: string)
    requires i < |s| && y !in s
    ensures y in s[i := y] && IndexOf(s[i := y], y) == i
  {
    var r := s[i := y];
    assert r[i] == y;
    assert r[..i] == s[..i];
  }
}
