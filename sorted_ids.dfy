/** Id columns: the sorted `ids` vector kept per component type, its `lower_bound`
    search, and the row insert and erase that the store performs on both columns. */
module SortedIds {
  import opened EcsImpl

  predicate StrictlySorted(s: seq<Id>)
  {
    forall i, j :: 0 <= i < j < |s| ==> s[i] < s[j]
  }

  /** A well-formed id column: strictly ascending, ending with the `max_id` sentinel. */
  predicate IsColumn(s: seq<Id>)
  {
    |s| >= 1 && s[|s| - 1] == MAX_ID && StrictlySorted(s)
  }

  /** The first position at or after `from` whose id is at least `x` (or |s|): the walk
      `while (ids[i] < x) i++`, and, from 0, what `std::lower_bound` finds in a sorted column. */
  function FirstAtLeast(s: seq<Id>, from: nat, x: Id): (i: nat)
    requires from <= |s|
    ensures from <= i <= |s|
    ensures forall j :: from <= j < i ==> s[j] < x
    ensures i < |s| ==> s[i] >= x
    ensures from < |s| && s[|s| - 1] >= x ==> i < |s|
    decreases |s| - from
  {
    if from == |s| || s[from] >= x then from else FirstAtLeast(s, from + 1, x)
  }

  /** `std::lower_bound(begin(ids), end(ids), x)` as a position. */
  function LowerBound(s: seq<Id>, x: Id): (i: nat)
    requires IsColumn(s)
    ensures i < |s| && s[i] >= x
    ensures forall j :: 0 <= j < i ==> s[j] < x
  {
    FirstAtLeast(s, 0, x)
  }

  /** In a column, `x` is present exactly when `lower_bound` lands on it, and then that is
      its only position. */
  lemma LowerBoundFinds(s: seq<Id>, x: Id)
    requires IsColumn(s)
    ensures x in s <==> s[LowerBound(s, x)] == x
    ensures forall k :: 0 <= k < |s| && s[k] == x ==> k == LowerBound(s, x)
  {
  }

  /** Row insertion at position `p` (vector::insert). */
  function Inserted<T>(s: seq<T>, p: nat, x: T): seq<T>
    requires p <= |s|
  {
    s[..p] + [x] + s[p..]
  }

  /** Row erase at position `p` (vector::erase); later rows shift down by one. */
  function Without<T>(s: seq<T>, p: nat): seq<T>
    requires p < |s|
  {
    s[..p] + s[p + 1..]
  }

  lemma InsertedAt<T>(s: seq<T>, p: nat, x: T)
    requires p <= |s|
    ensures |Inserted(s, p, x)| == |s| + 1 && Inserted(s, p, x)[p] == x
    ensures forall j :: 0 <= j < p ==> Inserted(s, p, x)[j] == s[j]
    ensures forall j :: p < j <= |s| ==> Inserted(s, p, x)[j] == s[j - 1]
    ensures forall y :: y in Inserted(s, p, x) <==> y in s || y == x
  {
    var r := Inserted(s, p, x);
    forall y ensures y in r <==> y in s || y == x {
      if y in s {
        var k :| 0 <= k < |s| && s[k] == y;
        if k < p { assert r[k] == y; } else { assert r[k + 1] == y; }
      }
      if y in r {
        var k :| 0 <= k < |r| && r[k] == y;
        if k < p { assert s[k] == y; } else if k > p { assert s[k - 1] == y; }
      }
    }
  }

  lemma WithoutAt<T>(s: seq<T>, p: nat)
    requires p < |s|
    ensures |Without(s, p)| == |s| - 1
    ensures forall j :: 0 <= j < p ==> Without(s, p)[j] == s[j]
    ensures forall j :: p <= j < |s| - 1 ==> Without(s, p)[j] == s[j + 1]
  {
  }

  /** Inserting a missing id at its `lower_bound` position keeps a column sorted, with
      the sentinel still last, and adds exactly that id. */
  lemma {:induction false} InsertKeepsColumn(s: seq<Id>, x: Id)
    requires IsColumn(s) && x !in s
    ensures IsColumn(Inserted(s, LowerBound(s, x), x))
    ensures forall y :: y in Inserted(s, LowerBound(s, x), x) <==> y in s || y == x
  {
    var p := LowerBound(s, x);
    var r := Inserted(s, p, x);
    InsertedAt(s, p, x);
    assert s[p] != x;
    assert x < MAX_ID;
    forall i, j | 0 <= i < j < |r| ensures r[i] < r[j] {
      if j < p {
        assert r[i] == s[i] && r[j] == s[j];
      } else if j == p {
        assert r[i] == s[i] && s[i] < x;
      } else if i < p {
        assert r[i] == s[i] && s[i] < x && x <= s[p] && r[j] == s[j - 1];
        assert p <= j - 1;
        if p < j - 1 { assert s[p] < s[j - 1]; }
      } else if i == p {
        assert r[j] == s[j - 1] && s[p] <= s[j - 1];
        if p < j - 1 { assert s[p] < s[j - 1]; }
      } else {
        assert r[i] == s[i - 1] && r[j] == s[j - 1];
      }
    }
  }

  /** Erasing a real row (not the sentinel) keeps a column sorted with the sentinel last,
      and removes exactly the erased id. */
  lemma EraseKeepsColumn(s: seq<Id>, p: nat)
    requires IsColumn(s) && p < |s| - 1
    ensures IsColumn(Without(s, p))
    ensures forall y :: y in Without(s, p) <==> y in s && y != s[p]
  {
    var r := Without(s, p);
    WithoutAt(s, p);
    forall i, j | 0 <= i < j < |r| ensures r[i] < r[j] {
      if j < p { } else if i < p { assert r[i] == s[i] && r[j] == s[j + 1]; } else { }
    }
    forall y ensures y in r <==> y in s && y != s[p] {
      if y in s && y != s[p] {
        var k :| 0 <= k < |s| && s[k] == y;
        if k < p { assert r[k] == y; } else { assert r[k - 1] == y; }
      }
      if y in r {
        var k :| 0 <= k < |r| && r[k] == y;
        if k < p { assert s[k] == y && s[k] < s[p]; } else { assert s[k + 1] == y && s[p] < s[k + 1]; }
      }
    }
  }
}
