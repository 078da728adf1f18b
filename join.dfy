/** The leapfrog join of system_iterator.h as functions over the id columns of the
    queried types: `cols[k]` is the `ids` column of the k-th queried type and `idx[k]`
    the cursor's `current_indexes[k]`. The cursor class executes exactly these steps. */
module Join {
  import opened EcsImpl
  import opened SortedIds

  predicate ValidColumns(cols: seq<seq<Id>>)
  {
    |cols| >= 1 && forall k :: 0 <= k < |cols| ==> IsColumn(cols[k])
  }

  /** Every index points into its column. */
  predicate InBounds(cols: seq<seq<Id>>, idx: seq<nat>)
  {
    |idx| == |cols| && forall k :: 0 <= k < |cols| ==> idx[k] < |cols[k]|
  }

  /** An entity every queried type holds a component of. */
  predicate Joint(cols: seq<seq<Id>>, x: Id)
  {
    x != MAX_ID && forall k :: 0 <= k < |cols| ==> x in cols[k]
  }

  /** No jointly held id lies in [lo, hi). */
  predicate NoJointIn(cols: seq<seq<Id>>, lo: Id, hi: Id)
  {
    forall x: Id :: lo <= x < hi ==> !Joint(cols, x)
  }

  /** Every id the cursor has already stepped over is below `t`. */
  predicate Below(cols: seq<seq<Id>>, idx: seq<nat>, t: Id)
    requires InBounds(cols, idx)
  {
    forall k, j :: 0 <= k < |cols| && 0 <= j < idx[k] ==> cols[k][j] < t
  }

  /** All slots point at the same id. */
  predicate Settled(cols: seq<seq<Id>>, idx: seq<nat>)
    requires InBounds(cols, idx)
  {
    forall k :: 0 <= k < |cols| ==> cols[k][idx[k]] == cols[0][idx[0]]
  }

  /** The id under the first slot: what `operator bool` and `advance()` read. */
  function Current(cols: seq<seq<Id>>, idx: seq<nat>): Id
    requires |cols| >= 1 && InBounds(cols, idx)
  {
    cols[0][idx[0]]
  }

  /** Outcome of one scan over the slots: the new indexes and the id reached. */
  datatype Step = Step(idx: seq<nat>, reached: Id)

  /** `get_advanced_index<k>(t)` as intended: walk slot k forward while its id is below
      `t`, then hand the id it reached to slot k + 1 as that slot's target. The id reached
      by the last slot is the running maximum over the scan. */
  function PassFrom(cols: seq<seq<Id>>, idx: seq<nat>, k: nat, t: Id): (r: Step)
    requires ValidColumns(cols) && InBounds(cols, idx) && k <= |cols|
    ensures InBounds(cols, r.idx) && r.reached >= t
    ensures forall m :: 0 <= m < |cols| ==> idx[m] <= r.idx[m]
    ensures forall m :: 0 <= m < k ==> r.idx[m] == idx[m]
    ensures forall m :: k <= m < |cols| ==> t <= cols[m][r.idx[m]] <= r.reached
    ensures k < |cols| ==> r.reached == cols[|cols| - 1][r.idx[|cols| - 1]]
    decreases |cols| - k
  {
    if k == |cols| then Step(idx, t)
    else
      var j := FirstAtLeast(cols[k], idx[k], t);
      PassFrom(cols, idx[k := j], k + 1, cols[k][j])
  }

  function Pass(cols: seq<seq<Id>>, idx: seq<nat>, t: Id): (r: Step)
    requires ValidColumns(cols) && InBounds(cols, idx)
  {
    PassFrom(cols, idx, 0, t)
  }

  /** An id strictly between the ids a column walk stepped over and the id it stopped
      on is not in that column. */
  lemma NotInGap(s: seq<Id>, i: nat, t: Id, x: Id)
    requires IsColumn(s) && i < |s|
    requires forall j :: 0 <= j < i ==> s[j] < t
    requires t <= x < s[i]
    ensures x !in s
  {
    forall k | 0 <= k < |s| ensures s[k] != x {
      if k > i { assert s[i] < s[k]; }
    }
  }

  /** A scan skips no jointly held id: nothing joint lies between its start target and
      the id it reached, and afterwards every stepped-over id is below the reached id. */
  lemma {:induction false} PassSkipsNoJoint(cols: seq<seq<Id>>, idx: seq<nat>, k: nat, t: Id)
    requires ValidColumns(cols) && InBounds(cols, idx) && k <= |cols|
    requires Below(cols, idx, t)
    ensures NoJointIn(cols, t, PassFrom(cols, idx, k, t).reached)
    ensures Below(cols, PassFrom(cols, idx, k, t).idx, PassFrom(cols, idx, k, t).reached)
    decreases |cols| - k
  {
    if k < |cols| {
      var j := FirstAtLeast(cols[k], idx[k], t);
      var idx' := idx[k := j];
      var y := cols[k][j];
      forall m, i | 0 <= m < |cols| && 0 <= i < idx'[m] ensures cols[m][i] < y {
        if m == k && i >= idx[k] {
          assert cols[m][i] < t;
        } else {
          assert cols[m][i] < t;
        }
      }
      PassSkipsNoJoint(cols, idx', k + 1, y);
      var r := PassFrom(cols, idx', k + 1, y);
      forall x: Id | t <= x < r.reached ensures !Joint(cols, x) {
        if x < y {
          forall i | 0 <= i < j ensures cols[k][i] < t {
            if i >= idx[k] { } else { }
          }
          NotInGap(cols[k], j, t, x);
        }
      }
    }
  }

  /** Repeats scans until one reaches exactly its own target (the fixpoint). */
  function Settle(cols: seq<seq<Id>>, s: Step, target: Id): (idx: seq<nat>)
    requires ValidColumns(cols) && InBounds(cols, s.idx) && s.reached >= target
    ensures InBounds(cols, idx)
    decreases MAX_ID - target
  {
    if s.reached == target then s.idx
    else Settle(cols, Pass(cols, s.idx, s.reached), s.reached)
  }

  /** `advance(target)`: with one queried type a single scan; with several, scans repeated
      until the target stops moving. (The source also stops early when the recomputed
      target is `max_id`; the findings show why that exit is wrong and it is not taken here.) */
  function Advance(cols: seq<seq<Id>>, idx: seq<nat>, target: Id): (r: seq<nat>)
    requires ValidColumns(cols) && InBounds(cols, idx)
    ensures InBounds(cols, r)
  {
    var s := Pass(cols, idx, target);
    if |cols| == 1 then s.idx else Settle(cols, s, target)
  }

  /** What `advance(target)` achieves: the slots agree on one id, the smallest jointly held
      id at or above `target`, or all stand on the sentinel when there is none; and no index
      went backwards. */
  predicate LandsOnNextJoint(cols: seq<seq<Id>>, idx: seq<nat>, target: Id, r: seq<nat>)
    requires InBounds(cols, idx) && InBounds(cols, r) && |cols| >= 1
  {
    && Settled(cols, r)
    && Current(cols, r) >= target
    && NoJointIn(cols, target, Current(cols, r))
    && (Current(cols, r) != MAX_ID ==> Joint(cols, Current(cols, r)))
    && (forall k :: 0 <= k < |cols| ==> idx[k] <= r[k])
  }

  lemma {:induction false} SettleCorrect(cols: seq<seq<Id>>, idx0: seq<nat>, t0: Id, s: Step, target: Id)
    requires ValidColumns(cols) && InBounds(cols, idx0) && InBounds(cols, s.idx)
    requires t0 <= target <= s.reached
    requires Below(cols, s.idx, s.reached) && NoJointIn(cols, t0, s.reached)
    requires forall m :: 0 <= m < |cols| ==> target <= cols[m][s.idx[m]] <= s.reached
    requires forall k :: 0 <= k < |cols| ==> idx0[k] <= s.idx[k]
    ensures LandsOnNextJoint(cols, idx0, t0, Settle(cols, s, target))
    decreases MAX_ID - target
  {
    if s.reached == target {
      assert Settled(cols, s.idx);
    } else {
      var s' := Pass(cols, s.idx, s.reached);
      PassSkipsNoJoint(cols, s.idx, 0, s.reached);
      SettleCorrect(cols, idx0, t0, s', s.reached);
    }
  }

  /** The intended `advance(target)` lands on the next jointly held id at or above `target`,
      provided every id already stepped over is below `target`. */
  lemma AdvanceCorrect(cols: seq<seq<Id>>, idx: seq<nat>, target: Id)
    requires ValidColumns(cols) && InBounds(cols, idx) && Below(cols, idx, target)
    ensures LandsOnNextJoint(cols, idx, target, Advance(cols, idx, target))
  {
    var s := Pass(cols, idx, target);
    PassSkipsNoJoint(cols, idx, 0, target);
    if |cols| == 1 {
      assert Current(cols, s.idx) == s.reached;
    } else {
      SettleCorrect(cols, idx, target, s, target);
    }
  }

  /** With one queried type, `advance(target)` is a plain linear walk of that type's ids. */
  lemma SingleTypeIsLinearWalk(col: seq<Id>, i: nat, target: Id)
    requires IsColumn(col) && i < |col|
    ensures Advance([col], [i], target) == [FirstAtLeast(col, i, target)]
  {
  }

  /** A settled cursor has stepped over nothing at or above its current id, so the
      no-argument `advance()`, which re-targets to current id + 1, may run next. */
  lemma SettledIsBelowNext(cols: seq<seq<Id>>, idx: seq<nat>)
    requires ValidColumns(cols) && InBounds(cols, idx) && Settled(cols, idx)
    requires Current(cols, idx) != MAX_ID
    ensures Below(cols, idx, Current(cols, idx) + 1)
  {
  }

  /** The jointly held ids of a sorted run `s`, in order. */
  function JointFrom(cols: seq<seq<Id>>, s: seq<Id>): seq<Id>
  {
    if s == [] then []
    else (if Joint(cols, s[0]) then [s[0]] else []) + JointFrom(cols, s[1..])
  }

  /** The ids a join should visit: those of the first column that every column holds. */
  function JointIds(cols: seq<seq<Id>>): seq<Id>
    requires |cols| >= 1
  {
    JointFrom(cols, cols[0])
  }

  lemma {:induction false} JointFromSpec(cols: seq<seq<Id>>, s: seq<Id>)
    requires StrictlySorted(s)
    ensures StrictlySorted(JointFrom(cols, s))
    ensures forall x :: x in JointFrom(cols, s) <==> x in s && Joint(cols, x)
    ensures forall x :: x in JointFrom(cols, s) ==> s[0] <= x
  {
    if s != [] {
      JointFromSpec(cols, s[1..]);
      var rest := JointFrom(cols, s[1..]);
      forall x | x in rest ensures s[0] < x {
        assert x in s[1..];
      }
      forall x ensures x in JointFrom(cols, s) <==> x in s && Joint(cols, x) {
        assert x in s <==> x == s[0] || x in s[1..];
      }
      var r := JointFrom(cols, s);
      forall i, j | 0 <= i < j < |r| ensures r[i] < r[j] {
        if Joint(cols, s[0]) {
          assert r[j] == rest[j - 1] && r[j] in rest;
          if i > 0 { assert r[i] == rest[i - 1]; }
        }
      }
    }
  }

  /** Join correctness: the visit list is strictly increasing and holds exactly the ids
      that every queried type holds. */
  lemma JointIdsSpec(cols: seq<seq<Id>>)
    requires ValidColumns(cols)
    ensures StrictlySorted(JointIds(cols))
    ensures forall x :: x in JointIds(cols) <==> Joint(cols, x)
  {
    JointFromSpec(cols, cols[0]);
  }

  /** Two strictly increasing sequences with the same elements are equal. */
  lemma {:induction false} SortedSameElements(a: seq<Id>, b: seq<Id>)
    requires StrictlySorted(a) && StrictlySorted(b)
    requires forall x :: x in a <==> x in b
    ensures a == b
  {
    assert a != [] ==> a[0] in b;
    assert b != [] ==> b[0] in a;
    if a != [] && b != [] {
      forall x ensures x in a[1..] <==> x in b[1..] {
        if x in a[1..] { assert x in a && x != a[0]; }
        if x in b[1..] { assert x in b && x != b[0]; }
      }
      SortedSameElements(a[1..], b[1..]);
      assert a == [a[0]] + a[1..];
      assert b == [b[0]] + b[1..];
    }
  }

  /** A traversal that has reached id `cur` has visited, in increasing order, exactly
      the jointly held ids below `cur`. */
  predicate VisitedBelow(cols: seq<seq<Id>>, visited: seq<Id>, cur: Id)
  {
    && StrictlySorted(visited)
    && (forall x :: x in visited ==> Joint(cols, x) && x < cur)
    && (forall x: Id :: x < cur && Joint(cols, x) ==> x in visited)
  }

  /** Visiting the jointly held id `e` and then landing on the next one keeps
      `VisitedBelow`. */
  lemma VisitStep(cols: seq<seq<Id>>, visited: seq<Id>, e: Id, next: Id)
    requires VisitedBelow(cols, visited, e) && Joint(cols, e)
    requires e < next && NoJointIn(cols, e + 1, next)
    ensures VisitedBelow(cols, visited + [e], next)
  {
    var v := visited + [e];
    forall i, j | 0 <= i < j < |v| ensures v[i] < v[j] {
      if j == |v| - 1 { assert v[i] in visited; }
    }
    forall x: Id | x < next && Joint(cols, x) ensures x in v {
      if x < e { assert x in visited; } else { assert x == e; }
    }
  }

  /** A traversal that has reached the sentinel has visited exactly `JointIds(cols)`. */
  lemma VisitedAllIsJointIds(cols: seq<seq<Id>>, visited: seq<Id>)
    requires ValidColumns(cols) && VisitedBelow(cols, visited, MAX_ID)
    ensures visited == JointIds(cols)
  {
    JointIdsSpec(cols);
    SortedSameElements(visited, JointIds(cols));
  }
}
