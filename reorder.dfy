/** The order sync after a drag (script.js, syncTasksOrderFromDOM). The
    list is sorted with a comparator that subtracts the positions
    `indexOf` gives the two tasks' ids in `ids`, the ids of the list items
    in their new on-screen order. Array.prototype.sort is stable, so the
    comparator fixes the result: tasks ordered by the position of their
    id in `ids`, an id that is not listed counting as -1, ties kept in
    their old order. */
module Reorder {
  import opened Text
  import opened Tasks

  /** `ids.indexOf(x)`: the first position holding `x`, or -1. */
  function IndexOf(ids: seq<string>, x: string): (k: int)
    ensures -1 <= k < |ids|
    ensures k == -1 <==> x !in ids
    ensures k >= 0 ==> ids[k] == x && x !in ids[..k]
  {
    if ids == [] then -1
    else if ids[0] == x then 0
    else
      var k := IndexOf(ids[1..], x);
      assert k >= 0 ==> ids[..k + 1] == [ids[0]] + ids[1..][..k];
      if k == -1 then -1 else k + 1
  }

  /** The sort key of a task. */
  function Rank(t: Task, ids: seq<string>): int {
    IndexOf(ids, t.id)
  }

  /** No task is ranked below one in front of it. */
  predicate SortedBy(s: seq<Task>, ids: seq<string>) {
    forall i, j :: 0 <= i < j < |s| ==> Rank(s[i], ids) <= Rank(s[j], ids)
  }

  /** Puts `x` in front of the first task ranked at least as high; the
      result holds the same tasks plus `x`. */
  function Insert(x: Task, s: seq<Task>, ids: seq<string>): (r: seq<Task>)
    ensures |r| == |s| + 1
    ensures multiset(r) == multiset{x} + multiset(s)
  {
    if s == [] then [x]
    else if Rank(x, ids) <= Rank(s[0], ids) then [x] + s
    else
      assert s == [s[0]] + s[1..];
      [s[0]] + Insert(x, s[1..], ids)
  }

  /** A task ranked no higher than every task of a sorted list can go in
      front of it. */
  lemma ConsSorted(h: Task, s: seq<Task>, ids: seq<string>)
    requires SortedBy(s, ids)
    requires forall j :: 0 <= j < |s| ==> Rank(h, ids) <= Rank(s[j], ids)
    ensures SortedBy([h] + s, ids)
  {
    var r := [h] + s;
    forall i, j | 0 <= i < j < |r| ensures Rank(r[i], ids) <= Rank(r[j], ids) {
      assert r[j] == s[j - 1];
      if i > 0 { assert r[i] == s[i - 1]; }
    }
  }

  /** Inserting into a sorted list keeps it sorted; the new first task is
      `x` or the old first one. */
  lemma {:induction false} InsertSorted(x: Task, s: seq<Task>, ids: seq<string>)
    requires SortedBy(s, ids)
    ensures SortedBy(Insert(x, s, ids), ids)
    ensures Insert(x, s, ids)[0] == x || (s != [] && Insert(x, s, ids)[0] == s[0])
  {
    if s != [] && Rank(s[0], ids) < Rank(x, ids) {
      var tail := s[1..];
      assert SortedBy(tail, ids) by {
        forall i, j | 0 <= i < j < |tail| ensures Rank(tail[i], ids) <= Rank(tail[j], ids) {
          assert tail[i] == s[i + 1] && tail[j] == s[j + 1];
        }
      }
      InsertSorted(x, tail, ids);
      var rest := Insert(x, tail, ids);
      assert Rank(s[0], ids) <= Rank(rest[0], ids) by {
        if rest[0] != x { assert rest[0] == s[1]; }
      }
      forall j | 0 <= j < |rest| ensures Rank(s[0], ids) <= Rank(rest[j], ids) {
        if j > 0 { assert Rank(rest[0], ids) <= Rank(rest[j], ids); }
      }
      ConsSorted(s[0], rest, ids);
    } else if s != [] {
      ConsSorted(x, s, ids);
    }
  }

  /** The order the stable sort leaves `tasks` in: a rearrangement of the
      tasks, ranked by the position of their id in `ids`. */
  function SortByIds(s: seq<Task>, ids: seq<string>): (r: seq<Task>)
    ensures |r| == |s|
    ensures SortedBy(r, ids)
    ensures multiset(r) == multiset(s)
  {
    if s == [] then []
    else
      assert s == [s[0]] + s[1..];
      InsertSorted(s[0], SortByIds(s[1..], ids), ids);
      Insert(s[0], SortByIds(s[1..], ids), ids)
  }

  /** The tasks of one rank, in their order. */
  function WithRank(s: seq<Task>, ids: seq<string>, k: int): seq<Task> {
    Keep(s, (t: Task) => Rank(t, ids) == k)
  }

  lemma {:induction false} InsertWithRank(x: Task, s: seq<Task>, ids: seq<string>, k: int)
    ensures WithRank(Insert(x, s, ids), ids, k)
            == (if Rank(x, ids) == k then [x] else []) + WithRank(s, ids, k)
  {
    var keep := (t: Task) => Rank(t, ids) == k;
    if s == [] {
      KeepCons(x, [], keep);
    } else if Rank(x, ids) <= Rank(s[0], ids) {
      KeepCons(x, s, keep);
    } else {
      InsertWithRank(x, s[1..], ids, k);
      KeepCons(s[0], Insert(x, s[1..], ids), keep);
      KeepCons(s[0], s[1..], keep);
      assert s == [s[0]] + s[1..];
    }
  }

  /** The sort is stable: the tasks of each rank keep their old relative
      order. */
  lemma {:induction false} SortStable(s: seq<Task>, ids: seq<string>, k: int)
    ensures WithRank(SortByIds(s, ids), ids, k) == WithRank(s, ids, k)
  {
    if s != [] {
      SortStable(s[1..], ids, k);
      InsertWithRank(s[0], SortByIds(s[1..], ids), ids, k);
      KeepCons(s[0], s[1..], (t: Task) => Rank(t, ids) == k);
      assert s == [s[0]] + s[1..];
    }
  }

  /** In a sorted list the tasks of the lowest rank, -1, form a prefix
      and everything after it is ranked 0 or more. */
  lemma {:induction false} UnrankedPrefix(r: seq<Task>, ids: seq<string>)
    requires SortedBy(r, ids)
    ensures |WithRank(r, ids, -1)| <= |r|
    ensures r[..|WithRank(r, ids, -1)|] == WithRank(r, ids, -1)
    ensures forall i :: |WithRank(r, ids, -1)| <= i < |r| ==> Rank(r[i], ids) >= 0
  {
    var keep := (t: Task) => Rank(t, ids) == -1;
    if r != [] {
      assert r == [r[0]] + r[1..];
      KeepCons(r[0], r[1..], keep);
      assert WithRank(r, ids, -1) == Keep([r[0]] + r[1..], keep);
      if Rank(r[0], ids) == -1 {
        assert SortedBy(r[1..], ids) by {
          forall i, j | 0 <= i < j < |r| - 1 ensures Rank(r[1..][i], ids) <= Rank(r[1..][j], ids) {
            assert r[1..][i] == r[i + 1] && r[1..][j] == r[j + 1];
          }
        }
        UnrankedPrefix(r[1..], ids);
        var m := |WithRank(r[1..], ids, -1)|;
        assert WithRank(r, ids, -1) == [r[0]] + WithRank(r[1..], ids, -1);
        assert r[..m + 1] == [r[0]] + r[1..][..m];
        forall i | m + 1 <= i < |r| ensures Rank(r[i], ids) >= 0 {
          assert r[i] == r[1..][i - 1];
        }
      } else {
        forall i | 0 <= i < |r| ensures !keep(r[i]) {
          assert Rank(r[0], ids) <= Rank(r[i], ids);
        }
        KeepNothing(r, keep);
      }
    }
  }

  /** Tasks whose id is not in `ids` end up first, in their old order,
      followed by the listed ones. */
  lemma {:induction false} UnlistedFirst(s: seq<Task>, ids: seq<string>)
    ensures var r := SortByIds(s, ids);
            var m := |WithRank(s, ids, -1)|;
            m <= |r| && r[..m] == WithRank(s, ids, -1)
            && forall i :: m <= i < |r| ==> r[i].id in ids
  {
    var r := SortByIds(s, ids);
    SortStable(s, ids, -1);
    UnrankedPrefix(r, ids);
  }

  /** A sorted-out, duplicate-free rearrangement: inserting a task whose
      id is new keeps the ids unique. */
  lemma {:induction false} InsertDistinct(x: Task, s: seq<Task>, ids: seq<string>)
    requires DistinctIds(s)
    requires forall t :: t in s ==> t.id != x.id
    ensures DistinctIds(Insert(x, s, ids))
  {
    if s == [] || Rank(x, ids) <= Rank(s[0], ids) {
      forall j | 0 <= j < |s| ensures s[j].id != x.id { assert s[j] in s; }
      PrependDistinct(x, s);
    } else {
      DistinctTail(s);
      forall t | t in s[1..] ensures t.id != x.id { assert t in s; }
      InsertDistinct(x, s[1..], ids);
      var rest := Insert(x, s[1..], ids);
      HeadIdUnique(s);
      forall j | 0 <= j < |rest| ensures rest[j].id != s[0].id {
        assert rest[j] in multiset(rest);
        if rest[j] != x { assert rest[j] in multiset(s[1..]); } else { assert s[0] in s; }
      }
      PrependDistinct(s[0], rest);
    }
  }

  /** Sorting keeps a well-formed list well-formed. */
  lemma {:induction false} SortWellFormed(s: seq<Task>, ids: seq<string>)
    requires WellFormed(s)
    ensures WellFormed(SortByIds(s, ids))
  {
    var r := SortByIds(s, ids);
    SortDistinct(s, ids);
    forall i | 0 <= i < |r| ensures r[i].title != [] && IsTrimmed(r[i].title) {
      assert r[i] in multiset(r);
      var a :| 0 <= a < |s| && s[a] == r[i];
    }
  }

  /** A strictly increasing sequence of n numbers drawn from 0..n-1 is
      0, 1, ..., n-1. */
  lemma {:induction false} CountsUp(a: seq<int>)
    requires forall i, j :: 0 <= i < j < |a| ==> a[i] < a[j]
    requires forall i :: 0 <= i < |a| ==> 0 <= a[i] < |a|
    ensures forall i :: 0 <= i < |a| ==> a[i] == i
  {
    if |a| > 0 {
      var n := |a| - 1;
      var b := a[..n];
      forall i | 0 <= i < |b| ensures 0 <= b[i] < |b| {
        assert b[i] == a[i] < a[n];
      }
      CountsUp(b);
      assert n > 0 ==> a[n - 1] == b[n - 1] == n - 1;
    }
  }

  /** In a sorted list with unique ids, all listed in an `ids` of the
      same length, each task's rank is its position. */
  lemma {:induction false} RanksCountUp(r: seq<Task>, ids: seq<string>)
    requires SortedBy(r, ids) && DistinctIds(r) && |ids| == |r|
    requires forall i :: 0 <= i < |r| ==> r[i].id in ids
    ensures forall i :: 0 <= i < |r| ==> Rank(r[i], ids) == i
  {
    var a := seq(|r|, i requires 0 <= i < |r| => Rank(r[i], ids));
    forall i | 0 <= i < |a| ensures 0 <= a[i] < |a| { }
    forall i, j | 0 <= i < j < |a| ensures a[i] < a[j] {
      assert ids[a[i]] == r[i].id != r[j].id == ids[a[j]];
    }
    CountsUp(a);
    forall i | 0 <= i < |r| ensures Rank(r[i], ids) == i {
      assert a[i] == i;
    }
  }

  /** When `ids` lists every task once, which is what the list shows in
      the "all" view, the tasks take exactly the order of `ids`. */
  lemma {:induction false} SortFollowsIds(s: seq<Task>, ids: seq<string>)
    requires DistinctIds(s) && |ids| == |s|
    requires forall t :: t in s ==> t.id in ids
    ensures Ids(SortByIds(s, ids)) == ids
  {
    var r := SortByIds(s, ids);
    SortDistinct(s, ids);
    forall i | 0 <= i < |r| ensures r[i].id in ids {
      assert r[i] in multiset(r);
    }
    RanksCountUp(r, ids);
    forall i | 0 <= i < |r| ensures Ids(r)[i] == ids[i] {
      assert Rank(r[i], ids) == i;
    }
  }

  /** Sorting keeps ids unique. */
  lemma {:induction false} SortDistinct(s: seq<Task>, ids: seq<string>)
    requires DistinctIds(s)
    ensures DistinctIds(SortByIds(s, ids))
  {
    if s != [] {
      DistinctTail(s);
      SortDistinct(s[1..], ids);
      var rest := SortByIds(s[1..], ids);
      forall t | t in rest ensures t.id != s[0].id {
        assert t in multiset(s[1..]);
        var b :| 0 <= b < |s| - 1 && s[1..][b] == t;
        assert s[b + 1] == t;
      }
      InsertDistinct(s[0], rest, ids);
    }
  }

  /** The positions of the ids in the new on-screen order c, a, b. */
  lemma ExampleRanks(a: Task, b: Task, c: Task)
    requires a.id == "a" && b.id == "b" && c.id == "c"
    ensures Rank(c, ["c", "a", "b"]) == 0
    ensures Rank(a, ["c", "a", "b"]) == 1
    ensures Rank(b, ["c", "a", "b"]) == 2
  {
    var ids := ["c", "a", "b"];
    assert ids[1..] == ["a", "b"] && ids[1..][1..] == ["b"];
  }

  /** The insertions the sort performs on the example. */
  lemma ExampleInserts(a: Task, b: Task, c: Task)
    requires a.id == "a" && b.id == "b" && c.id == "c"
    ensures Insert(b, [c], ["c", "a", "b"]) == [c, b]
    ensures Insert(a, [c, b], ["c", "a", "b"]) == [c, a, b]
  {
    var ids := ["c", "a", "b"];
    ExampleRanks(a, b, c);
    assert [c][1..] == [] && [c, b][1..] == [b];
    assert Insert(a, [b], ids) == [a, b];
  }

  /** Dragging c to the top of [a, b, c] gives [c, a, b]. */
  lemma ReorderExample(a: Task, b: Task, c: Task)
    requires a.id == "a" && b.id == "b" && c.id == "c"
    ensures SortByIds([a, b, c], ["c", "a", "b"]) == [c, a, b]
  {
    var ids := ["c", "a", "b"];
    ExampleInserts(a, b, c);
    assert SortByIds([c], ids) == [c] by { assert [c][1..] == []; }
    assert SortByIds([b, c], ids) == [c, b] by { assert [b, c][1..] == [c]; }
    assert [a, b, c][1..] == [b, c];
  }
}
