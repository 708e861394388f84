/** The task records of the to-do list, the filtered view of them, the
    items-left counter, and the transitions the store applies to its
    sequence (script.js). The class that holds the sequence is in Store. */
module Tasks {
  import opened Text

  /** One to-do item: an opaque id, its title and whether it is done. */
  datatype Task = Task(id: string, title: string, completed: bool)

  /** The values `currentFilter` takes: the three filter buttons. */
  datatype Filter = All | Active | Completed

  predicate IsOpen(t: Task) { !t.completed }

  predicate IsDone(t: Task) { t.completed }

  /** `a` is `b` with some elements left out and the rest in their order. */
  predicate IsSubsequence(a: seq<Task>, b: seq<Task>)
    decreases |b|
  {
    a == [] || (b != [] && ((a[0] == b[0] && IsSubsequence(a[1..], b[1..])) || IsSubsequence(a, b[1..])))
  }

  lemma {:induction false} SubsequenceOfItself(s: seq<Task>)
    ensures IsSubsequence(s, s)
  {
    if s != [] { SubsequenceOfItself(s[1..]); }
  }

  /** `s.filter(keep)`: the elements that satisfy `keep`, in their order. */
  function Keep(s: seq<Task>, keep: Task -> bool): (r: seq<Task>)
    ensures |r| <= |s|
    ensures forall t {:trigger t in r} :: t in r <==> t in s && keep(t)
  {
    if s == [] then []
    else if keep(s[0]) then [s[0]] + Keep(s[1..], keep)
    else Keep(s[1..], keep)
  }

  /** The filter keeps the surviving elements in their order. */
  lemma {:induction false} KeepSubsequence(s: seq<Task>, keep: Task -> bool)
    ensures IsSubsequence(Keep(s, keep), s)
  {
    if s != [] {
      KeepSubsequence(s[1..], keep);
      var r := Keep(s, keep);
      if keep(s[0]) {
        assert r[0] == s[0] && r[1..] == Keep(s[1..], keep);
      }
    }
  }

  /** Filtering keeps everything when every element passes. */
  lemma {:induction false} KeepEverything(s: seq<Task>, keep: Task -> bool)
    requires forall i :: 0 <= i < |s| ==> keep(s[i])
    ensures Keep(s, keep) == s
  {
    if s != [] {
      KeepEverything(s[1..], keep);
      assert [s[0]] + s[1..] == s;
    }
  }

  /** Filtering a concatenation filters each part. */
  lemma {:induction false} KeepAppend(a: seq<Task>, b: seq<Task>, keep: Task -> bool)
    ensures Keep(a + b, keep) == Keep(a, keep) + Keep(b, keep)
  {
    if a == [] {
      assert a + b == b;
    } else {
      var x, rest := a[0], a[1..];
      var head := if keep(x) then [x] else [];
      assert Keep(a + b, keep) == head + Keep(rest + b, keep) by {
        assert a + b == [x] + (rest + b);
        KeepCons(x, rest + b, keep);
      }
      assert Keep(a, keep) == head + Keep(rest, keep) by {
        assert a == [x] + rest;
        KeepCons(x, rest, keep);
      }
      KeepAppend(rest, b, keep);
      assert head + (Keep(rest, keep) + Keep(b, keep)) == (head + Keep(rest, keep)) + Keep(b, keep);
    }
  }

  /** Filtering keeps nothing when no element passes. */
  lemma {:induction false} KeepNothing(s: seq<Task>, keep: Task -> bool)
    requires forall i :: 0 <= i < |s| ==> !keep(s[i])
    ensures Keep(s, keep) == []
  {
    if s != [] {
      KeepNothing(s[1..], keep);
    }
  }

  /** A filter and its negation split the sequence between them: no
      element is lost, none is counted twice. */
  lemma {:induction false} KeepSplits(s: seq<Task>, keep: Task -> bool, drop: Task -> bool)
    requires forall t :: drop(t) == !keep(t)
    ensures |Keep(s, keep)| + |Keep(s, drop)| == |s|
    ensures multiset(Keep(s, keep)) + multiset(Keep(s, drop)) == multiset(s)
  {
    if s != [] {
      KeepSplits(s[1..], keep, drop);
      assert s == [s[0]] + s[1..];
    }
  }

  /** Whether the filter shows a task. */
  predicate Shows(f: Filter, t: Task) {
    match f
    case All => true
    case Active => !t.completed
    case Completed => t.completed
  }

  /** `getVisibleTasks`: the tasks the current filter shows, in store order. */
  function Visible(s: seq<Task>, f: Filter): (r: seq<Task>)
    ensures f == All ==> r == s
    ensures forall t {:trigger t in r} :: t in r <==> t in s && Shows(f, t)
  {
    match f
    case Active => Keep(s, IsOpen)
    case Completed => Keep(s, IsDone)
    case All => s
  }

  /** The active and the completed views partition the whole list. */
  lemma {:induction false} ViewsPartition(s: seq<Task>)
    ensures |Visible(s, Active)| + |Visible(s, Completed)| == |Visible(s, All)|
    ensures multiset(Visible(s, Active)) + multiset(Visible(s, Completed)) == multiset(s)
    ensures forall t :: !(t in Visible(s, Active) && t in Visible(s, Completed))
  {
    KeepSplits(s, IsOpen, IsDone);
  }

  /** The number `updateCounters` shows: tasks not yet completed. */
  function ItemsLeft(s: seq<Task>): (n: nat)
    ensures n == |Visible(s, Active)|
    ensures n == |s| - |Visible(s, Completed)|
  {
    ViewsPartition(s);
    |Keep(s, IsOpen)|
  }

  // ---------------------------------------------------------------------
  // Invariants of the live list

  function Ids(s: seq<Task>): seq<string> {
    seq(|s|, i requires 0 <= i < |s| => s[i].id)
  }

  predicate DistinctIds(s: seq<Task>) {
    forall i, j :: 0 <= i < j < |s| ==> s[i].id != s[j].id
  }

  /** What the store keeps true: ids are unique and every title is
      non-empty and trimmed. */
  predicate WellFormed(s: seq<Task>) {
    DistinctIds(s) && forall i :: 0 <= i < |s| ==> s[i].title != [] && IsTrimmed(s[i].title)
  }

  /** Any filter of a well-formed list is well-formed. */
  lemma {:induction false} KeepWellFormed(s: seq<Task>, keep: Task -> bool)
    requires WellFormed(s)
    ensures WellFormed(Keep(s, keep))
  {
    var r := Keep(s, keep);
    forall i | 0 <= i < |r| ensures r[i].title != [] && IsTrimmed(r[i].title) {
      assert r[i] in r;
    }
    forall i, j | 0 <= i < j < |r| ensures r[i].id != r[j].id {
      assert r[i] in r && r[j] in r;
      var a :| 0 <= a < |s| && s[a] == r[i];
      var b :| 0 <= b < |s| && s[b] == r[j];
      if r[i].id == r[j].id {
        assert a == b;
        KeepNoRepeats(s, keep, i, j);
      }
    }
  }

  /** A filter of a list without repeated elements has none either. */
  lemma {:induction false} KeepNoRepeats(s: seq<Task>, keep: Task -> bool, i: nat, j: nat)
    requires DistinctIds(s)
    requires i < j < |Keep(s, keep)|
    ensures Keep(s, keep)[i] != Keep(s, keep)[j]
  {
    var r := Keep(s, keep);
    if keep(s[0]) {
      if i == 0 {
        assert r[j] in Keep(s[1..], keep);
        assert r[j] in s[1..];
        var b :| 0 <= b < |s| - 1 && s[1..][b] == r[j];
        assert s[b + 1].id != s[0].id;
      } else {
        DistinctTail(s);
        KeepNoRepeats(s[1..], keep, i - 1, j - 1);
      }
    } else {
      DistinctTail(s);
      KeepNoRepeats(s[1..], keep, i, j);
    }
  }

  /** A task whose id is new can go in front of a list of unique ids. */
  lemma PrependDistinct(x: Task, s: seq<Task>)
    requires DistinctIds(s)
    requires forall j :: 0 <= j < |s| ==> s[j].id != x.id
    ensures DistinctIds([x] + s)
  {
    var r := [x] + s;
    forall i, j | 0 <= i < j < |r| ensures r[i].id != r[j].id {
      assert r[j] == s[j - 1];
      if i > 0 { assert r[i] == s[i - 1]; }
    }
  }

  /** In a list of unique ids, no later task shares the first one's id. */
  lemma HeadIdUnique(s: seq<Task>)
    requires s != [] && DistinctIds(s)
    ensures forall t :: t in s[1..] ==> t.id != s[0].id
  {
    forall t | t in s[1..] ensures t.id != s[0].id {
      var b :| 0 <= b < |s| - 1 && s[1..][b] == t;
      assert s[b + 1] == t;
    }
  }

  lemma DistinctTail(s: seq<Task>)
    requires s != [] && DistinctIds(s)
    ensures DistinctIds(s[1..])
  {
    forall i, j | 0 <= i < j < |s| - 1 ensures s[1..][i].id != s[1..][j].id {
      assert s[1..][i] == s[i + 1] && s[1..][j] == s[j + 1];
    }
  }

  // ---------------------------------------------------------------------
  // Transitions of the list

  /** `addTask`: a blank title adds nothing; otherwise the trimmed title
      becomes a new open task in front of the unchanged old list. */
  function AddTask(s: seq<Task>, id: string, title: string): (r: seq<Task>)
    ensures IsBlank(title) ==> r == s
    ensures !IsBlank(title) ==> |r| == |s| + 1 && r[1..] == s
                                && r[0] == Task(id, Trim(title), false)
  {
    TrimEmptyIffBlank(title);
    var t := Trim(title);
    if t == [] then s else [Task(id, t, false)] + s
  }

  /** Adding with a fresh id keeps the list well-formed. */
  lemma {:induction false} AddWellFormed(s: seq<Task>, id: string, title: string)
    requires WellFormed(s) && id !in Ids(s)
    ensures WellFormed(AddTask(s, id, title))
  {
    if !IsBlank(title) {
      TrimEmptyIffBlank(title);
      var x := Task(id, Trim(title), false);
      forall j | 0 <= j < |s| ensures s[j].id != id {
        assert Ids(s)[j] == s[j].id;
      }
      PrependWellFormed(x, s);
    }
  }

  /** A task with a clean title and an id not in a well-formed list can
      go in front of it. */
  lemma PrependWellFormed(x: Task, s: seq<Task>)
    requires WellFormed(s) && x.title != [] && IsTrimmed(x.title)
    requires forall j :: 0 <= j < |s| ==> s[j].id != x.id
    ensures WellFormed([x] + s)
  {
    var r := [x] + s;
    PrependDistinct(x, s);
    forall i | 0 <= i < |r| ensures r[i].title != [] && IsTrimmed(r[i].title) {
      if i > 0 { assert r[i] == s[i - 1]; }
    }
  }

  /** Filtering a list with a task in front: the task is kept or dropped
      and the rest is filtered. */
  lemma KeepCons(x: Task, s: seq<Task>, keep: Task -> bool)
    ensures Keep([x] + s, keep) == if keep(x) then [x] + Keep(s, keep) else Keep(s, keep)
  {
    assert ([x] + s)[1..] == s;
  }

  /** The delete button: every task with that id goes, the rest stay in
      their order; an id that is not there changes nothing. */
  function DeleteTask(s: seq<Task>, id: string): (r: seq<Task>)
    ensures forall t {:trigger t in r} :: t in r <==> t in s && t.id != id
    ensures id !in Ids(s) ==> r == s
  {
    var keep := (t: Task) => t.id != id;
    if id !in Ids(s) then
      forall i | 0 <= i < |s| ensures keep(s[i]) {
        assert Ids(s)[i] == s[i].id;
      }
      KeepEverything(s, keep);
      Keep(s, keep)
    else Keep(s, keep)
  }

  /** With unique ids, deleting the id of position `k` removes exactly
      that position. */
  lemma {:induction false} DeleteAt(s: seq<Task>, k: nat)
    requires DistinctIds(s) && k < |s|
    ensures DeleteTask(s, s[k].id) == s[..k] + s[k + 1..]
  {
    var id := s[k].id;
    var keep := (t: Task) => t.id != id;
    assert Ids(s)[k] == id;
    assert DeleteTask(s, id) == Keep(s, keep);
    var before, after := s[..k], s[k + 1..];
    assert s == before + ([s[k]] + after);
    KeepAppend(before, [s[k]] + after, keep);
    KeepAppend([s[k]], after, keep);
    assert Keep([s[k]], keep) == [] by { KeepNothing([s[k]], keep); }
    KeepEverything(before, keep);
    forall i | 0 <= i < |after| ensures keep(after[i]) {
      assert after[i] == s[k + 1 + i];
    }
    KeepEverything(after, keep);
  }

  /** A task that is added is open, so the counter goes up by one. */
  lemma {:induction false} AddCounter(s: seq<Task>, id: string, title: string)
    ensures ItemsLeft(AddTask(s, id, title)) == ItemsLeft(s) + if IsBlank(title) then 0 else 1
  {
    if !IsBlank(title) {
      TrimEmptyIffBlank(title);
      KeepCons(Task(id, Trim(title), false), s, IsOpen);
    }
  }

  /** Deleting the id just added undoes the add. */
  lemma {:induction false} DeleteUndoesAdd(s: seq<Task>, id: string, title: string)
    requires id !in Ids(s)
    ensures DeleteTask(AddTask(s, id, title), id) == s
  {
    if !IsBlank(title) {
      TrimEmptyIffBlank(title);
      var r := AddTask(s, id, title);
      var keep := (t: Task) => t.id != id;
      assert r == [Task(id, Trim(title), false)] + s;
      assert Ids(r)[0] == id;
      assert DeleteTask(r, id) == Keep(r, keep);
      KeepCons(r[0], s, keep);
      assert Keep(r, keep) == Keep(s, keep);
      assert DeleteTask(s, id) == Keep(s, keep);
    }
  }

  /** Replaces the task with id `id` by `change` of it and leaves every
      other task, and every position, as it was. */
  function UpdateTask(s: seq<Task>, id: string, change: Task -> Task): (r: seq<Task>)
    ensures |r| == |s|
    ensures forall i :: 0 <= i < |s| && s[i].id != id ==> r[i] == s[i]
    ensures forall i :: 0 <= i < |s| && s[i].id == id ==> r[i] == change(s[i])
  {
    if s == [] then []
    else [if s[0].id == id then change(s[0]) else s[0]] + UpdateTask(s[1..], id, change)
  }

  /** The checkbox handler: `task.completed = checked`. */
  function SetCompleted(s: seq<Task>, id: string, checked: bool): (r: seq<Task>)
    ensures Ids(r) == Ids(s)
    ensures forall i :: 0 <= i < |s| ==> r[i].title == s[i].title
    ensures forall i :: 0 <= i < |s| ==> r[i].completed == if s[i].id == id then checked else s[i].completed
    ensures id !in Ids(s) ==> r == s
  {
    var r := UpdateTask(s, id, (t: Task) => t.(completed := checked));
    if id !in Ids(s) then
      forall i | 0 <= i < |s| ensures r[i] == s[i] {
        assert Ids(s)[i] == s[i].id;
      }
      r
    else r
  }

  /** Clicking a checkbox twice (on, then off again, or the reverse)
      restores the list. */
  lemma {:induction false} ToggleTwice(s: seq<Task>, k: nat)
    requires DistinctIds(s) && k < |s|
    ensures SetCompleted(SetCompleted(s, s[k].id, !s[k].completed), s[k].id, s[k].completed) == s
  {
    var id := s[k].id;
    var r := SetCompleted(SetCompleted(s, id, !s[k].completed), id, s[k].completed);
    forall i | 0 <= i < |s| ensures r[i] == s[i] {
      assert Ids(r)[i] == Ids(s)[i];
    }
  }

  /** With unique ids, ticking the id of position `k` changes position
      `k` alone. */
  lemma {:induction false} SetCompletedAt(s: seq<Task>, k: nat, checked: bool)
    requires DistinctIds(s) && k < |s|
    ensures SetCompleted(s, s[k].id, checked) == s[k := s[k].(completed := checked)]
  {
    var r := SetCompleted(s, s[k].id, checked);
    forall i | 0 <= i < |s| ensures r[i] == s[k := s[k].(completed := checked)][i] {
      assert Ids(r)[i] == Ids(s)[i];
    }
  }

  /** The open tasks of a list, counted around position `k`. */
  lemma OpenAround(s: seq<Task>, k: nat)
    requires k < |s|
    ensures ItemsLeft(s) == ItemsLeft(s[..k]) + (if s[k].completed then 0 else 1) + ItemsLeft(s[k + 1..])
  {
    assert s == s[..k] + ([s[k]] + s[k + 1..]);
    KeepAppend(s[..k], [s[k]] + s[k + 1..], IsOpen);
    KeepAppend([s[k]], s[k + 1..], IsOpen);
    KeepCons(s[k], [], IsOpen);
    assert [s[k]] + [] == [s[k]];
  }

  /** Ticking an open task lowers the counter by one, unticking a done
      one raises it by one, and setting the state it already has leaves
      the counter alone. */
  lemma {:induction false} SetCompletedCounter(s: seq<Task>, k: nat, checked: bool)
    requires DistinctIds(s) && k < |s|
    ensures ItemsLeft(SetCompleted(s, s[k].id, checked))
            == ItemsLeft(s) - (if s[k].completed then 0 else 1) + (if checked then 0 else 1)
  {
    var r := s[k := s[k].(completed := checked)];
    SetCompletedAt(s, k, checked);
    OpenAround(s, k);
    OpenAround(r, k);
    assert r[..k] == s[..k] && r[k + 1..] == s[k + 1..];
  }

  /** Ticking keeps the list well-formed. */
  lemma {:induction false} SetCompletedWellFormed(s: seq<Task>, id: string, checked: bool)
    requires WellFormed(s)
    ensures WellFormed(SetCompleted(s, id, checked))
  {
    var r := SetCompleted(s, id, checked);
    forall i, j | 0 <= i < j < |r| ensures r[i].id != r[j].id {
      assert Ids(r)[i] == Ids(s)[i] && Ids(r)[j] == Ids(s)[j];
    }
  }

  /** `finish(commit)` of the inline editor: a cancelled edit changes
      nothing; a committed one keeps the trimmed text as the title, and a
      blank one deletes the task. */
  function FinishEdit(s: seq<Task>, id: string, value: string, commit: bool): (r: seq<Task>)
    ensures !commit ==> r == s
    ensures commit && IsBlank(value) ==> r == DeleteTask(s, id)
    ensures commit && !IsBlank(value) ==>
              Ids(r) == Ids(s)
              && (forall i :: 0 <= i < |s| ==> r[i].completed == s[i].completed)
              && (forall i :: 0 <= i < |s| ==> r[i].title == if s[i].id == id then Trim(value) else s[i].title)
  {
    TrimEmptyIffBlank(value);
    if !commit then s
    else
      var v := Trim(value);
      if v != [] then UpdateTask(s, id, (t: Task) => t.(title := v))
      else DeleteTask(s, id)
  }

  /** A committed non-blank edit of position `k` rewrites that one title
      and nothing else; a blank one removes that one position. */
  lemma {:induction false} FinishEditAt(s: seq<Task>, k: nat, value: string)
    requires DistinctIds(s) && k < |s|
    ensures !IsBlank(value) ==> FinishEdit(s, s[k].id, value, true) == s[k := s[k].(title := Trim(value))]
    ensures IsBlank(value) ==> FinishEdit(s, s[k].id, value, true) == s[..k] + s[k + 1..]
  {
    if IsBlank(value) {
      DeleteAt(s, k);
    } else {
      RetitleAt(s, k, value);
    }
  }

  lemma RetitleAt(s: seq<Task>, k: nat, value: string)
    requires DistinctIds(s) && k < |s| && !IsBlank(value)
    ensures FinishEdit(s, s[k].id, value, true) == s[k := s[k].(title := Trim(value))]
  {
    var id, v := s[k].id, Trim(value);
    TrimEmptyIffBlank(value);
    var r := UpdateTask(s, id, (t: Task) => t.(title := v));
    assert FinishEdit(s, id, value, true) == r;
    forall i | 0 <= i < |s| ensures r[i] == s[k := s[k].(title := v)][i] {
      if i != k { assert s[i].id != id; }
    }
  }

  /** Any finished edit keeps the list well-formed. */
  lemma {:induction false} FinishEditWellFormed(s: seq<Task>, id: string, value: string, commit: bool)
    requires WellFormed(s)
    ensures WellFormed(FinishEdit(s, id, value, commit))
  {
    var r := FinishEdit(s, id, value, commit);
    if commit {
      if IsBlank(value) {
        KeepWellFormed(s, (t: Task) => t.id != id);
      } else {
        TrimEmptyIffBlank(value);
        forall i, j | 0 <= i < j < |r| ensures r[i].id != r[j].id {
          assert Ids(r)[i] == Ids(s)[i] && Ids(r)[j] == Ids(s)[j];
        }
      }
    }
  }

  /** Committing the same text twice leaves the list as one commit does.
      In a browser that fires `blur` when `render()` removes the focused
      edit field, Enter followed by that blur commits twice, and the second
      commit changes nothing. */
  lemma {:induction false} FinishTwice(s: seq<Task>, id: string, value: string)
    ensures FinishEdit(FinishEdit(s, id, value, true), id, value, true) == FinishEdit(s, id, value, true)
  {
    var r := FinishEdit(s, id, value, true);
    if IsBlank(value) {
      assert r == DeleteTask(s, id);
      forall i | 0 <= i < |r| ensures Ids(r)[i] != id {
        assert r[i] in r;
      }
      assert id !in Ids(r);
    } else {
      var r2 := FinishEdit(r, id, value, true);
      assert |Ids(r2)| == |Ids(r)| == |Ids(s)|;
      forall i | 0 <= i < |r| ensures r2[i] == r[i] {
        assert Ids(r2)[i] == Ids(r)[i] && Ids(r)[i] == Ids(s)[i];
      }
    }
  }

  /** How an inline edit ends: the Enter key, the Escape key, or the edit
      field losing focus. */
  datatype EditEnd = EnterKey | EscapeKey | FocusLost

  /** The list after an edit ends, as the editor's listeners are wired, in
      a browser that fires `blur` when `render()` removes the focused edit
      field. Enter and Escape call `finish` with true and false; the
      `render()` inside that call removes the field, whose blur listener
      then calls `finish(true)` with the text still in it. Losing focus
      calls `finish(true)` once. Every ending, Escape included, commits. */
  function EditAsWritten(s: seq<Task>, id: string, value: string, e: EditEnd): (r: seq<Task>)
    ensures r == FinishEdit(s, id, value, true)
  {
    FinishTwice(s, id, value);
    match e
    case EnterKey => FinishEdit(FinishEdit(s, id, value, true), id, value, true)
    case EscapeKey => FinishEdit(FinishEdit(s, id, value, false), id, value, true)
    case FocusLost => FinishEdit(s, id, value, true)
  }

  /** The ending of an edit as intended: Escape leaves the list as it was,
      and Enter or a loss of focus commits the text once. */
  function EditOnce(s: seq<Task>, id: string, value: string, e: EditEnd): (r: seq<Task>)
    ensures e == EscapeKey ==> r == s
    ensures e != EscapeKey ==> r == FinishEdit(s, id, value, true)
  {
    FinishEdit(s, id, value, e != EscapeKey)
  }

  /** As written, Escape on a task whose title differs from the trimmed
      text, or with blank text, changes the list, where the intended
      ending leaves it alone. */
  lemma {:induction false} EscapeChangesList(s: seq<Task>, k: nat, value: string)
    requires k < |s| && (IsBlank(value) || Trim(value) != s[k].title)
    ensures EditAsWritten(s, s[k].id, value, EscapeKey) != EditOnce(s, s[k].id, value, EscapeKey)
  {
    var r := EditAsWritten(s, s[k].id, value, EscapeKey);
    if IsBlank(value) {
      assert s[k] in s && s[k] !in r;
    } else {
      assert r[k].title == Trim(value);
    }
  }

  /** Editing "Buy milk" into "Buy bread" and pressing Escape keeps
      "Buy bread" as written; the intended ending keeps "Buy milk". */
  lemma EscapeExample()
    ensures EditAsWritten([Task("1", "Buy milk", false)], "1", "Buy bread", EscapeKey)
            == [Task("1", "Buy bread", false)]
    ensures EditOnce([Task("1", "Buy milk", false)], "1", "Buy bread", EscapeKey)
            == [Task("1", "Buy milk", false)]
  {
    var s := [Task("1", "Buy milk", false)];
    assert IsTrimmed("Buy bread") by { assert "Buy bread"[8] == 'd'; }
    TrimTrimmed("Buy bread");
    assert !IsBlank("Buy bread") by { assert !IsSpace("Buy bread"[0]); }
    var r := EditAsWritten(s, "1", "Buy bread", EscapeKey);
    assert |Ids(r)| == 1 && Ids(r)[0] == "1";
  }

  /** `tasks.some(t => t.completed)`. */
  predicate AnyCompleted(s: seq<Task>) {
    exists i :: 0 <= i < |s| && s[i].completed
  }

  /** The clear-completed button's filter: the open tasks, in order. */
  function ClearCompleted(s: seq<Task>): (r: seq<Task>)
    ensures forall t {:trigger t in r} :: t in r <==> t in s && !t.completed
    ensures !AnyCompleted(s) ==> r == s
  {
    if !AnyCompleted(s) then
      KeepEverything(s, IsOpen);
      Keep(s, IsOpen)
    else Keep(s, IsOpen)
  }

  /** Clearing twice is clearing once, clearing leaves the items-left
      counter as it was, and the result is the active view. */
  lemma {:induction false} ClearCompletedIdempotent(s: seq<Task>)
    ensures ClearCompleted(ClearCompleted(s)) == ClearCompleted(s)
    ensures ClearCompleted(s) == Visible(s, Active)
    ensures ItemsLeft(ClearCompleted(s)) == ItemsLeft(s) == |ClearCompleted(s)|
  {
    var r := ClearCompleted(s);
    forall i | 0 <= i < |r| ensures IsOpen(r[i]) {
      assert r[i] in r;
    }
    KeepEverything(r, IsOpen);
  }

  /** Every filtered list the page produces keeps its tasks in store
      order: each view, the list after a delete, and the list after
      clearing the completed tasks. */
  lemma {:induction false} FiltersKeepOrder(s: seq<Task>, f: Filter, id: string)
    ensures IsSubsequence(Visible(s, f), s)
    ensures IsSubsequence(DeleteTask(s, id), s)
    ensures IsSubsequence(ClearCompleted(s), s)
  {
    match f {
      case All => SubsequenceOfItself(s);
      case Active => KeepSubsequence(s, IsOpen);
      case Completed => KeepSubsequence(s, IsDone);
    }
    KeepSubsequence(s, (t: Task) => t.id != id);
    KeepSubsequence(s, IsOpen);
  }
}
