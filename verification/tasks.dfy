/**
  The progress tracker: an ordered list of task texts and the text box used
  to add to it. Adding appends the trimmed draft and empties the box; a
  delete button removes its own item.
 */
module Tasks {
  import opened Text

  /** The list on the page and the current contents of the new-task box. */
  datatype TaskEditor = TaskEditor(tasks: seq<string>, draft: string)

  /** Every item the page can hold is non-empty and already trimmed. */
  predicate WellFormedTasks(tasks: seq<string>) {
    forall k | 0 <= k < |tasks| :: tasks[k] != [] && IsTrimmed(tasks[k])
  }

  /** The add button (or Enter in the box). A blank draft is refused and
      nothing changes; otherwise the trimmed draft goes at the end, every
      earlier item keeps its place, and the box is emptied. */
  function AddTask(e: TaskEditor): (r: TaskEditor)
    ensures IsBlank(e.draft) ==> r == e
    ensures !IsBlank(e.draft) ==>
      && |r.tasks| == |e.tasks| + 1
      && r.tasks[..|e.tasks|] == e.tasks
      && r.tasks[|e.tasks|] == Trim(e.draft)
      && r.draft == ""
  {
    var text := Trim(e.draft);
    if text != "" then TaskEditor(e.tasks + [text], "") else e
  }

  /** Adding keeps the list well formed. */
  lemma AddTaskPreservesWellFormed(e: TaskEditor)
    requires WellFormedTasks(e.tasks)
    ensures WellFormedTasks(AddTask(e).tasks)
  {
    var r := AddTask(e);
    var n := |e.tasks|;
    if !IsBlank(e.draft) {
      forall k | 0 <= k < |r.tasks|
        ensures r.tasks[k] != [] && IsTrimmed(r.tasks[k])
      {
        if k < n {
          assert r.tasks[k] == r.tasks[..n][k] == e.tasks[k];
        } else {
          assert r.tasks[k] == Trim(e.draft);
        }
      }
    }
  }

  /** Removes the item at `i`; the others keep their relative order. */
  function DeleteTask(tasks: seq<string>, i: nat): (r: seq<string>)
    requires i < |tasks|
    ensures |r| == |tasks| - 1
    ensures forall k | 0 <= k < i :: r[k] == tasks[k]
    ensures forall k | i <= k < |r| :: r[k] == tasks[k + 1]
    ensures multiset(r) + multiset{tasks[i]} == multiset(tasks)
  {
    assert tasks == tasks[..i] + [tasks[i]] + tasks[i + 1..];
    tasks[..i] + tasks[i + 1..]
  }

  /** Deleting keeps the list well formed. */
  lemma DeleteTaskPreservesWellFormed(tasks: seq<string>, i: nat)
    requires i < |tasks| && WellFormedTasks(tasks)
    ensures WellFormedTasks(DeleteTask(tasks, i))
  {
    var r := DeleteTask(tasks, i);
    forall k | 0 <= k < |r|
      ensures r[k] != [] && IsTrimmed(r[k])
    {
      if k < i {
        assert r[k] == tasks[k];
      } else {
        assert r[k] == tasks[k + 1];
      }
    }
  }

  /** Deleting the item just added gives back the list from before. */
  lemma DeleteUndoesAdd(e: TaskEditor)
    requires !IsBlank(e.draft)
    ensures DeleteTask(AddTask(e).tasks, |e.tasks|) == e.tasks
  {
    var a := AddTask(e).tasks;
    var n := |e.tasks|;
    var r := DeleteTask(a, n);
    assert |r| == n;
    forall k | 0 <= k < n
      ensures r[k] == e.tasks[k]
    {
      assert r[k] == a[k] == a[..n][k];
    }
  }

  /** What was clicked inside the list. */
  datatype ClickTarget = DeleteButton(item: nat) | Elsewhere

  /** The list's delegated click handler: only a delete button acts, and it
      removes the item it belongs to. */
  function OnListClick(tasks: seq<string>, target: ClickTarget): (r: seq<string>)
    requires target.DeleteButton? ==> target.item < |tasks|
    ensures target.Elsewhere? ==> r == tasks
    ensures target.DeleteButton? ==> r == DeleteTask(tasks, target.item)
    ensures target.DeleteButton? ==>
      && |r| == |tasks| - 1
      && (forall k | 0 <= k < target.item :: r[k] == tasks[k])
      && (forall k | target.item <= k < |r| :: r[k] == tasks[k + 1])
      && multiset(r) + multiset{tasks[target.item]} == multiset(tasks)
  {
    match target
    case DeleteButton(i) => DeleteTask(tasks, i)
    case Elsewhere => tasks
  }

  /** A trimmed task such as "Write paper", added to an empty list, is the
      whole list; deleting it through its button empties the list again. */
  lemma AddToEmptyThenDelete(d: string)
    requires d != [] && IsTrimmed(d)
    ensures AddTask(TaskEditor([], d)).tasks == [d]
    ensures OnListClick(AddTask(TaskEditor([], d)).tasks, DeleteButton(0)) == []
  {
    TrimOfTrimmed(d);
    var r := AddTask(TaskEditor([], d));
    assert |r.tasks| == 1 && r.tasks[0] == d;
  }

  /** A blank draft is refused. */
  lemma BlankDraftRefused(tasks: seq<string>)
    ensures AddTask(TaskEditor(tasks, " \t")) == TaskEditor(tasks, " \t")
  {
  }
}
