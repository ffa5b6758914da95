/** What the two form handlers of the Home page do to the component's state,
    as functions from the state before to the state after: createTodo (the
    list and the two inputs of the new-task form) and updateTodo (the list
    and the three fields of the edit form). */
module Handlers {
  import opened Strings
  import opened TodoList

  datatype Option<T> = None | Some(value: T)

  /** createTodo on (todos, title, description): either nothing changes,
      or one record is appended after the untouched old ones and both inputs
      are cleared. Which of the two, and the record appended, are stated by
      the lemmas below. */
  function CreateStep(todos: seq<Todo>, title: string, description: string, now: int, nowIso: string)
    : (r: (seq<Todo>, string, string))
    ensures |todos| <= |r.0| <= |todos| + 1 && r.0[..|todos|] == todos
    ensures r == (todos, title, description) || (|r.0| == |todos| + 1 && r.1 == [] && r.2 == [])
  {
    if Trim(title) == [] then (todos, title, description)
    else (todos + [NewTodo(now, title, description, nowIso)], [], [])
  }

  /** updateTodo(id) on (todos, editingId, editTitle, editDescription):
      the list keeps its length and every record with another id, and
      either nothing changes or the edit form is closed and emptied. */
  function UpdateStep(todos: seq<Todo>, editingId: Option<int>, editTitle: string, editDescription: string, id: int)
    : (r: (seq<Todo>, Option<int>, string, string))
    ensures |r.0| == |todos|
    ensures forall i :: 0 <= i < |todos| && todos[i].id != id ==> r.0[i] == todos[i]
    ensures r == (todos, editingId, editTitle, editDescription) || (r.1 == None && r.2 == [] && r.3 == [])
  {
    if Trim(editTitle) == [] then (todos, editingId, editTitle, editDescription)
    else (Edited(todos, id, Trim(editTitle), Trim(editDescription)), None, [], [])
  }

  /** A title that is empty or all white space makes create do nothing:
      the list and both inputs are left as they were. */
  lemma CreateBlankIsNoOp(todos: seq<Todo>, title: string, description: string, now: int, nowIso: string)
    requires Blank(title)
    ensures CreateStep(todos, title, description, now, nowIso) == (todos, title, description)
  {
  }

  /** An edit title that is empty or all white space makes update do
      nothing: the list is unchanged and the edit form stays open with the
      same texts. */
  lemma UpdateBlankIsNoOp(todos: seq<Todo>, editingId: Option<int>, editTitle: string, editDescription: string, id: int)
    requires Blank(editTitle)
    ensures UpdateStep(todos, editingId, editTitle, editDescription, id) == (todos, editingId, editTitle, editDescription)
  {
  }

  /** A successful create appends exactly one record after the untouched
      old ones: it has the trimmed title and description, is not completed,
      carries the given id and time, and is well formed; both inputs are
      cleared. */
  lemma CreateAppends(todos: seq<Todo>, title: string, description: string, now: int, nowIso: string)
    requires !Blank(title)
    ensures CreateStep(todos, title, description, now, nowIso).1 == []
    ensures CreateStep(todos, title, description, now, nowIso).2 == []
    ensures var r := CreateStep(todos, title, description, now, nowIso).0;
      && |r| == |todos| + 1
      && r[..|todos|] == todos
      && r[|todos|] == Todo(now, Trim(title), Trim(description), false, nowIso)
      && WellFormed(r[|todos|])
  {
    var r := CreateStep(todos, title, description, now, nowIso).0;
    assert r[..|todos|] == todos;
  }

  /** Create keeps every record well formed, and keeps the ids distinct when
      the clock reading is not already an id. */
  lemma CreateKeepsInvariants(todos: seq<Todo>, title: string, description: string, now: int, nowIso: string)
    ensures var r := CreateStep(todos, title, description, now, nowIso).0;
      && (AllWellFormed(todos) ==> AllWellFormed(r))
      && (UniqueIds(todos) && (forall x :: x in todos ==> x.id != now) ==> UniqueIds(r))
  {
    if !Blank(title) {
      var t := NewTodo(now, title, description, nowIso);
      assert CreateStep(todos, title, description, now, nowIso).0 == todos + [t];
      if AllWellFormed(todos) {
        AppendKeepsWellFormed(todos, t);
      }
      if UniqueIds(todos) && forall x :: x in todos ==> x.id != now {
        AppendKeepsUnique(todos, t);
      }
    }
  }

  /** A successful update keeps the length, the order, and every field but
      title and description; the matching records get the trimmed edit
      texts, and the edit form is closed and emptied. */
  lemma UpdateEffect(todos: seq<Todo>, editingId: Option<int>, editTitle: string, editDescription: string, id: int)
    requires !Blank(editTitle)
    ensures var (r, eid, et, ed) := UpdateStep(todos, editingId, editTitle, editDescription, id);
      && |r| == |todos|
      && (forall i :: 0 <= i < |todos| ==>
            r[i].id == todos[i].id && r[i].completed == todos[i].completed && r[i].createdAt == todos[i].createdAt)
      && (forall i :: 0 <= i < |todos| && todos[i].id == id ==>
            r[i].title == Trim(editTitle) && r[i].description == Trim(editDescription) && WellFormed(r[i]))
      && (forall i :: 0 <= i < |todos| && todos[i].id != id ==> r[i] == todos[i])
      && eid == None && et == [] && ed == []
  {
    var r := UpdateStep(todos, editingId, editTitle, editDescription, id).0;
    assert r == Edited(todos, id, Trim(editTitle), Trim(editDescription));
  }

  /** Update keeps every record well formed and the ids distinct. */
  lemma UpdateKeepsInvariants(todos: seq<Todo>, editingId: Option<int>, editTitle: string, editDescription: string, id: int)
    ensures var r := UpdateStep(todos, editingId, editTitle, editDescription, id).0;
      && (AllWellFormed(todos) ==> AllWellFormed(r))
      && (UniqueIds(todos) ==> UniqueIds(r))
  {
    if !Blank(editTitle) {
      var newTitle, newDescription := Trim(editTitle), Trim(editDescription);
      assert UpdateStep(todos, editingId, editTitle, editDescription, id).0 == Edited(todos, id, newTitle, newDescription);
      if AllWellFormed(todos) {
        EditKeepsWellFormed(todos, id, newTitle, newDescription);
      }
      if UniqueIds(todos) {
        EditKeepsUnique(todos, id, newTitle, newDescription);
      }
    }
  }

  /** Creating from an empty list with already trimmed texts gives the
      one open record holding exactly those texts, and clears the inputs. */
  lemma CreateFirst(title: string, description: string, now: int, nowIso: string)
    requires title != [] && Trimmed(title) && Trimmed(description)
    ensures CreateStep([], title, description, now, nowIso) == ([Todo(now, title, description, false, nowIso)], [], [])
  {
    assert !Blank(title) by { assert !IsWhiteSpace(title[0]); }
    TrimOfTrimmed(title);
    TrimOfTrimmed(description);
    CreateAppends([], title, description, now, nowIso);
    var c := CreateStep([], title, description, now, nowIso);
    assert c.0 == [c.0[0]];
  }

  /** A completed task shows on the completed tab and not on the to-do tab
      when nothing is searched for. */
  lemma CompletedShowsOnCompletedTab(t: Todo)
    requires t.completed
    ensures FilteredTodos([t], Completed, []) == [t] && FilteredTodos([t], ToDo, []) == []
  {
    EmptySearchIsTabOnly([t], Completed);
    EmptySearchIsTabOnly([t], ToDo);
  }

  /** Renaming the only task with a trimmed title and an empty description
      changes those two texts and nothing else. */
  lemma RenameOnly(t: Todo, newTitle: string)
    requires newTitle != [] && Trimmed(newTitle)
    ensures UpdateStep([t], Some(t.id), newTitle, [], t.id).0 == [t.(title := newTitle, description := [])]
  {
    assert !IsWhiteSpace(newTitle[0]);
    TrimOfTrimmed(newTitle);
    TrimOfTrimmed([]);
  }

  /** The end-to-end run of one task: created from already trimmed texts,
      completed (it moves from the to-do tab to the completed tab), renamed
      (it stays completed), deleted (the list is empty again). */
  lemma OneTaskLifecycle(title: string, description: string, newTitle: string, now: int, nowIso: string)
    requires title != [] && Trimmed(title) && Trimmed(description)
    requires newTitle != [] && Trimmed(newTitle)
    ensures CreateStep([], title, description, now, nowIso).0 == [Todo(now, title, description, false, nowIso)]
    ensures Toggled([Todo(now, title, description, false, nowIso)], now) == [Todo(now, title, description, true, nowIso)]
    ensures FilteredTodos([Todo(now, title, description, true, nowIso)], Completed, []) == [Todo(now, title, description, true, nowIso)]
    ensures FilteredTodos([Todo(now, title, description, true, nowIso)], ToDo, []) == []
    ensures UpdateStep([Todo(now, title, description, true, nowIso)], Some(now), newTitle, [], now).0
      == [Todo(now, newTitle, [], true, nowIso)]
    ensures Without([Todo(now, newTitle, [], true, nowIso)], now) == []
  {
    CreateFirst(title, description, now, nowIso);
    var t1 := Todo(now, title, description, true, nowIso);
    var s2 := Toggled([Todo(now, title, description, false, nowIso)], now);
    assert s2[0] == t1;
    assert s2 == [t1];
    CompletedShowsOnCompletedTab(t1);
    RenameOnly(t1, newTitle);
  }
}
