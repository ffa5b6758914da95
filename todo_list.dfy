/** The to-do list of the Home page as a value: the record type, the list
    transformations its event handlers apply (`todos.map`, `todos.filter`,
    spread-append) and the filter behind the visible list and the tab
    counters. */
module TodoList {
  import opened Strings

  /** One to-do record. `id` is the `Date.now()` value read when the record
      was created, `createdAt` the ISO-8601 text of a second clock reading
      taken while the record is built. */
  datatype Todo = Todo(id: int, title: string, description: string, completed: bool, createdAt: string)

  /** The two tabs; `activeTab` is only ever set to 'todo' or 'completed'. */
  datatype Tab = ToDo | Completed

  // ---------------------------------------------------------------------
  // todos.filter

  /** `s.filter(keep)`: the records of `s` for which `keep` holds, in order. */
  function Keep(s: seq<Todo>, keep: Todo -> bool): (r: seq<Todo>)
    ensures |r| <= |s|
    ensures forall x :: x in r <==> x in s && keep(x)
  {
    if s == [] then []
    else
      assert s == [s[0]] + s[1..];
      if keep(s[0]) then [s[0]] + Keep(s[1..], keep) else Keep(s[1..], keep)
  }

  /** `idx` lists, in increasing order, exactly the positions of `s` where
      `keep` holds, and `r` holds the records at those positions. */
  ghost predicate SelectedBy(idx: seq<nat>, r: seq<Todo>, s: seq<Todo>, keep: Todo -> bool) {
    && |idx| == |r|
    && (forall k :: 0 <= k < |idx| ==> idx[k] < |s| && r[k] == s[idx[k]] && keep(s[idx[k]]))
    && (forall j, k :: 0 <= j < k < |idx| ==> idx[j] < idx[k])
    && (forall i :: 0 <= i < |s| && keep(s[i]) ==> i in idx)
  }

  /** `r` is the order-preserving subsequence of `s` made of exactly the
      records that satisfy `keep`. */
  ghost predicate IsSelection(r: seq<Todo>, s: seq<Todo>, keep: Todo -> bool) {
    exists idx :: SelectedBy(idx, r, s, keep)
  }

  /** Every position moved one place to the right. */
  function Shift(idx: seq<nat>): (r: seq<nat>)
    ensures |r| == |idx|
    ensures forall k :: 0 <= k < |idx| ==> r[k] == idx[k] + 1
  {
    seq(|idx|, k requires 0 <= k < |idx| => idx[k] + 1)
  }

  /** Position 0 followed by every position of `idx` moved one place right. */
  function ZeroThenShift(idx: seq<nat>): (r: seq<nat>)
    ensures |r| == |idx| + 1 && r[0] == 0
    ensures forall k :: 1 <= k <= |idx| ==> r[k] == idx[k - 1] + 1
  {
    seq(|idx| + 1, k requires 0 <= k <= |idx| => if k == 0 then 0 else idx[k - 1] + 1)
  }

  /** The selection of `[x] + tail` when `x` is kept. */
  lemma SelectKept(x: Todo, tail: seq<Todo>, r: seq<Todo>, idx: seq<nat>, keep: Todo -> bool)
    requires SelectedBy(idx, r, tail, keep) && keep(x)
    ensures SelectedBy(ZeroThenShift(idx), [x] + r, [x] + tail, keep)
  {
    SelectKeptPositions(x, tail, r, idx, keep);
    SelectKeptOrdered(idx);
    SelectKeptComplete(x, tail, r, idx, keep);
  }

  /** Each listed position of `[x] + tail` holds the matching record of `[x] + r`. */
  lemma SelectKeptPositions(x: Todo, tail: seq<Todo>, r: seq<Todo>, idx: seq<nat>, keep: Todo -> bool)
    requires SelectedBy(idx, r, tail, keep) && keep(x)
    ensures var idx', s, r' := ZeroThenShift(idx), [x] + tail, [x] + r;
      forall k :: 0 <= k < |idx'| ==> idx'[k] < |s| && r'[k] == s[idx'[k]] && keep(s[idx'[k]])
  {
    var s := [x] + tail;
    var idx' := ZeroThenShift(idx);
    var r' := [x] + r;
    forall k | 0 <= k < |idx'| ensures idx'[k] < |s| && r'[k] == s[idx'[k]] && keep(s[idx'[k]]) {
      if k > 0 {
        var j := k - 1;
        assert idx'[k] == idx[j] + 1;
        assert r'[k] == r[j] == tail[idx[j]];
        assert s[idx[j] + 1] == tail[idx[j]];
      }
    }
  }

  /** Prepending position 0 to shifted increasing positions keeps them increasing. */
  lemma SelectKeptOrdered(idx: seq<nat>)
    requires forall j, k :: 0 <= j < k < |idx| ==> idx[j] < idx[k]
    ensures var idx' := ZeroThenShift(idx); forall j, k :: 0 <= j < k < |idx'| ==> idx'[j] < idx'[k]
  {
    var idx' := ZeroThenShift(idx);
    forall j, k | 0 <= j < k < |idx'| ensures idx'[j] < idx'[k] {
      assert idx'[k] == idx[k - 1] + 1;
      if j > 0 { assert idx'[j] == idx[j - 1] + 1; }
    }
  }

  /** Every kept position of `[x] + tail` is listed. */
  lemma SelectKeptComplete(x: Todo, tail: seq<Todo>, r: seq<Todo>, idx: seq<nat>, keep: Todo -> bool)
    requires SelectedBy(idx, r, tail, keep) && keep(x)
    ensures var idx', s := ZeroThenShift(idx), [x] + tail;
      forall i :: 0 <= i < |s| && keep(s[i]) ==> i in idx'
  {
    var s := [x] + tail;
    var idx' := ZeroThenShift(idx);
    forall i | 0 <= i < |s| && keep(s[i]) ensures i in idx' {
      if i > 0 {
        assert tail[i - 1] == s[i];
        var k :| 0 <= k < |idx| && idx[k] == i - 1;
        assert idx'[k + 1] == i;
      }
    }
  }

  /** The selection of `[x] + tail` when `x` is left out. */
  lemma SelectDropped(x: Todo, tail: seq<Todo>, r: seq<Todo>, idx: seq<nat>, keep: Todo -> bool)
    requires SelectedBy(idx, r, tail, keep) && !keep(x)
    ensures SelectedBy(Shift(idx), r, [x] + tail, keep)
  {
    SelectDroppedPositions(x, tail, r, idx, keep);
    SelectDroppedComplete(x, tail, r, idx, keep);
  }

  /** Each shifted position of `[x] + tail` holds the matching record of `r`. */
  lemma SelectDroppedPositions(x: Todo, tail: seq<Todo>, r: seq<Todo>, idx: seq<nat>, keep: Todo -> bool)
    requires SelectedBy(idx, r, tail, keep)
    ensures var sh, s := Shift(idx), [x] + tail;
      forall k :: 0 <= k < |sh| ==> sh[k] < |s| && r[k] == s[sh[k]] && keep(s[sh[k]])
  {
    var s := [x] + tail;
    var sh := Shift(idx);
    forall k | 0 <= k < |sh| ensures sh[k] < |s| && r[k] == s[sh[k]] && keep(s[sh[k]]) {
      assert r[k] == tail[idx[k]];
      assert s[idx[k] + 1] == tail[idx[k]];
    }
  }

  /** Every kept position of `[x] + tail` is a shifted position. */
  lemma SelectDroppedComplete(x: Todo, tail: seq<Todo>, r: seq<Todo>, idx: seq<nat>, keep: Todo -> bool)
    requires SelectedBy(idx, r, tail, keep) && !keep(x)
    ensures var sh, s := Shift(idx), [x] + tail;
      forall i :: 0 <= i < |s| && keep(s[i]) ==> i in sh
  {
    var s := [x] + tail;
    var sh := Shift(idx);
    forall i | 0 <= i < |s| && keep(s[i]) ensures i in sh {
      assert i != 0;
      assert tail[i - 1] == s[i];
      var k :| 0 <= k < |idx| && idx[k] == i - 1;
      assert sh[k] == i;
    }
  }

  /** Filtering selects exactly the kept positions, in their original order. */
  lemma {:induction false} KeepSelects(s: seq<Todo>, keep: Todo -> bool)
    ensures IsSelection(Keep(s, keep), s, keep)
  {
    if s == [] {
      assert SelectedBy([], [], s, keep);
    } else {
      var tail := s[1..];
      assert s == [s[0]] + tail;
      KeepSelects(tail, keep);
      var idx :| SelectedBy(idx, Keep(tail, keep), tail, keep);
      if keep(s[0]) {
        SelectKept(s[0], tail, Keep(tail, keep), idx, keep);
        assert SelectedBy(ZeroThenShift(idx), Keep(s, keep), s, keep);
      } else {
        SelectDropped(s[0], tail, Keep(tail, keep), idx, keep);
      }
    }
  }

  /** Filtering a filtered list again with the same test changes nothing. */
  lemma {:induction false} KeepTwice(s: seq<Todo>, keep: Todo -> bool)
    ensures Keep(Keep(s, keep), keep) == Keep(s, keep)
  {
    if s != [] {
      KeepTwice(s[1..], keep);
    }
  }

  /** A filter that every record passes gives the list back unchanged. */
  lemma {:induction false} KeepAll(s: seq<Todo>, keep: Todo -> bool)
    requires forall x :: x in s ==> keep(x)
    ensures Keep(s, keep) == s
  {
    if s != [] {
      assert s[0] in s;
      assert forall x :: x in s[1..] ==> x in s;
      KeepAll(s[1..], keep);
    }
  }

  /** Two tests that agree on every record of `s` filter it alike. */
  lemma {:induction false} KeepAgree(s: seq<Todo>, p: Todo -> bool, q: Todo -> bool)
    requires forall x :: x in s ==> p(x) == q(x)
    ensures Keep(s, p) == Keep(s, q)
  {
    if s != [] {
      assert s[0] in s;
      assert forall x :: x in s[1..] ==> x in s;
      KeepAgree(s[1..], p, q);
    }
  }

  /** Filtering by a test and by its negation splits the list: the two
      results together are as long as the list. */
  lemma {:induction false} KeepComplement(s: seq<Todo>, p: Todo -> bool, q: Todo -> bool)
    requires forall x :: q(x) == !p(x)
    ensures |Keep(s, p)| + |Keep(s, q)| == |s|
  {
    if s != [] {
      KeepComplement(s[1..], p, q);
    }
  }

  /** The ids of a list are pairwise distinct. */
  predicate UniqueIds(s: seq<Todo>) {
    forall j, k :: 0 <= j < k < |s| ==> s[j].id != s[k].id
  }

  /** Filtering keeps the ids of a list pairwise distinct. */
  lemma KeepKeepsUnique(s: seq<Todo>, keep: Todo -> bool)
    requires UniqueIds(s)
    ensures UniqueIds(Keep(s, keep))
  {
    KeepSelects(s, keep);
    var idx :| SelectedBy(idx, Keep(s, keep), s, keep);
  }

  // ---------------------------------------------------------------------
  // todos.map(todo => todo.id === id ? f(todo) : todo)

  /** The records whose id is `id` replaced by `f` of themselves, the others
      kept, in place. */
  function UpdateMatching(s: seq<Todo>, id: int, f: Todo -> Todo): (r: seq<Todo>)
    ensures |r| == |s|
    ensures forall i :: 0 <= i < |s| && s[i].id == id ==> r[i] == f(s[i])
    ensures forall i :: 0 <= i < |s| && s[i].id != id ==> r[i] == s[i]
  {
    if s == [] then []
    else [if s[0].id == id then f(s[0]) else s[0]] + UpdateMatching(s[1..], id, f)
  }

  /** Where no record has the id, the update is the identity. */
  lemma UpdateMatchingAbsent(s: seq<Todo>, id: int, f: Todo -> Todo)
    requires forall x :: x in s ==> x.id != id
    ensures UpdateMatching(s, id, f) == s
  {
    var r := UpdateMatching(s, id, f);
    forall i | 0 <= i < |s| ensures r[i] == s[i] {
      assert s[i] in s;
    }
  }

  // ---------------------------------------------------------------------
  // The record operations of the handlers

  /** A record holds a non-empty title and both texts are already trimmed:
      what createTodo and updateTodo store. */
  predicate WellFormed(t: Todo) {
    t.title != [] && Trimmed(t.title) && Trimmed(t.description)
  }

  predicate AllWellFormed(s: seq<Todo>) {
    forall x :: x in s ==> WellFormed(x)
  }

  /** The record createTodo builds from the input fields. */
  function NewTodo(id: int, title: string, description: string, createdAt: string): (t: Todo)
    ensures t.id == id && t.createdAt == createdAt && !t.completed
    ensures !Blank(title) ==> WellFormed(t)
  {
    Todo(id, Trim(title), Trim(description), false, createdAt)
  }

  /** White space typed around the title makes no difference to the record
      created: "  Buy milk  " and "Buy milk" give the same record. */
  lemma NewTodoIgnoresPadding(id: int, pre: string, title: string, post: string, description: string, createdAt: string)
    requires Blank(pre) && Blank(post)
    ensures NewTodo(id, pre + title + post, description, createdAt) == NewTodo(id, title, description, createdAt)
  {
    TrimPaddedAny(pre, title, post);
  }

  /** The record change of updateTodo's map. */
  function EditFields(newTitle: string, newDescription: string): Todo -> Todo {
    (t: Todo) => t.(title := newTitle, description := newDescription)
  }

  /** The record change of toggleComplete's map. */
  const FlipCompleted: Todo -> Todo := (t: Todo) => t.(completed := !t.completed)

  /** updateTodo's map: title and description replaced on the records with
      the id; id, completion and creation time kept; the rest untouched. */
  function Edited(s: seq<Todo>, id: int, newTitle: string, newDescription: string): (r: seq<Todo>)
    ensures |r| == |s|
    ensures forall i :: 0 <= i < |s| ==>
      r[i].id == s[i].id && r[i].completed == s[i].completed && r[i].createdAt == s[i].createdAt
    ensures forall i :: 0 <= i < |s| && s[i].id == id ==>
      r[i].title == newTitle && r[i].description == newDescription
    ensures forall i :: 0 <= i < |s| && s[i].id != id ==> r[i] == s[i]
  {
    UpdateMatching(s, id, EditFields(newTitle, newDescription))
  }

  /** toggleComplete's map: `completed` negated on the records with the id,
      every other field and record untouched. */
  function Toggled(s: seq<Todo>, id: int): (r: seq<Todo>)
    ensures |r| == |s|
    ensures forall i :: 0 <= i < |s| ==>
      r[i].id == s[i].id && r[i].title == s[i].title &&
      r[i].description == s[i].description && r[i].createdAt == s[i].createdAt
    ensures forall i :: 0 <= i < |s| && s[i].id == id ==> r[i].completed == !s[i].completed
    ensures forall i :: 0 <= i < |s| && s[i].id != id ==> r[i] == s[i]
  {
    UpdateMatching(s, id, FlipCompleted)
  }

  /** The test deleteTodo filters by. */
  function IdDiffers(id: int): Todo -> bool {
    (t: Todo) => t.id != id
  }

  /** deleteTodo's filter: the records whose id is not `id`. */
  function Without(s: seq<Todo>, id: int): (r: seq<Todo>)
    ensures |r| <= |s|
    ensures forall x :: x in r <==> x in s && x.id != id
  {
    Keep(s, IdDiffers(id))
  }

  /** Toggling the same id twice restores the list. */
  lemma ToggleTwice(s: seq<Todo>, id: int)
    ensures Toggled(Toggled(s, id), id) == s
  {
    var r := Toggled(Toggled(s, id), id);
    forall i | 0 <= i < |s| ensures r[i] == s[i] {
    }
  }

  /** Deleting keeps, in order, exactly the records with another id. */
  lemma DeleteSelects(s: seq<Todo>, id: int)
    ensures IsSelection(Without(s, id), s, IdDiffers(id))
  {
    KeepSelects(s, IdDiffers(id));
  }

  /** Deleting an id no record carries leaves the list as it was. */
  lemma DeleteAbsent(s: seq<Todo>, id: int)
    requires forall x :: x in s ==> x.id != id
    ensures Without(s, id) == s
  {
    KeepAll(s, IdDiffers(id));
  }

  /** Deleting twice is deleting once. */
  lemma DeleteIdempotent(s: seq<Todo>, id: int)
    ensures Without(Without(s, id), id) == Without(s, id)
  {
    KeepTwice(s, IdDiffers(id));
  }

  /** After a delete, editing, toggling or deleting that id again changes
      nothing: a deleted record never comes back. */
  lemma DeleteIsTerminal(s: seq<Todo>, id: int, newTitle: string, newDescription: string)
    ensures var d := Without(s, id);
      Edited(d, id, newTitle, newDescription) == d && Toggled(d, id) == d && Without(d, id) == d
  {
    var d := Without(s, id);
    UpdateMatchingAbsent(d, id, EditFields(newTitle, newDescription));
    UpdateMatchingAbsent(d, id, FlipCompleted);
    DeleteAbsent(d, id);
  }

  /** Appending a record whose id no record carries keeps the ids distinct. */
  lemma AppendKeepsUnique(s: seq<Todo>, t: Todo)
    requires UniqueIds(s) && forall x :: x in s ==> x.id != t.id
    ensures UniqueIds(s + [t])
  {
    var r := s + [t];
    forall j, k | 0 <= j < k < |r| ensures r[j].id != r[k].id {
      if k == |s| { assert r[j] == s[j] && s[j] in s; }
    }
  }

  /** Editing keeps the ids distinct. */
  lemma EditKeepsUnique(s: seq<Todo>, id: int, newTitle: string, newDescription: string)
    requires UniqueIds(s)
    ensures UniqueIds(Edited(s, id, newTitle, newDescription))
  {
  }

  /** Toggling keeps the ids distinct. */
  lemma ToggleKeepsUnique(s: seq<Todo>, id: int)
    requires UniqueIds(s)
    ensures UniqueIds(Toggled(s, id))
  {
  }

  /** Deleting keeps the ids distinct. */
  lemma DeleteKeepsUnique(s: seq<Todo>, id: int)
    requires UniqueIds(s)
    ensures UniqueIds(Without(s, id))
  {
    KeepKeepsUnique(s, IdDiffers(id));
  }

  /** Appending a well-formed record keeps every record well formed. */
  lemma AppendKeepsWellFormed(s: seq<Todo>, t: Todo)
    requires AllWellFormed(s) && WellFormed(t)
    ensures AllWellFormed(s + [t])
  {
  }

  /** Editing with a non-empty title and texts that are already trimmed (as
      updateTodo's trimmed edit texts are) keeps every record well formed. */
  lemma EditKeepsWellFormed(s: seq<Todo>, id: int, newTitle: string, newDescription: string)
    requires AllWellFormed(s)
    requires newTitle != [] && Trimmed(newTitle) && Trimmed(newDescription)
    ensures AllWellFormed(Edited(s, id, newTitle, newDescription))
  {
    var r := Edited(s, id, newTitle, newDescription);
    forall x | x in r ensures WellFormed(x) {
      var i :| 0 <= i < |r| && r[i] == x;
      assert s[i] in s;
    }
  }

  /** Toggling keeps every record well formed. */
  lemma ToggleKeepsWellFormed(s: seq<Todo>, id: int)
    requires AllWellFormed(s)
    ensures AllWellFormed(Toggled(s, id))
  {
    var u := Toggled(s, id);
    forall x | x in u ensures WellFormed(x) {
      var i :| 0 <= i < |u| && u[i] == x;
      assert s[i] in s;
    }
  }

  /** Deleting keeps every record well formed. */
  lemma DeleteKeepsWellFormed(s: seq<Todo>, id: int)
    requires AllWellFormed(s)
    ensures AllWellFormed(Without(s, id))
  {
  }

  // ---------------------------------------------------------------------
  // filteredTodos and the tab counters

  /** The tab part of the filter: open records on the to-do tab, completed
      ones on the other. */
  predicate MatchesTab(t: Todo, tab: Tab)
    ensures MatchesTab(t, tab) <==> (t.completed <==> tab == Completed)
  {
    match tab
    case ToDo => !t.completed
    case Completed => t.completed
  }

  /** Every record is on exactly one of the two tabs. */
  lemma EachRecordOnOneTab(t: Todo)
    ensures MatchesTab(t, ToDo) != MatchesTab(t, Completed)
  {
  }

  /** The search part of the filter: the lower-cased title or description
      contains the lower-cased term. */
  predicate MatchesSearch(t: Todo, term: string)
    ensures term == [] ==> MatchesSearch(t, term)
    ensures MatchesSearch(t, term) ==> |term| <= |t.title| || |term| <= |t.description|
  {
    Includes(ToLower(t.title), ToLower(term)) || Includes(ToLower(t.description), ToLower(term))
  }

  function Shown(tab: Tab, term: string): Todo -> bool {
    (t: Todo) => MatchesTab(t, tab) && MatchesSearch(t, term)
  }

  function OnTab(tab: Tab): Todo -> bool {
    (t: Todo) => MatchesTab(t, tab)
  }

  /** The visible list: the records on the tab that match the search. */
  function FilteredTodos(s: seq<Todo>, tab: Tab, term: string): (r: seq<Todo>)
    ensures |r| <= |s|
    ensures forall x :: x in r <==> x in s && MatchesTab(x, tab) && MatchesSearch(x, term)
  {
    Keep(s, Shown(tab, term))
  }

  /** The visible list is the order-preserving subsequence of exactly the
      records on the tab that match the search. */
  lemma FilteredSelects(s: seq<Todo>, tab: Tab, term: string)
    ensures IsSelection(FilteredTodos(s, tab, term), s, Shown(tab, term))
  {
    KeepSelects(s, Shown(tab, term));
  }

  /** The search ignores case: a term and its lower-cased form select alike. */
  lemma SearchIgnoresCase(t: Todo, term: string)
    ensures MatchesSearch(t, term) == MatchesSearch(t, ToLower(term))
  {
    ToLowerIdempotent(term);
  }

  /** An empty search term leaves only the tab condition. */
  lemma EmptySearchIsTabOnly(s: seq<Todo>, tab: Tab)
    ensures FilteredTodos(s, tab, []) == Keep(s, OnTab(tab))
  {
    forall x | x in s ensures Shown(tab, [])(x) == OnTab(tab)(x) {
      IncludesEmpty(ToLower(x.title));
    }
    KeepAgree(s, Shown(tab, []), OnTab(tab));
  }

  /** The tests of the two counters. */
  const IsOpen: Todo -> bool := (t: Todo) => !t.completed
  const IsDone: Todo -> bool := (t: Todo) => t.completed

  /** The "To Do (n)" counter: `todos.filter(t => !t.completed).length`. */
  function ToDoCount(s: seq<Todo>): (n: nat)
    ensures n <= |s|
    ensures n == 0 <==> forall x :: x in s ==> x.completed
  {
    var open := Keep(s, IsOpen);
    assert open != [] ==> open[0] in open;
    |open|
  }

  /** The "Completed (n)" counter: `todos.filter(t => t.completed).length`. */
  function CompletedCount(s: seq<Todo>): (n: nat)
    ensures n <= |s|
    ensures n == 0 <==> forall x :: x in s ==> !x.completed
  {
    var done := Keep(s, IsDone);
    assert done != [] ==> done[0] in done;
    |done|
  }

  /** The two counters add up to the length of the list. */
  lemma CountsAddUp(s: seq<Todo>)
    ensures ToDoCount(s) + CompletedCount(s) == |s|
  {
    KeepComplement(s, IsOpen, IsDone);
  }

  /** With no search term, each tab shows as many records as its counter says. */
  lemma CounterMatchesTab(s: seq<Todo>)
    ensures |FilteredTodos(s, ToDo, [])| == ToDoCount(s)
    ensures |FilteredTodos(s, Completed, [])| == CompletedCount(s)
  {
    EmptySearchIsTabOnly(s, ToDo);
    EmptySearchIsTabOnly(s, Completed);
    KeepAgree(s, OnTab(ToDo), IsOpen);
    KeepAgree(s, OnTab(Completed), IsDone);
  }
}
