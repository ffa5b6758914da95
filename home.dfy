/** The Home page component: its state variables as the fields of a class,
    its event handlers as methods that update them, and the derived visible
    list. Every handler that changes the list also writes it to local
    storage, which the field `stored` stands for. */
module HomePage {
  import opened Strings
  import opened TodoList
  import opened Handlers

  class Home {
    var todos: seq<Todo>
    var title: string
    var description: string
    var activeTab: Tab
    var searchTerm: string
    /** The id of the record being edited; `None` is the source's `null`. */
    var editingId: Option<int>
    var editTitle: string
    var editDescription: string
    /** The list as last written to local storage under the key "todos". */
    var stored: seq<Todo>

    /** Local storage mirrors the in-memory list after every handler. The
        handlers that change the list require and ensure it; the others
        (the input setters, startEditing, cancelEditing) keep it because
        their frames leave `todos` and `stored` alone. */
    ghost predicate Valid()
      reads this
    {
      stored == todos
    }

    /** Mounting the page: every field starts at its initial value and the
        list is loaded from what local storage held, if anything. */
    constructor (saved: Option<seq<Todo>>)
      ensures Valid()
      ensures todos == (if saved.Some? then saved.value else [])
      ensures title == [] && description == [] && activeTab == ToDo && searchTerm == []
      ensures editingId == None && editTitle == [] && editDescription == []
    {
      todos := if saved.Some? then saved.value else [];
      title, description := [], [];
      activeTab, searchTerm := ToDo, [];
      editingId, editTitle, editDescription := None, [], [];
      stored := if saved.Some? then saved.value else [];
    }

    /** The title input's change handler. */
    method SetTitle(value: string)
      modifies this`title
      ensures title == value
    {
      title := value;
    }

    /** The description input's change handler. */
    method SetDescription(value: string)
      modifies this`description
      ensures description == value
    {
      description := value;
    }

    /** The search box's change handler. */
    method SetSearchTerm(value: string)
      modifies this`searchTerm
      ensures searchTerm == value
    {
      searchTerm := value;
    }

    /** The two tab buttons. */
    method SetActiveTab(tab: Tab)
      modifies this`activeTab
      ensures activeTab == tab
    {
      activeTab := tab;
    }

    /** The edit form's title input. */
    method SetEditTitle(value: string)
      modifies this`editTitle
      ensures editTitle == value
    {
      editTitle := value;
    }

    /** The edit form's description input. */
    method SetEditDescription(value: string)
      modifies this`editDescription
      ensures editDescription == value
    {
      editDescription := value;
    }

    /** createTodo: with a blank title nothing happens; otherwise a record
        made of the trimmed inputs, not completed, with the id and time of
        the clock reading `now`/`nowIso`, is appended and both inputs are
        cleared. */
    method CreateTodo(now: int, nowIso: string)
      requires Valid()
      modifies this`todos, this`stored, this`title, this`description
      ensures Valid()
      ensures (todos, title, description) == CreateStep(old(todos), old(title), old(description), now, nowIso)
    {
      if Trim(title) == [] {
        return;
      }
      var newTodo := NewTodo(now, title, description, nowIso);
      todos := todos + [newTodo];
      stored := todos;
      title := [];
      description := [];
    }

    /** updateTodo: with a blank edit title nothing happens (the edit stays
        open); otherwise the records with the id get the trimmed edit texts
        and the edit state is cleared. */
    method UpdateTodo(id: int)
      requires Valid()
      modifies this`todos, this`stored, this`editingId, this`editTitle, this`editDescription
      ensures Valid()
      ensures (todos, editingId, editTitle, editDescription)
        == UpdateStep(old(todos), old(editingId), old(editTitle), old(editDescription), id)
    {
      if Trim(editTitle) == [] {
        return;
      }
      todos := Edited(todos, id, Trim(editTitle), Trim(editDescription));
      stored := todos;
      editingId := None;
      editTitle := [];
      editDescription := [];
    }

    /** deleteTodo: the records with the id are removed. */
    method DeleteTodo(id: int)
      requires Valid()
      modifies this`todos, this`stored
      ensures Valid()
      ensures todos == Without(old(todos), id)
    {
      todos := Without(todos, id);
      stored := todos;
    }

    /** toggleComplete: the records with the id change completion. */
    method ToggleComplete(id: int)
      requires Valid()
      modifies this`todos, this`stored
      ensures Valid()
      ensures todos == Toggled(old(todos), id)
    {
      todos := Toggled(todos, id);
      stored := todos;
    }

    /** startEditing: the edit form opens on the record with its texts. */
    method StartEditing(todo: Todo)
      modifies this`editingId, this`editTitle, this`editDescription
      ensures editingId == Some(todo.id) && editTitle == todo.title && editDescription == todo.description
    {
      editingId := Some(todo.id);
      editTitle := todo.title;
      editDescription := todo.description;
    }

    /** cancelEditing: the edit form closes and its buffers empty; the list
        is left alone. */
    method CancelEditing()
      modifies this`editingId, this`editTitle, this`editDescription
      ensures editingId == None && editTitle == [] && editDescription == []
    {
      editingId := None;
      editTitle := [];
      editDescription := [];
    }

    /** filteredTodos: the records on the active tab matching the search. */
    function Visible(): (r: seq<Todo>)
      reads this
      ensures |r| <= |todos|
      ensures forall x :: x in r <==> x in todos && MatchesTab(x, activeTab) && MatchesSearch(x, searchTerm)
    {
      FilteredTodos(todos, activeTab, searchTerm)
    }
  }
}
