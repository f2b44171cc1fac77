/** The `Todo` component: its state (the input text, the list, the edit
    target and the error flag), the browser's persisted copy of the list,
    and the event handlers that change them. Each handler runs as one
    atomic step. */
module Component {
  import opened Text
  import opened Tasks

  /** The notification a call to `addTodo` ends with. */
  datatype Notice = Rejected(reason: ValidationError) | Duplicate | Updated | Added

  class Todo {
    var todo: string                  // the input box
    var todos: seq<Task>              // the displayed list, in order
    var editId: int                   // the record being edited; 0 when adding
    var error: bool                   // the input was last refused by validation
    var stored: Option<seq<Task>>     // the "todos" slot of local storage, if written

    /** The persisted snapshot is the list: every mutation writes it, and
        an absent snapshot goes with the initial empty list. */
    predicate Synced()
      reads this
    {
      match stored
      case None => todos == []
      case Some(snapshot) => snapshot == todos
    }

    /** The initial state, followed by the mount effect, which loads the
        snapshot if local storage holds one. */
    constructor (storage: Option<seq<Task>>)
      ensures stored == storage
      ensures todos == (if storage.Some? then storage.value else [])
      ensures todo == "" && editId == 0 && !error
      ensures Synced()
    {
      todo, todos, editId, error, stored := "", [], 0, false, storage;
      new;
      LoadFromLocalStorage();
    }

    /** `loadFromLocalStorage`: replaces the list by the snapshot when there
        is one. Loading right after any mutation gives back the same list. */
    method LoadFromLocalStorage()
      modifies this`todos
      ensures todos == (if stored.Some? then stored.value else old(todos))
      ensures old(Synced()) ==> todos == old(todos) && Synced()
    {
      if stored.Some? {
        todos := stored.value;
      }
    }

    /** `saveToLocalStorage`: overwrites the snapshot with the given list. */
    method SaveToLocalStorage(list: seq<Task>)
      modifies this`stored
      ensures stored == Some(list)
    {
      stored := Some(list);
    }

    /** `changeValue`: the input follows the keyboard and the error clears. */
    method ChangeValue(value: string)
      modifies this`todo, this`error
      ensures todo == value && !error
    {
      todo := value;
      error := false;
    }

    /** `addTodo`: validates the trimmed input; then either edits the target
        record's text (no duplicate check) or appends a new record unless its
        text is already present ignoring case. Once validation has passed,
        the edit target must be in a non-empty list: the `map` callback reads
        the id of the record `find` returned, and that is `undefined` when
        the target is gone. An empty list never runs the callback. */
    method AddTodo(now: int) returns (notice: Notice)
      requires editId != 0 && CheckText(Trim(todo)).None? && todos != [] ==> HasId(todos, editId)
      modifies this
      // refused input: only the error flag changes, nothing is persisted
      ensures var trimmed := Trim(old(todo));
        CheckText(trimmed).Some? ==>
          notice == Rejected(CheckText(trimmed).value) && error &&
          todo == old(todo) && todos == old(todos) && editId == old(editId) && stored == old(stored)
      // edit path: only the target's text changes, and editing ends
      ensures var trimmed := Trim(old(todo));
        CheckText(trimmed).None? && old(editId) != 0 ==>
          notice == Updated && todos == Rename(old(todos), old(editId), trimmed) &&
          stored == Some(todos) && editId == 0 && todo == "" && error == old(error)
      // add path, duplicate: nothing changes, the error flag included
      ensures var trimmed := Trim(old(todo));
        CheckText(trimmed).None? && old(editId) == 0 && IsDuplicate(old(todos), trimmed) ==>
          notice == Duplicate && todo == old(todo) && todos == old(todos) &&
          editId == 0 && error == old(error) && stored == old(stored)
      // add path: one new, not completed record at the end
      ensures var trimmed := Trim(old(todo));
        CheckText(trimmed).None? && old(editId) == 0 && !IsDuplicate(old(todos), trimmed) ==>
          notice == Added && todos == old(todos) + [Task(trimmed, now, false)] &&
          stored == Some(todos) && editId == 0 && todo == "" && error == old(error)
      ensures old(Synced()) ==> Synced()
      ensures old(WellFormed(todos)) && !HasId(old(todos), now) ==> WellFormed(todos)
      ensures old(DistinctTexts(todos)) && old(editId) == 0 ==> DistinctTexts(todos)
    {
      var trimmed := Trim(todo);
      var invalid := CheckText(trimmed);
      if invalid.Some? {
        error := true;
        return Rejected(invalid.value);
      }
      TrimCore(todo);
      if editId != 0 {
        // `find` yields a record whose id is `editId`, so the map renames
        // the records with that id.
        var updated := Rename(todos, editId, trimmed);
        RenamePreserves(todos, editId, trimmed);
        todos := updated;
        SaveToLocalStorage(updated);
        editId := 0;
        todo := "";
        return Updated;
      }
      if IsDuplicate(todos, trimmed) {
        return Duplicate;
      }
      AppendPreserves(todos, trimmed, now);
      AppendPreservesDistinct(todos, trimmed, now);
      var newTodos := todos + [Task(trimmed, now, false)];
      todos := newTodos;
      SaveToLocalStorage(newTodos);
      todo := "";
      return Added;
    }

    /** `handleDelete`: keeps the records with another id, in order, and
        persists; an absent id leaves the list as it was. */
    method HandleDelete(id: int)
      modifies this`todos, this`stored
      ensures todos == RemoveId(old(todos), id) && stored == Some(todos)
      ensures !HasId(old(todos), id) ==> todos == old(todos)
      ensures old(WellFormed(todos)) ==> WellFormed(todos)
      ensures old(DistinctTexts(todos)) ==> DistinctTexts(todos)
    {
      var updatedTodos := RemoveId(todos, id);
      RemovePreserves(todos, id);
      if !HasId(todos, id) {
        RemoveAbsent(todos, id);
      }
      todos := updatedTodos;
      SaveToLocalStorage(updatedTodos);
    }

    /** `handleComplete`: flips the status of the records with that id and
        persists. */
    method HandleComplete(id: int)
      modifies this`todos, this`stored
      ensures todos == ToggleStatus(old(todos), id) && stored == Some(todos)
      ensures old(WellFormed(todos)) ==> WellFormed(todos)
      ensures old(DistinctTexts(todos)) ==> DistinctTexts(todos)
    {
      var complete := ToggleStatus(todos, id);
      TogglePreserves(todos, id);
      todos := complete;
      SaveToLocalStorage(complete);
    }

    /** `handleEdit`: loads the first record with that id into the input and
        makes it the edit target, replacing any earlier target. */
    method HandleEdit(id: int)
      requires HasId(todos, id)
      modifies this`todo, this`editId
      ensures editId == id
      ensures exists i :: 0 <= i < |todos| && todos[i].id == id && todo == todos[i].list &&
                           forall j :: 0 <= j < i ==> todos[j].id != id
    {
      var editTodo := Find(todos, id);
      todo := editTodo.value.list;
      editId := editTodo.value.id;
    }
  }

  /** Blank and too short entries are refused, nothing is added and
      nothing is persisted. */
  method RefusedEntries() {
    var c := new Todo(None);
    c.ChangeValue("  ");
    TrimEmptyIff("  ");
    var n := c.AddTodo(1);
    assert n == Rejected(EmptyText) && c.error && c.todos == [] && c.stored == None;

    c.ChangeValue("ab");
    TrimTrimmed("ab");
    n := c.AddTodo(1);
    assert n == Rejected(TooShort) && c.error && c.todos == [] && c.stored == None;
  }

  /** Adding "Buy milk" and then "buy milk" keeps one record. */
  method DuplicateEntry() {
    var c := new Todo(None);
    c.ChangeValue("Buy milk");
    TrimTrimmed("Buy milk");
    var n := c.AddTodo(1);
    assert n == Added && c.todos == [Task("Buy milk", 1, false)];

    c.ChangeValue("buy milk");
    TrimTrimmed("buy milk");
    EqualsIgnoreCaseStrict();
    n := c.AddTodo(2);
    assert n == Duplicate && c.todos == [Task("Buy milk", 1, false)] && !c.error;
  }

  /** A new record is added not completed, and completing it flips only
      its status. */
  method AddThenComplete() {
    var c := new Todo(None);
    c.ChangeValue("Write spec");
    TrimTrimmed("Write spec");
    var n := c.AddTodo(1);
    assert n == Added && c.todos == [Task("Write spec", 1, false)];
    c.HandleComplete(1);
    assert c.todos == [Task("Write spec", 1, true)] && c.stored == Some(c.todos);
  }

  /** Editing a restored, completed record changes its text and keeps its
      id and status. */
  method EditKeepsStatus() {
    var c := new Todo(Some([Task("Write spec", 1, true)]));
    assert c.todos[0].id == 1;
    c.HandleEdit(1);
    assert c.todo == "Write spec" && c.editId == 1;
    c.ChangeValue("Write design spec");
    TrimTrimmed("Write design spec");
    var n := c.AddTodo(2);
    assert n == Updated && c.editId == 0 && c.todo == "";
    assert c.todos == [Task("Write design spec", 1, true)];
  }

  /** Deleting a restored record empties the list; deleting it again
      changes nothing. */
  method DeleteTwice() {
    var c := new Todo(Some([Task("Write design spec", 1, true)]));
    c.HandleDelete(1);
    assert c.todos == [];
    c.HandleDelete(1);
    assert c.todos == [] && c.stored == Some([]);
  }

  /** Deleting the only record while it is being edited leaves `editId`
      pointing at nothing; a valid submission then takes the edit path over
      the empty list, persists it and ends editing. */
  method StaleEditTarget() {
    var c := new Todo(Some([Task("Write spec", 1, false)]));
    assert c.todos[0].id == 1;
    c.HandleEdit(1);
    c.HandleDelete(1);
    assert c.todos == [] && c.editId == 1;
    TrimTrimmed("Write spec");
    var n := c.AddTodo(2);
    assert n == Updated && c.todos == [] && c.stored == Some([]) && c.editId == 0;
  }

  /** Deleting the record being edited while another remains leaves a valid
      submission outside `AddTodo`'s precondition: there the source reads the
      id of the `undefined` that `find` returns. */
  method StaleEditTargetThrows() {
    var c := new Todo(Some([Task("Write spec", 1, false), Task("Read spec", 2, false)]));
    assert c.todos[0].id == 1;
    c.HandleEdit(1);
    c.HandleDelete(1);
    assert c.todos == [Task("Read spec", 2, false)];
    assert c.editId == 1 && !HasId(c.todos, 1);
    TrimTrimmed("Write spec");
    assert CheckText(Trim(c.todo)).None? && c.todos != [];
  }
}
