/**
 * The task-list screen of App.js: four pieces of component state and the
 * handlers that move it from one configuration to the next. Each method
 * describes the state once the handler's setters have taken effect.
 */
module App {
  import opened Wrappers
  import opened JsString
  import opened TodoList

  /** JavaScript truthiness of a stored string: absent and `''` are falsy. */
  predicate Truthy(stored: Option<string>) {
    stored.Some? && stored.value != ""
  }

  class TodoApp {
    var todos: seq<Todo>
    var input: Draft
    var isEditing: bool
    var editingId: Option<Id>

    /**
     * The invariants the handlers keep: ids are distinct, every stored
     * description is filled, and an active edit names a record in the list.
     */
    ghost predicate Consistent()
      reads this
    {
      DistinctIds(todos) && DescsFilled(todos) &&
      (isEditing ==> editingId.Some? && HasId(todos, editingId.value))
    }

    /** The initial `useState` values. */
    constructor ()
      ensures todos == [] && input == EmptyDraft && !isEditing && editingId == None
      ensures Consistent()
    {
      todos := [];
      input := EmptyDraft;
      isEditing := false;
      editingId := None;
    }

    /**
     * `fetchTodos`: `stored` is what storage holds under the key `todos`,
     * `parsed` the list `JSON.parse` makes of it. A missing or empty stored
     * value leaves an empty list.
     */
    method FetchTodos(stored: Option<string>, parsed: seq<Todo>)
      modifies this
      ensures todos == (if Truthy(stored) then parsed else [])
      ensures input == old(input) && isEditing == old(isEditing) && editingId == old(editingId)
      ensures (!isEditing && (Truthy(stored) ==> DistinctIds(parsed) && DescsFilled(parsed)))
                ==> Consistent()
    {
      if Truthy(stored) {
        todos := parsed;
      } else {
        todos := [];
      }
    }

    /** `handleTitleChange`: replaces the draft's title, nothing else. */
    method HandleTitleChange(text: string)
      modifies this
      ensures input == Draft(Some(text), old(input).desc)
      ensures todos == old(todos) && isEditing == old(isEditing) && editingId == old(editingId)
      ensures old(Consistent()) ==> Consistent()
    {
      input := input.(title := Some(text));
    }

    /** `handleDescChange`: replaces the draft's description, nothing else. */
    method HandleDescChange(text: string)
      modifies this
      ensures input == Draft(old(input).title, Some(text))
      ensures todos == old(todos) && isEditing == old(isEditing) && editingId == old(editingId)
      ensures old(Consistent()) ==> Consistent()
    {
      input := input.(desc := Some(text));
    }

    /**
     * `handleAddTodo`, with `newId` standing for `Date.now().toString()`.
     * `accepted` is false exactly when the title is absent or blank: the
     * error alert is shown and no state changes. Otherwise, when editing,
     * the record being edited gets the draft's title and description (the
     * sentinel if blank) in place and the edit ends; when not editing, one
     * record is appended. Either way the draft is emptied.
     */
    method HandleAddTodo(newId: Id) returns (accepted: bool)
      modifies this
      ensures accepted <==> !IsBlank(old(input).title)
      ensures !accepted ==>
                todos == old(todos) && input == old(input) &&
                isEditing == old(isEditing) && editingId == old(editingId)
      ensures accepted ==> input == EmptyDraft && !isEditing
      ensures accepted && !old(isEditing) ==>
                todos == old(todos) + [Todo(newId, old(input).title.value, StoredDesc(old(input).desc))] &&
                editingId == old(editingId)
      ensures accepted && old(isEditing) ==>
                editingId == None &&
                todos == (if old(editingId).Some?
                          then UpdateById(old(todos), old(editingId).value, old(input).title.value,
                                          StoredDesc(old(input).desc))
                          else old(todos))
      ensures old(Consistent()) && (!old(isEditing) ==> !HasId(old(todos), newId)) ==> Consistent()
    {
      if IsBlank(input.title) {
        accepted := false;
        return;
      }
      accepted := true;
      var title := input.title.value;
      // The draft's description, normalised in place at App.js:84 and
      // App.js:105 before the draft is replaced at App.js:109.
      var desc := input.desc;
      // Both list writes of the non-editing path extend this same snapshot,
      // so the later one is the one that takes effect.
      var snapshot := todos;
      if isEditing {
        if IsBlank(desc) {
          desc := Some(Sentinel);
        }
        assert desc == Some(StoredDesc(input.desc));
        if editingId.Some? {
          todos := UpdateById(snapshot, editingId.value, title, desc.value);
          if DistinctIds(snapshot) {
            UpdateByIdKeepsDistinct(snapshot, editingId.value, title, desc.value);
          }
          if DescsFilled(snapshot) {
            UpdateByIdKeepsDescsFilled(snapshot, editingId.value, title, desc.value);
          }
        }
        isEditing := false;
        editingId := None;
      } else if !IsBlank(desc) {
        todos := snapshot + [Todo(newId, title, desc.value)];
      }
      if IsBlank(desc) {
        desc := Some(Sentinel);
        todos := snapshot + [Todo(newId, title, desc.value)];
      }
      assert desc == Some(StoredDesc(input.desc));
      if DistinctIds(snapshot) && DescsFilled(snapshot) && !old(isEditing) && !HasId(snapshot, newId) {
        AppendKeepsConsistent(snapshot, Todo(newId, title, desc.value));
      }
      input := EmptyDraft;
    }

    /**
     * `handleEditTodo`: loads `todo` into the draft (hiding the sentinel
     * description) and makes `id` the record being edited; the list is
     * untouched.
     */
    method HandleEditTodo(id: Id, todo: Todo)
      modifies this
      ensures todos == old(todos)
      ensures input == DraftOf(todo)
      ensures isEditing && editingId == Some(id)
      ensures old(DistinctIds(todos) && DescsFilled(todos)) && HasId(todos, id) ==> Consistent()
    {
      input := DraftOf(todo);
      isEditing := true;
      editingId := Some(id);
    }

    /**
     * `handleDeleteTodo`: drops every record with this id, survivors in
     * their order, and ends edit mode; `editingId` and the draft stay.
     */
    method HandleDeleteTodo(id: Id)
      modifies this
      ensures todos == RemoveById(old(todos), id)
      ensures !isEditing
      ensures editingId == old(editingId) && input == old(input)
      ensures old(Consistent()) ==> Consistent()
    {
      if DistinctIds(todos) {
        RemoveByIdKeepsDistinct(todos, id);
      }
      if DescsFilled(todos) {
        RemoveByIdKeepsDescsFilled(todos, id);
      }
      todos := RemoveById(todos, id);
      isEditing := false;
    }
  }
}
