/**
 * Client code driving `TodoApp` through the interactions the app's
 * behaviour is described by; each assertion follows from the handlers'
 * contracts alone.
 */
module Scenarios {
  import opened Wrappers
  import opened JsString
  import opened TodoList
  import opened App

  /** Adding "Buy milk" with an empty description stores the sentinel. */
  method AddWithoutDescription() {
    assert !AllWhitespace("Buy milk") by { assert !IsWhitespace("Buy milk"[0]); }
    assert StoredDesc(Some("")) == Sentinel;
    var app := new TodoApp();
    app.HandleTitleChange("Buy milk");
    app.HandleDescChange("");
    var ok := app.HandleAddTodo("1");
    assert ok;
    assert app.todos == [Todo("1", "Buy milk", "None")];
    assert app.input == EmptyDraft;
  }

  /** A whitespace-only title is refused and the draft is kept for correction. */
  method BlankTitleRefused() {
    var app := new TodoApp();
    app.HandleTitleChange(" \t");
    app.HandleDescChange("milk");
    assert !AllWhitespace("milk") by { assert !IsWhitespace("milk"[0]); }
    var ok := app.HandleAddTodo("1");
    assert !ok;
    assert app.todos == [];
    assert app.input == Draft(Some(" \t"), Some("milk"));
  }

  /** Two records added one after the other both land, in order. */
  method AddTwo(app: TodoApp)
    requires app.todos == [] && app.input == EmptyDraft && !app.isEditing
    modifies app
  {
    assert !AllWhitespace("A") by { assert !IsWhitespace("A"[0]); }
    assert !AllWhitespace("B") by { assert !IsWhitespace("B"[0]); }
    assert StoredDesc(Some("")) == Sentinel;
    app.HandleTitleChange("A");
    var ok := app.HandleAddTodo("1");
    assert app.todos == [Todo("1", "A", "None")];
    app.HandleTitleChange("B");
    ok := app.HandleAddTodo("2");
    assert app.todos == [Todo("1", "A", "None")] + [Todo("2", "B", "None")];
  }

  /**
   * Editing a record whose description is the sentinel, retitling it "B"
   * and submitting: same id, same position, sentinel description again.
   */
  method EditKeepsIdAndPosition(app: TodoApp, a: Todo)
    requires app.todos == [a] && a.desc == Sentinel
    modifies app
  {
    assert !AllWhitespace("B") by { assert !IsWhitespace("B"[0]); }
    app.HandleEditTodo(a.id, a);
    assert app.input == Draft(Some(a.title), None);
    app.HandleTitleChange("B");
    var ok := app.HandleAddTodo("2");
    UpdateByIdUnique([a], 0, "B", Sentinel);
    assert app.todos == [Todo(a.id, "B", Sentinel)];
    assert !app.isEditing && app.editingId == None;
  }

  /** Deleting the record under edit ends the edit and keeps the other record. */
  method DeleteWhileEditing(app: TodoApp, a: Todo, b: Todo)
    requires app.todos == [a, b] && a.id != b.id
    modifies app
  {
    app.HandleEditTodo(a.id, a);
    RemoveByIdUnique([a, b], 0);
    app.HandleDeleteTodo(a.id);
    assert !app.isEditing && app.editingId == Some(a.id);
    assert app.todos == [b];
  }
}
