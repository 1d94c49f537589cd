/**
 * Task records, the input draft, and the pure list transforms that the
 * handlers of App.js apply to the task list.
 */
module TodoList {
  import opened Wrappers
  import opened JsString

  /** Record ids are the decimal text of a creation timestamp. */
  type Id = string

  datatype Todo = Todo(id: Id, title: string, desc: string)

  /** The text being typed; either field may be `undefined`. */
  datatype Draft = Draft(title: Option<string>, desc: Option<string>)

  /** The description stored when the user gave none. */
  const Sentinel: string := "None"

  /** The draft after every successful submission: `{ title: '', desc: '' }`. */
  const EmptyDraft: Draft := Draft(Some(""), Some(""))

  predicate HasId(todos: seq<Todo>, id: Id) {
    exists i :: 0 <= i < |todos| && todos[i].id == id
  }

  /** No two records share an id. */
  predicate DistinctIds(todos: seq<Todo>) {
    forall i, j :: 0 <= i < j < |todos| ==> todos[i].id != todos[j].id
  }

  /** Every record carries a description, the sentinel standing for "none". */
  predicate DescsFilled(todos: seq<Todo>) {
    forall i :: 0 <= i < |todos| ==> !IsBlank(Some(todos[i].desc))
  }

  /**
   * The description a submission stores: the draft's text, or the sentinel
   * when the draft's description is absent or blank. What is stored is never
   * blank.
   */
  function StoredDesc(desc: Option<string>): (r: string)
    ensures !IsBlank(Some(r))
    ensures IsBlank(desc) ==> r == Sentinel
    ensures !IsBlank(desc) ==> desc == Some(r)
  {
    assert !AllWhitespace(Sentinel) by { assert !IsWhitespace(Sentinel[0]); }
    if IsBlank(desc) then Sentinel else desc.value
  }

  /**
   * The draft loaded when the user asks to edit `todo`: its title, and its
   * description unless that is the sentinel, which the user never sees.
   */
  function DraftOf(todo: Todo): (d: Draft)
    ensures d.title == Some(todo.title)
    ensures d.desc != Some(Sentinel)
    ensures todo.desc == Sentinel ==> d.desc == None
    ensures todo.desc != Sentinel ==> d.desc == Some(todo.desc)
  {
    if todo.desc == Sentinel then Draft(Some(todo.title), None)
    else Draft(Some(todo.title), Some(todo.desc))
  }

  /**
   * Starting an edit and submitting it untouched stores the record's own
   * description again, the sentinel included.
   */
  lemma EditRoundTrip(todo: Todo)
    requires !IsBlank(Some(todo.desc))
    ensures StoredDesc(DraftOf(todo).desc) == todo.desc
  {
    if todo.desc == Sentinel {
      assert DraftOf(todo).desc == None;
    }
  }

  /**
   * The list with every record whose id is `id` given the new title and
   * description; each record keeps its id and its position, and every
   * other record is left as it was.
   */
  function UpdateById(todos: seq<Todo>, id: Id, title: string, desc: string): (r: seq<Todo>)
    ensures |r| == |todos|
    ensures forall i :: 0 <= i < |todos| ==> r[i].id == todos[i].id
    ensures forall i :: 0 <= i < |todos| && todos[i].id == id ==>
              r[i].title == title && r[i].desc == desc
    ensures forall i :: 0 <= i < |todos| && todos[i].id != id ==> r[i] == todos[i]
  {
    if todos == [] then []
    else
      var head := if todos[0].id == id then Todo(id, title, desc) else todos[0];
      [head] + UpdateById(todos[1..], id, title, desc)
  }

  /** Updating keeps the ids, so distinct ids stay distinct. */
  lemma UpdateByIdKeepsDistinct(todos: seq<Todo>, id: Id, title: string, desc: string)
    requires DistinctIds(todos)
    ensures DistinctIds(UpdateById(todos, id, title, desc))
  {
    var r := UpdateById(todos, id, title, desc);
    forall i, j | 0 <= i < j < |r| ensures r[i].id != r[j].id {
      assert r[i].id == todos[i].id && r[j].id == todos[j].id;
    }
  }

  /** An update whose description is not blank keeps every description filled. */
  lemma UpdateByIdKeepsDescsFilled(todos: seq<Todo>, id: Id, title: string, desc: string)
    requires DescsFilled(todos) && !IsBlank(Some(desc))
    ensures DescsFilled(UpdateById(todos, id, title, desc))
  {
    var r := UpdateById(todos, id, title, desc);
    forall i | 0 <= i < |r| ensures !IsBlank(Some(r[i].desc)) {
      if todos[i].id == id { assert r[i].desc == desc; } else { assert r[i] == todos[i]; }
    }
  }

  /** When no record has the id, the update leaves the list as it was. */
  lemma UpdateByIdAbsent(todos: seq<Todo>, id: Id, title: string, desc: string)
    requires !HasId(todos, id)
    ensures UpdateById(todos, id, title, desc) == todos
  {
    var r := UpdateById(todos, id, title, desc);
    forall i | 0 <= i < |todos| ensures r[i] == todos[i] {
      assert todos[i].id != id;
    }
  }

  /**
   * With distinct ids, updating the record at position `k` replaces exactly
   * that element, keeping its id.
   */
  lemma UpdateByIdUnique(todos: seq<Todo>, k: nat, title: string, desc: string)
    requires DistinctIds(todos) && k < |todos|
    ensures UpdateById(todos, todos[k].id, title, desc)
              == todos[k := Todo(todos[k].id, title, desc)]
  {
    var id := todos[k].id;
    var r := UpdateById(todos, id, title, desc);
    var expected := todos[k := Todo(id, title, desc)];
    forall i | 0 <= i < |todos| ensures r[i] == expected[i] {
      if i != k {
        assert todos[i].id != id by {
          if i < k { assert todos[i].id != todos[k].id; }
          else { assert todos[k].id != todos[i].id; }
        }
      }
    }
  }

  /** The list without the records whose id is `id`. */
  function RemoveById(todos: seq<Todo>, id: Id): (r: seq<Todo>)
    ensures |r| <= |todos|
    ensures forall i :: 0 <= i < |r| ==> r[i].id != id
  {
    if todos == [] then []
    else if todos[0].id == id then RemoveById(todos[1..], id)
    else [todos[0]] + RemoveById(todos[1..], id)
  }

  /**
   * Every survivor was in the list, and every record with another id
   * survives.
   */
  lemma {:induction false} RemoveByIdMembers(todos: seq<Todo>, id: Id, t: Todo)
    ensures t in RemoveById(todos, id) <==> t in todos && t.id != id
  {
    if todos != [] {
      RemoveByIdMembers(todos[1..], id, t);
      assert todos == [todos[0]] + todos[1..];
    }
  }

  /** Removing from a concatenation removes from each part: survivors keep their order. */
  lemma {:induction false} RemoveByIdAppend(a: seq<Todo>, b: seq<Todo>, id: Id)
    ensures RemoveById(a + b, id) == RemoveById(a, id) + RemoveById(b, id)
  {
    if a == [] {
      assert a + b == b;
    } else {
      assert (a + b)[1..] == a[1..] + b;
      RemoveByIdAppend(a[1..], b, id);
    }
  }

  /** Removing an id that no record has leaves the list as it was. */
  lemma {:induction false} RemoveByIdAbsent(todos: seq<Todo>, id: Id)
    requires !HasId(todos, id)
    ensures RemoveById(todos, id) == todos
  {
    if todos != [] {
      var tail := todos[1..];
      forall i | 0 <= i < |tail| ensures tail[i].id != id {
        assert tail[i] == todos[i + 1];
      }
      RemoveByIdAbsent(tail, id);
    }
  }

  /**
   * With distinct ids, removing the id of the record at position `k`
   * removes exactly that record and keeps the others in order.
   */
  lemma {:induction false} RemoveByIdUnique(todos: seq<Todo>, k: nat)
    requires DistinctIds(todos) && k < |todos|
    ensures RemoveById(todos, todos[k].id) == todos[..k] + todos[k + 1..]
  {
    var id, tail := todos[k].id, todos[1..];
    OnlyAtPosition(todos, k);
    if k == 0 {
      RemoveByIdAbsent(tail, id);
      assert todos[..0] + todos[1..] == tail;
    } else {
      assert todos[0].id != id by { assert todos[..k][0] == todos[0]; }
      DistinctTail(todos);
      assert tail[k - 1] == todos[k];
      RemoveByIdUnique(tail, k - 1);
      assert RemoveById(todos, id) == [todos[0]] + (tail[..k - 1] + tail[k..]);
      assert tail[..k - 1] == todos[1..k] && tail[k..] == todos[k + 1..];
      assert [todos[0]] + todos[1..k] == todos[..k];
    }
  }

  lemma DistinctTail(todos: seq<Todo>)
    requires DistinctIds(todos) && todos != []
    ensures DistinctIds(todos[1..])
  {
    var tail := todos[1..];
    forall i, j | 0 <= i < j < |tail| ensures tail[i].id != tail[j].id {
      assert tail[i] == todos[i + 1] && tail[j] == todos[j + 1];
    }
  }

  /** With distinct ids, the id of the record at position `k` occurs nowhere else. */
  lemma OnlyAtPosition(todos: seq<Todo>, k: nat)
    requires DistinctIds(todos) && k < |todos|
    ensures !HasId(todos[..k], todos[k].id) && !HasId(todos[k + 1..], todos[k].id)
  {
    var before, after := todos[..k], todos[k + 1..];
    forall i | 0 <= i < |before| ensures before[i].id != todos[k].id {
      assert before[i] == todos[i];
    }
    forall i | 0 <= i < |after| ensures after[i].id != todos[k].id {
      assert after[i] == todos[k + 1 + i];
    }
  }

  /** Removal never changes a survivor, so distinct ids stay distinct. */
  lemma {:induction false} RemoveByIdKeepsDistinct(todos: seq<Todo>, id: Id)
    requires DistinctIds(todos)
    ensures DistinctIds(RemoveById(todos, id))
  {
    if todos != [] {
      var tail := todos[1..];
      var rest := RemoveById(tail, id);
      DistinctTail(todos);
      RemoveByIdKeepsDistinct(tail, id);
      if todos[0].id != id {
        forall t | t in rest ensures t.id != todos[0].id {
          RemoveByIdMembers(tail, id, t);
          var j :| 0 <= j < |tail| && tail[j] == t;
          assert todos[0].id != todos[j + 1].id;
        }
        var r := [todos[0]] + rest;
        forall i, j | 0 <= i < j < |r| ensures r[i].id != r[j].id {
          if i == 0 { assert r[j] == rest[j - 1] && rest[j - 1] in rest; }
          else { assert r[i] == rest[i - 1] && r[j] == rest[j - 1]; }
        }
      }
    }
  }

  /** Removal never changes a survivor, so descriptions stay filled. */
  lemma {:induction false} RemoveByIdKeepsDescsFilled(todos: seq<Todo>, id: Id)
    requires DescsFilled(todos)
    ensures DescsFilled(RemoveById(todos, id))
  {
    if todos != [] {
      var tail := todos[1..];
      assert DescsFilled(tail) by {
        forall i | 0 <= i < |tail| ensures !IsBlank(Some(tail[i].desc)) {
          assert tail[i] == todos[i + 1];
        }
      }
      RemoveByIdKeepsDescsFilled(tail, id);
      var rest := RemoveById(tail, id);
      if todos[0].id != id {
        var r := [todos[0]] + rest;
        forall i | 0 < i < |r| ensures !IsBlank(Some(r[i].desc)) {
          assert r[i] == rest[i - 1];
        }
      }
    }
  }

  /**
   * Appending a record with a new id and a filled description keeps ids
   * distinct and descriptions filled.
   */
  lemma AppendKeepsConsistent(todos: seq<Todo>, t: Todo)
    requires DistinctIds(todos) && DescsFilled(todos)
    requires !HasId(todos, t.id) && !IsBlank(Some(t.desc))
    ensures DistinctIds(todos + [t]) && DescsFilled(todos + [t])
  {
    var r := todos + [t];
    forall i, j | 0 <= i < j < |r| ensures r[i].id != r[j].id {
      if j == |todos| { assert r[i] == todos[i]; }
    }
    forall i | 0 <= i < |r| ensures !IsBlank(Some(r[i].desc)) {
      if i < |todos| { assert r[i] == todos[i]; }
    }
  }
}
