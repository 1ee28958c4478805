/**
 * The to-do app's controller (src/js/app.js, class `TodoApp`): the list of
 * records, the state machine, the list-mutating handlers and the dispatcher
 * `handleEvent` that drives the state machine around each of them.
 *
 * `Date.now()` is the parameter `freshId`; storage, the DOM and the console are
 * not modelled.
 */
module App {
  import opened JsString
  import opened Factories
  import opened StateMachine
  import opened TodoList

  /** The payload object passed to `handleEvent`; each handler reads the fields it needs. */
  datatype Payload = Payload(text: string, id: int, draggedId: int, dropTargetId: int)

  /**
   * The events the state machine receives during `handleEvent(event, p)`: the
   * event itself; then SUCCESS when the event is a command; and for FINISH_EDIT
   * with empty text, the nested DELETE_TODO dispatch with its own SUCCESS
   * before the outer SUCCESS.
   */
  function Trace(event: string, p: Payload): (r: seq<string>)
    ensures |r| >= 1 && r[0] == event
    ensures IsCommand(event) ==> |r| >= 2 && r[|r| - 1] == SUCCESS
    ensures !IsCommand(event) ==> r == [event]
  {
    if event == FINISH_EDIT && p.text == "" then [FINISH_EDIT, DELETE_TODO, SUCCESS, SUCCESS]
    else if IsCommand(event) then [event, SUCCESS]
    else [event]
  }

  /** The events a handler sends itself: only an empty FINISH_EDIT does, through its nested DELETE_TODO dispatch. */
  function Nested(event: string, p: Payload): (r: seq<string>)
    ensures r != [] ==> event == FINISH_EDIT && p.text == ""
    ensures r != [] ==> r[|r| - 1] == SUCCESS
  {
    if event == FINISH_EDIT && p.text == "" then [DELETE_TODO, SUCCESS] else []
  }

  /**
   * What `handleEvent` sends, in order: the event, the handler's own events, and
   * SUCCESS for a command; that is the trace.
   */
  lemma TraceShape(h: seq<string>, event: string, p: Payload)
    ensures IsCommand(event) ==> h + [event] + Nested(event, p) + [SUCCESS] == h + Trace(event, p)
    ensures !IsCommand(event) ==> h + [event] + Nested(event, p) == h + Trace(event, p)
  {
    if event == FINISH_EDIT && p.text == "" {
      assert [event] + Nested(event, p) + [SUCCESS] == Trace(event, p);
    } else if IsCommand(event) {
      assert [event] + Nested(event, p) + [SUCCESS] == Trace(event, p);
    }
  }

  /** The list after `handleEvent(event, p)`, with `freshId` standing for `Date.now()`. */
  function Dispatch(todos: seq<Todo>, event: string, p: Payload, freshId: int): (r: seq<Todo>)
    ensures !IsCommand(event) ==> r == todos
    ensures (event == EDIT_TODO || event == TOGGLE_TODO || event == REORDER_TODOS ||
             (event == FINISH_EDIT && p.text != "")) ==> |r| == |todos|
  {
    if event == ADD_TODO then Added(todos, p.text, freshId)
    else if event == EDIT_TODO then MarkEditing(todos, p.id)
    else if event == FINISH_EDIT then
      (if p.text == "" then WithoutId(todos, p.id) else FinishedEdit(todos, p.id, p.text))
    else if event == DELETE_TODO then WithoutId(todos, p.id)
    else if event == TOGGLE_TODO then Toggled(todos, p.id)
    else if event == CLEAR_COMPLETED then Uncompleted(todos)
    else if event == REORDER_TODOS then Reordered(todos, p.draggedId, p.dropTargetId)
    else todos
  }

  class TodoApp {
    var todos: seq<Todo>
    const stateMachine: TodoStateMachine

    ghost predicate Valid()
      reads this, stateMachine
    {
      stateMachine.Valid()
    }

    /** The list is what storage held (the empty list when nothing was stored); the machine starts idle. */
    constructor(stored: seq<Todo>)
      ensures Valid()
      ensures todos == stored
      ensures stateMachine.state == IDLE
      ensures stateMachine.history == []
      ensures fresh(stateMachine)
    {
      todos := stored;
      stateMachine := new TodoStateMachine();
    }

    /**
     * `handleEvent(event, payload)`: transition on the event, run the handler,
     * transition on SUCCESS; an unknown event is only logged, after its
     * transition attempt, and gets no SUCCESS.
     */
    method HandleEvent(event: string, p: Payload, freshId: int)
      requires Valid()
      modifies this, stateMachine
      ensures Valid()
      ensures todos == Dispatch(old(todos), event, p, freshId)
      ensures stateMachine.history == old(stateMachine.history) + Trace(event, p)
      ensures stateMachine.state == Run(old(stateMachine.state), Trace(event, p))
      ensures old(stateMachine.state) == IDLE ==> stateMachine.state == IDLE
      ensures UniqueIds(old(todos)) && (event == ADD_TODO ==> FreshId(old(todos), freshId)) ==>
                UniqueIds(todos)
      decreases if event == FINISH_EDIT then 2 else 0, 1
    {
      ghost var list0, h0 := todos, stateMachine.history;
      if UniqueIds(list0) && (event == ADD_TODO ==> FreshId(list0, freshId)) {
        DispatchKeepsUniqueIds(list0, event, p, freshId);
      }
      TraceShape(h0, event, p);
      var valid := stateMachine.Transition(event);
      var known := RunHandler(event, p, freshId);
      if known {
        valid := stateMachine.Transition(SUCCESS);
      }
      RunAppend(IDLE, h0, Trace(event, p));
      IdleAfterEveryEvent(event, p);
    }

    /**
     * The `switch` of `handleEvent`: runs the handler for a command and says
     * whether the event was one; only an empty FINISH_EDIT sends events of its
     * own (the nested DELETE_TODO dispatch).
     */
    method RunHandler(event: string, p: Payload, freshId: int) returns (known: bool)
      requires Valid()
      modifies this, stateMachine
      ensures Valid()
      ensures known <==> IsCommand(event)
      ensures todos == Dispatch(old(todos), event, p, freshId)
      ensures stateMachine.history == old(stateMachine.history) + Nested(event, p)
      decreases if event == FINISH_EDIT then 2 else 0, 0
    {
      EventNamesDistinct();
      known := true;
      if event == ADD_TODO {
        HandleAddTodo(p.text, freshId);
      } else if event == EDIT_TODO {
        HandleEditTodo(p.id);
      } else if event == FINISH_EDIT {
        HandleFinishEdit(p.id, p.text, freshId);
      } else if event == DELETE_TODO {
        HandleDeleteTodo(p.id);
      } else if event == TOGGLE_TODO {
        HandleToggleTodo(p.id);
      } else if event == CLEAR_COMPLETED {
        HandleClearCompleted();
      } else if event == REORDER_TODOS {
        HandleReorderTodos(p.draggedId, p.dropTargetId);
      } else {
        known := false;
      }
    }

    /** `handleAddTodo({ text })`: the list part (lines that push the new record). */
    method HandleAddTodo(text: string, freshId: int)
      modifies this
      ensures todos == Added(old(todos), text, freshId)
    {
      var trimmedText := Trim(text);
      if trimmedText == [] {
        return;
      }
      var todo := Stamp(freshId, TodoFactory(trimmedText));
      todos := todos + [todo];
    }

    /** `handleToggleTodo({ id })`. */
    method HandleToggleTodo(id: int)
      modifies this
      ensures todos == Toggled(old(todos), id)
    {
      todos := Toggled(todos, id);
    }

    /** `handleDeleteTodo({ id })`. */
    method HandleDeleteTodo(id: int)
      modifies this
      ensures todos == WithoutId(old(todos), id)
    {
      todos := WithoutId(todos, id);
    }

    /** `handleClearCompleted()`. */
    method HandleClearCompleted()
      modifies this
      ensures todos == Uncompleted(old(todos))
    {
      todos := Uncompleted(todos);
    }

    /**
     * `handleReorderTodos({ draggedId, dropTargetId })`: both indices are looked
     * up first; the dragged record is spliced out, then spliced in at the
     * target's original index.
     */
    method HandleReorderTodos(draggedId: int, dropTargetId: int)
      modifies this
      ensures todos == Reordered(old(todos), draggedId, dropTargetId)
    {
      var draggedIndex := FindIndex(todos, draggedId);
      var dropTargetIndex := FindIndex(todos, dropTargetId);
      if draggedIndex == -1 || dropTargetIndex == -1 {
        return;
      }
      var draggedTodo := todos[draggedIndex];
      todos := todos[..draggedIndex] + todos[draggedIndex + 1..];
      assert todos == RemoveAt(old(todos), draggedIndex);
      todos := todos[..dropTargetIndex] + [draggedTodo] + todos[dropTargetIndex..];
    }

    /** `handleEditTodo({ id })`: the list part. */
    method HandleEditTodo(id: int)
      modifies this
      ensures todos == MarkEditing(old(todos), id)
    {
      todos := MarkEditing(todos, id);
    }

    /**
     * `handleFinishEdit({ id, text })`: empty text dispatches DELETE_TODO for
     * the id through `handleEvent`; otherwise the record gets the new text.
     */
    method HandleFinishEdit(id: int, text: string, freshId: int)
      requires Valid()
      modifies this, stateMachine
      ensures Valid()
      ensures text == "" ==> todos == WithoutId(old(todos), id)
      ensures text == "" ==> stateMachine.state == Run(old(stateMachine.state), [DELETE_TODO, SUCCESS])
      ensures text == "" ==> stateMachine.history == old(stateMachine.history) + [DELETE_TODO, SUCCESS]
      ensures text != "" ==> todos == FinishedEdit(old(todos), id, text)
      ensures text != "" ==> stateMachine.state == old(stateMachine.state)
      ensures text != "" ==> stateMachine.history == old(stateMachine.history)
      decreases 1, 0
    {
      if text == "" {
        HandleEvent(DELETE_TODO, Payload("", id, 0, 0), freshId);
        return;
      }
      todos := FinishedEdit(todos, id, text);
    }
  }

  /** `Run` over a trace, one transition at a time, as `HandleEvent` performs them. */
  lemma TraceSteps(s: string, event: string, p: Payload)
    requires s in TRANSITIONS
    ensures event == FINISH_EDIT && p.text == "" ==>
              Run(s, Trace(event, p)) == Next(Run(Next(s, FINISH_EDIT), [DELETE_TODO, SUCCESS]), SUCCESS)
    ensures IsCommand(event) && !(event == FINISH_EDIT && p.text == "") ==>
              Run(s, Trace(event, p)) == Next(Next(s, event), SUCCESS)
    ensures !IsCommand(event) ==> Run(s, Trace(event, p)) == Next(s, event)
  {
    if event == FINISH_EDIT && p.text == "" {
      var s1 := Next(s, FINISH_EDIT);
      RunCons(s, FINISH_EDIT, [DELETE_TODO, SUCCESS, SUCCESS]);
      RunAppend(s1, [DELETE_TODO, SUCCESS], [SUCCESS]);
      RunCons(Run(s1, [DELETE_TODO, SUCCESS]), SUCCESS, []);
      assert [FINISH_EDIT, DELETE_TODO, SUCCESS, SUCCESS] == [FINISH_EDIT] + [DELETE_TODO, SUCCESS, SUCCESS];
      assert [DELETE_TODO, SUCCESS, SUCCESS] == [DELETE_TODO, SUCCESS] + [SUCCESS];
      assert [SUCCESS] == [SUCCESS] + [];
    } else if IsCommand(event) {
      RunPair(s, event, SUCCESS);
    } else {
      RunCons(s, event, []);
      assert [event] == [event] + [];
    }
  }

  /**
   * Starting idle, the machine is idle again after every `handleEvent`, for
   * every event: each command's SUCCESS closes its operation, FINISH_EDIT stays
   * idle throughout, and an unknown event has no entry from idle.
   */
  lemma IdleAfterEveryEvent(event: string, p: Payload)
    ensures Run(IDLE, Trace(event, p)) == IDLE
  {
    TraceSteps(IDLE, event, p);
    IdleCommandTargets();
    if event == FINISH_EDIT && p.text == "" {
      RunPair(IDLE, DELETE_TODO, SUCCESS);
      CompletionReturnsToIdle(DELETING);
      IdleIgnoresNonCommands(SUCCESS);
    } else if event == FINISH_EDIT {
      IdleIgnoresNonCommands(SUCCESS);
    } else if IsCommand(event) {
      CompletionReturnsToIdle(Next(IDLE, event));
    } else {
      IdleIgnoresNonCommands(event);
    }
  }

  /** An unknown event mutates nothing, and no SUCCESS follows its own transition attempt. */
  lemma UnknownEventNoMutation(todos: seq<Todo>, event: string, p: Payload, freshId: int)
    requires !IsCommand(event)
    ensures Dispatch(todos, event, p, freshId) == todos
    ensures Trace(event, p) == [event]
  {
  }

  /** FINISH_EDIT with empty text has the same effect on the list as DELETE_TODO for that id. */
  lemma FinishEditEmptyIsDelete(todos: seq<Todo>, id: int, p: Payload, q: Payload, freshId: int)
    requires p.text == "" && p.id == id && q.id == id
    ensures Dispatch(todos, FINISH_EDIT, p, freshId) == Dispatch(todos, DELETE_TODO, q, freshId)
  {
  }

  /**
   * Every dispatch keeps ids unique, provided an ADD_TODO is given an id the
   * list does not use.
   */
  lemma DispatchKeepsUniqueIds(todos: seq<Todo>, event: string, p: Payload, freshId: int)
    requires UniqueIds(todos)
    requires event == ADD_TODO ==> FreshId(todos, freshId)
    ensures UniqueIds(Dispatch(todos, event, p, freshId))
  {
    var r := Dispatch(todos, event, p, freshId);
    if event == ADD_TODO {
      AddedKeepsUniqueIds(todos, p.text, freshId);
    } else if event == DELETE_TODO || (event == FINISH_EDIT && p.text == "") {
      FilterKeepsUniqueIds(todos, (t: Todo) => t.id != p.id);
    } else if event == CLEAR_COMPLETED {
      FilterKeepsUniqueIds(todos, (t: Todo) => !t.completed);
    } else if event == REORDER_TODOS {
      ReorderedKeepsUniqueIds(todos, p.draggedId, p.dropTargetId);
    } else {
      assert |r| == |todos| && forall k :: 0 <= k < |r| ==> r[k].id == todos[k].id;
    }
  }
}
