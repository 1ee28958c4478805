/**
 * The operation state machine of the to-do app (src/js/todo-state-machine.js).
 *
 * States and events are the app's string labels. The transition table is a
 * map from a row label to a map from event to next state, exactly as the
 * local object `transitions` inside `transition` writes it, including its
 * last row, which is keyed by the EVENT name FINISH_EDIT rather than by a
 * state.
 */
module StateMachine {

  // Event names
  const ADD_TODO: string := "ADD_TODO"
  const EDIT_TODO: string := "EDIT_TODO"
  const FINISH_EDIT: string := "FINISH_EDIT"
  const DELETE_TODO: string := "DELETE_TODO"
  const TOGGLE_TODO: string := "TOGGLE_TODO"
  const CLEAR_COMPLETED: string := "CLEAR_COMPLETED"
  const REORDER_TODOS: string := "REORDER_TODOS"
  const SUCCESS: string := "SUCCESS"
  const FAILURE: string := "FAILURE"

  // State labels
  const IDLE: string := "idle"
  const ADDING: string := "adding"
  const EDITING: string := "editing"
  const DELETING: string := "deleting"
  const TOGGLING: string := "toggling"
  const CLEARING: string := "clearing"
  const REORDERING: string := "reordering"

  /** The seven state constants. */
  predicate IsState(s: string) {
    s == IDLE || s == ADDING || s == EDITING || s == DELETING ||
    s == TOGGLING || s == CLEARING || s == REORDERING
  }

  /** The six states a command event leads to from idle. */
  predicate IsInProgress(s: string) {
    s == ADDING || s == EDITING || s == DELETING ||
    s == TOGGLING || s == CLEARING || s == REORDERING
  }

  /** The command events the dispatcher knows. */
  predicate IsCommand(e: string) {
    e == ADD_TODO || e == EDIT_TODO || e == FINISH_EDIT || e == DELETE_TODO ||
    e == TOGGLE_TODO || e == CLEAR_COMPLETED || e == REORDER_TODOS
  }

  /**
   * The nine event names are pairwise different. `RunHandler` calls this so
   * that the cases of the `switch` in `handleEvent` are known to be distinct.
   */
  lemma EventNamesDistinct()
    ensures ADD_TODO != EDIT_TODO
    ensures ADD_TODO != FINISH_EDIT
    ensures ADD_TODO != DELETE_TODO
    ensures ADD_TODO != TOGGLE_TODO
    ensures ADD_TODO != CLEAR_COMPLETED
    ensures ADD_TODO != REORDER_TODOS
    ensures ADD_TODO != SUCCESS
    ensures ADD_TODO != FAILURE
    ensures EDIT_TODO != FINISH_EDIT
    ensures EDIT_TODO != DELETE_TODO
    ensures EDIT_TODO != TOGGLE_TODO
    ensures EDIT_TODO != CLEAR_COMPLETED
    ensures EDIT_TODO != REORDER_TODOS
    ensures EDIT_TODO != SUCCESS
    ensures EDIT_TODO != FAILURE
    ensures FINISH_EDIT != DELETE_TODO
    ensures FINISH_EDIT != TOGGLE_TODO
    ensures FINISH_EDIT != CLEAR_COMPLETED
    ensures FINISH_EDIT != REORDER_TODOS
    ensures FINISH_EDIT != SUCCESS
    ensures FINISH_EDIT != FAILURE
    ensures DELETE_TODO != TOGGLE_TODO
    ensures DELETE_TODO != CLEAR_COMPLETED
    ensures DELETE_TODO != REORDER_TODOS
    ensures DELETE_TODO != SUCCESS
    ensures DELETE_TODO != FAILURE
    ensures TOGGLE_TODO != CLEAR_COMPLETED
    ensures TOGGLE_TODO != REORDER_TODOS
    ensures TOGGLE_TODO != SUCCESS
    ensures TOGGLE_TODO != FAILURE
    ensures CLEAR_COMPLETED != REORDER_TODOS
    ensures CLEAR_COMPLETED != SUCCESS
    ensures CLEAR_COMPLETED != FAILURE
    ensures REORDER_TODOS != SUCCESS
    ensures REORDER_TODOS != FAILURE
    ensures SUCCESS != FAILURE
  {
  }

  /** The transition table, row by row. */
  const TRANSITIONS: map<string, map<string, string>> := map[
    IDLE := map[
      ADD_TODO := ADDING,
      EDIT_TODO := EDITING,
      DELETE_TODO := DELETING,
      TOGGLE_TODO := TOGGLING,
      CLEAR_COMPLETED := CLEARING,
      REORDER_TODOS := REORDERING,
      FINISH_EDIT := IDLE],
    ADDING := map[SUCCESS := IDLE, FAILURE := IDLE],
    EDITING := map[FINISH_EDIT := IDLE, SUCCESS := IDLE, FAILURE := IDLE],
    DELETING := map[SUCCESS := IDLE, FAILURE := IDLE],
    TOGGLING := map[SUCCESS := IDLE, FAILURE := IDLE],
    CLEARING := map[SUCCESS := IDLE, FAILURE := IDLE],
    REORDERING := map[SUCCESS := IDLE, FAILURE := IDLE],
    FINISH_EDIT := map[SUCCESS := IDLE, FAILURE := EDITING]
  ]

  /**
   * The state after `event` in `state`: the table's entry when there is one,
   * otherwise `state` itself (`transition` only logs then). A state that is not a
   * row of the table would make `transition` throw, so it is excluded.
   */
  function Next(state: string, event: string): (r: string)
    requires state in TRANSITIONS
    ensures r in TRANSITIONS
    ensures event in TRANSITIONS[state] ==> r == TRANSITIONS[state][event] && IsState(r)
    ensures event !in TRANSITIONS[state] ==> r == state
  {
    var row := TRANSITIONS[state];
    if event in row then row[event] else state
  }

  /** The state after feeding `events` one by one. */
  function Run(state: string, events: seq<string>): (r: string)
    requires state in TRANSITIONS
    ensures r in TRANSITIONS
    decreases |events|
  {
    if events == [] then state else Run(Next(state, events[0]), events[1..])
  }

  /** The table rows looked up while feeding `events`, in order. */
  function RowsConsulted(state: string, events: seq<string>): (rows: seq<string>)
    requires state in TRANSITIONS
    ensures |rows| == |events|
    decreases |events|
  {
    if events == [] then [] else [state] + RowsConsulted(Next(state, events[0]), events[1..])
  }

  /**
   * `TodoStateMachine`: holds the single current-operation label. The ghost
   * `history` is every event `transition` has been called with, in order.
   */
  class TodoStateMachine {
    var state: string
    ghost var history: seq<string>

    /** The state is one of the seven state constants, reached from idle by the history. */
    ghost predicate Valid()
      reads this
    {
      IsState(state) && state == Run(IDLE, history)
    }

    constructor()
      ensures Valid()
      ensures state == IDLE
      ensures history == []
    {
      state := IDLE;
      history := [];
    }

    /**
     * `transition(event)`. `valid` is false exactly when `transition` logs an
     * invalid transition; the state then stays as it was. `history` records
     * every event received, accepted or not.
     */
    method Transition(event: string) returns (valid: bool)
      requires state in TRANSITIONS
      modifies this
      ensures valid <==> event in TRANSITIONS[old(state)]
      ensures state == Next(old(state), event)
      ensures !valid ==> state == old(state)
      ensures history == old(history) + [event]
      ensures old(Valid()) ==> Valid()
    {
      var row := TRANSITIONS[state];
      if event in row {
        state := row[event];
        valid := true;
      } else {
        valid := false;
      }
      if old(Valid()) {
        RunAppend(IDLE, history, [event]);
        RunCons(old(state), event, []);
        assert [event] + [] == [event];
      }
      history := history + [event];
    }
  }

  /** From idle, each command event leads to its in-progress state; FINISH_EDIT stays idle. */
  lemma IdleCommandTargets()
    ensures Next(IDLE, ADD_TODO) == ADDING
    ensures Next(IDLE, EDIT_TODO) == EDITING
    ensures Next(IDLE, DELETE_TODO) == DELETING
    ensures Next(IDLE, TOGGLE_TODO) == TOGGLING
    ensures Next(IDLE, CLEAR_COMPLETED) == CLEARING
    ensures Next(IDLE, REORDER_TODOS) == REORDERING
    ensures Next(IDLE, FINISH_EDIT) == IDLE
  {
  }

  /** From every in-progress state, SUCCESS and FAILURE both lead back to idle. */
  lemma CompletionReturnsToIdle(s: string)
    requires IsInProgress(s)
    ensures Next(s, SUCCESS) == IDLE
    ensures Next(s, FAILURE) == IDLE
  {
  }

  /** `editing` also accepts FINISH_EDIT, back to idle; no other in-progress state does. */
  lemma FinishEditFromEditing(s: string)
    requires IsInProgress(s)
    ensures Next(s, FINISH_EDIT) == (if s == EDITING then IDLE else s)
  {
  }

  /**
   * While idle, SUCCESS, FAILURE and any event that is not a command have no
   * entry, so the state stays idle.
   */
  lemma IdleIgnoresNonCommands(e: string)
    ensures e == SUCCESS || e == FAILURE || !IsCommand(e) ==> e !in TRANSITIONS[IDLE]
    ensures e == SUCCESS || e == FAILURE || !IsCommand(e) ==> Next(IDLE, e) == IDLE
  {
  }

  /**
   * While an operation is in progress, every command except FINISH_EDIT in
   * `editing` has no entry, so the state is kept.
   */
  lemma InProgressIgnoresCommands(s: string, e: string)
    requires IsInProgress(s)
    ensures IsCommand(e) && !(s == EDITING && e == FINISH_EDIT) ==> e !in TRANSITIONS[s]
    ensures IsCommand(e) && !(s == EDITING && e == FINISH_EDIT) ==> Next(s, e) == s
  {
  }

  /**
   * The only transition out of a state into `editing` is EDIT_TODO from idle:
   * the FINISH_EDIT row's FAILURE entry needs a state labelled FINISH_EDIT.
   */
  lemma OnlyEditTodoReachesEditing(s: string, e: string)
    requires IsState(s)
    ensures Next(s, e) == EDITING <==> (s == IDLE && e == EDIT_TODO) || (s == EDITING && !(e in TRANSITIONS[EDITING]))
  {
  }

  /**
   * Invariant: from any state constant, every sequence of events ends in a
   * state constant, and every row consulted on the way is a state constant,
   * so the row keyed FINISH_EDIT is never looked up.
   */
  lemma {:induction false} RunStaysInStates(s: string, events: seq<string>)
    requires IsState(s)
    ensures IsState(Run(s, events))
    ensures forall k :: 0 <= k < |events| ==> IsState(RowsConsulted(s, events)[k])
    ensures FINISH_EDIT !in RowsConsulted(s, events)
    decreases |events|
  {
    if events != [] {
      var s' := Next(s, events[0]);
      RunStaysInStates(s', events[1..]);
      assert RowsConsulted(s, events) == [s] + RowsConsulted(s', events[1..]);
    }
  }

  /** Feeding one event, then the rest. */
  lemma RunCons(s: string, e: string, rest: seq<string>)
    requires s in TRANSITIONS
    ensures Run(s, [e] + rest) == Run(Next(s, e), rest)
  {
    assert ([e] + rest)[0] == e && ([e] + rest)[1..] == rest;
  }

  /** Feeding two events. */
  lemma RunPair(s: string, a: string, b: string)
    requires s in TRANSITIONS
    ensures Run(s, [a, b]) == Next(Next(s, a), b)
  {
    RunCons(s, a, [b]);
    RunCons(Next(s, a), b, []);
    assert [a, b] == [a] + [b] && [b] == [b] + [];
  }

  /** Feeding two event sequences one after the other. */
  lemma {:induction false} RunAppend(s: string, a: seq<string>, b: seq<string>)
    requires s in TRANSITIONS
    ensures Run(s, a + b) == Run(Run(s, a), b)
    decreases |a|
  {
    if a == [] {
      assert a + b == b;
    } else {
      assert (a + b)[0] == a[0] && (a + b)[1..] == a[1..] + b;
      RunAppend(Next(s, a[0]), a[1..], b);
    }
  }
}
