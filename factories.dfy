/**
 * The default record the add handler builds (src/js/factories.js). The id is
 * not part of it: the caller adds one.
 */
module Factories {

  /** A to-do record without its id. */
  datatype ProtoTodo = ProtoTodo(text: string, completed: bool, editing: bool)

  /** `todoFactory(text)`: the text as given (no trimming here), not completed, not being edited. */
  function TodoFactory(text: string): (p: ProtoTodo)
    ensures p.text == text
    ensures !p.completed && !p.editing
  {
    ProtoTodo(text, false, false)
  }

  /** A record comes from the factory exactly when both of its flags are false. */
  lemma FactoryRecords(p: ProtoTodo)
    ensures p == TodoFactory(p.text) <==> !p.completed && !p.editing
  {
  }
}
