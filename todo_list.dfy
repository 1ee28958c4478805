/**
 * The list part of the to-do app's handlers (src/js/app.js): the records, the
 * `findIndex`/`find`/`filter`/`map`/`splice` computations the handlers perform
 * on the list, and what each of them preserves.
 */
module TodoList {
  import opened JsString
  import opened Factories

  /** A to-do record: `{ id, text, completed, editing }`. */
  datatype Todo = Todo(id: int, text: string, completed: bool, editing: bool)

  datatype Option<T> = None | Some(value: T)

  /** `{ id, ...proto }`: a factory record with an id in front. */
  function Stamp(id: int, p: ProtoTodo): (t: Todo)
    ensures t.id == id
    ensures t.text == p.text && t.completed == p.completed && t.editing == p.editing
  {
    Todo(id, p.text, p.completed, p.editing)
  }

  /** No two records of the list share an id. */
  predicate UniqueIds(s: seq<Todo>) {
    forall i, j :: 0 <= i < j < |s| ==> s[i].id != s[j].id
  }

  /** `id` is used by no record of the list. */
  predicate FreshId(s: seq<Todo>, id: int) {
    forall k :: 0 <= k < |s| ==> s[k].id != id
  }

  /** `s.findIndex(todo => todo.id === id)`: the first index with that id, or -1. */
  function FindIndex(s: seq<Todo>, id: int): (i: int)
    ensures -1 <= i < |s|
    ensures i == -1 <==> FreshId(s, id)
    ensures 0 <= i ==> s[i].id == id && FreshId(s[..i], id)
  {
    if s == [] then -1
    else if s[0].id == id then 0
    else
      var j := FindIndex(s[1..], id);
      assert s[1..][..j + 1] == s[1..j + 2] by { if j >= 0 { } }
      if j == -1 then -1 else j + 1
  }

  /** The first index holding `id` is what `FindIndex` returns. */
  lemma FindIndexAt(s: seq<Todo>, id: int, i: nat)
    requires i < |s| && s[i].id == id && FreshId(s[..i], id)
    ensures FindIndex(s, id) == i
  {
    var j := FindIndex(s, id);
    assert forall k :: 0 <= k < i ==> s[..i][k] == s[k];
    if 0 <= j {
      assert forall k :: 0 <= k < j ==> s[..j][k] == s[k];
    }
  }

  /** `s.find(todo => todo.id === id)`: the first record with that id, if any. */
  function Find(s: seq<Todo>, id: int): (r: Option<Todo>)
    ensures r.None? <==> FreshId(s, id)
    ensures r.Some? ==> r.value.id == id && r.value == s[FindIndex(s, id)]
  {
    var i := FindIndex(s, id);
    if i == -1 then None else Some(s[i])
  }

  /** `r` is `s` with some elements left out, the rest in their order. */
  predicate IsSubsequence<T(==)>(r: seq<T>, s: seq<T>)
    decreases |s|
  {
    r == [] ||
    (s != [] && if r[0] == s[0] then IsSubsequence(r[1..], s[1..]) else IsSubsequence(r, s[1..]))
  }

  /**
   * `s.filter(keep)`: a subsequence of `s` that holds every element satisfying
   * `keep` as often as `s` does, and nothing else.
   */
  function Filter<T(==,!new)>(s: seq<T>, keep: T -> bool): (r: seq<T>)
    ensures IsSubsequence(r, s)
    ensures forall x :: multiset(r)[x] == if keep(x) then multiset(s)[x] else 0
  {
    if s == [] then []
    else
      var rest := Filter(s[1..], keep);
      assert s == [s[0]] + s[1..];
      assert rest != [] ==> rest[0] in multiset(rest);
      if keep(s[0]) then [s[0]] + rest else rest
  }

  /** `s.filter(todo => todo.id !== id)`: the list without the records with that id. */
  function WithoutId(s: seq<Todo>, id: int): (r: seq<Todo>)
    ensures IsSubsequence(r, s)
    ensures forall t :: multiset(r)[t] == if t.id != id then multiset(s)[t] else 0
    ensures FreshId(r, id)
  {
    var r := Filter(s, (t: Todo) => t.id != id);
    assert forall k :: 0 <= k < |r| ==> r[k] in multiset(r);
    r
  }

  /** `s.filter(todo => !todo.completed)`: the list without its completed records. */
  function Uncompleted(s: seq<Todo>): (r: seq<Todo>)
    ensures IsSubsequence(r, s)
    ensures forall t :: multiset(r)[t] == if !t.completed then multiset(s)[t] else 0
    ensures forall k :: 0 <= k < |r| ==> !r[k].completed
  {
    var r := Filter(s, (t: Todo) => !t.completed);
    assert forall k :: 0 <= k < |r| ==> r[k] in multiset(r);
    r
  }

  /**
   * `s.map(todo => todo.id === id ? { ...todo, completed: !todo.completed } : todo)`:
   * `completed` is negated on the records with that id, and nothing else changes.
   */
  function Toggled(s: seq<Todo>, id: int): (r: seq<Todo>)
    ensures |r| == |s|
    ensures forall k :: 0 <= k < |s| ==>
              r[k].id == s[k].id && r[k].text == s[k].text && r[k].editing == s[k].editing &&
              (r[k].completed <==> (if s[k].id == id then !s[k].completed else s[k].completed))
  {
    seq(|s|, k requires 0 <= k < |s| =>
      if s[k].id == id then s[k].(completed := !s[k].completed) else s[k])
  }

  /**
   * `s.map(todo => todo.id === id ? { ...todo, editing: true } : todo)`:
   * `editing` becomes true on the records with that id; nothing else changes,
   * and in particular `editing` is not cleared on the other records.
   */
  function MarkEditing(s: seq<Todo>, id: int): (r: seq<Todo>)
    ensures |r| == |s|
    ensures forall k :: 0 <= k < |s| ==>
              r[k].id == s[k].id && r[k].text == s[k].text && r[k].completed == s[k].completed &&
              (r[k].editing <==> (s[k].id == id || s[k].editing))
  {
    seq(|s|, k requires 0 <= k < |s| =>
      if s[k].id == id then s[k].(editing := true) else s[k])
  }

  /**
   * The non-empty branch of `handleFinishEdit`: the first record with that id
   * is found, and every record with that id is replaced by a copy of it with
   * the new text and `editing` false. Ids never change; other records stay.
   */
  function FinishedEdit(s: seq<Todo>, id: int, text: string): (r: seq<Todo>)
    ensures |r| == |s|
    ensures forall k :: 0 <= k < |s| ==> r[k].id == s[k].id
    ensures forall k :: 0 <= k < |s| && s[k].id != id ==> r[k] == s[k]
    ensures forall k :: 0 <= k < |s| && s[k].id == id ==>
              r[k] == s[FindIndex(s, id)].(text := text, editing := false)
  {
    match Find(s, id)
    case None => s
    case Some(todo) =>
      seq(|s|, k requires 0 <= k < |s| =>
        if s[k].id == id then todo.(text := text, editing := false) else s[k])
  }

  /** `s` with the element at `i` spliced out. */
  function RemoveAt<T>(s: seq<T>, i: nat): (r: seq<T>)
    requires i < |s|
    ensures |r| == |s| - 1
    ensures forall k :: 0 <= k < i ==> r[k] == s[k]
    ensures forall k :: i <= k < |r| ==> r[k] == s[k + 1]
  {
    s[..i] + s[i + 1..]
  }

  /**
   * The two splices of `handleReorderTodos`: the element at `from` is taken
   * out, then put back in at index `to` of what is left. It lands at `to`; the
   * others keep their relative order; nothing is lost or duplicated.
   */
  function Moved<T>(s: seq<T>, from: nat, to: nat): (r: seq<T>)
    requires from < |s| && to < |s|
    ensures |r| == |s|
    ensures r[to] == s[from]
    ensures RemoveAt(r, to) == RemoveAt(s, from)
    ensures multiset(r) == multiset(s)
  {
    var rest := RemoveAt(s, from);
    var r := rest[..to] + [s[from]] + rest[to..];
    assert RemoveAt(r, to) == rest;
    MultisetRemoveAt(s, from);
    MultisetRemoveAt(r, to);
    r
  }

  /** Splicing out one element takes exactly that element out of the multiset. */
  lemma MultisetRemoveAt<T>(s: seq<T>, i: nat)
    requires i < |s|
    ensures multiset(s) == multiset(RemoveAt(s, i)) + multiset{s[i]}
  {
    assert s == s[..i] + [s[i]] + s[i + 1..];
  }

  /** The reorder on the list: a move between the two ids' first indices, or no change. */
  function Reordered(s: seq<Todo>, draggedId: int, dropTargetId: int): (r: seq<Todo>)
    ensures FreshId(s, draggedId) || FreshId(s, dropTargetId) ==> r == s
    ensures !FreshId(s, draggedId) && !FreshId(s, dropTargetId) ==>
              var from, to := FindIndex(s, draggedId), FindIndex(s, dropTargetId);
              |r| == |s| && multiset(r) == multiset(s) &&
              r[to] == s[from] && RemoveAt(r, to) == RemoveAt(s, from)
  {
    var from, to := FindIndex(s, draggedId), FindIndex(s, dropTargetId);
    if from == -1 || to == -1 then s else Moved(s, from, to)
  }

  /**
   * The list part of `handleAddTodo`: nothing when the trimmed text is empty;
   * otherwise one record appended at the end, carrying the given id, the
   * trimmed text and both flags false, with the earlier records untouched.
   */
  function Added(s: seq<Todo>, text: string, freshId: int): (r: seq<Todo>)
    ensures Trim(text) == [] ==> r == s
    ensures Trim(text) != [] ==>
              |r| == |s| + 1 && r[..|s|] == s && r[|s|] == Todo(freshId, Trim(text), false, false)
  {
    var trimmed := Trim(text);
    if trimmed == [] then s else s + [Stamp(freshId, TodoFactory(trimmed))]
  }

  // ----- What the operations preserve -----

  /** Toggling twice with the same id restores the list. */
  lemma ToggledInvolution(s: seq<Todo>, id: int)
    ensures Toggled(Toggled(s, id), id) == s
  {
    var r := Toggled(Toggled(s, id), id);
    assert forall k :: 0 <= k < |s| ==> r[k] == s[k];
  }

  /** Beginning an edit twice is beginning it once. */
  lemma MarkEditingIdempotent(s: seq<Todo>, id: int)
    ensures MarkEditing(MarkEditing(s, id), id) == MarkEditing(s, id)
  {
    var r, r2 := MarkEditing(s, id), MarkEditing(MarkEditing(s, id), id);
    assert forall k :: 0 <= k < |s| ==> r2[k] == r[k];
  }

  /**
   * With unique ids, finishing an edit with non-empty text sets the text and
   * clears `editing` on the record with that id and keeps its `completed`.
   */
  lemma FinishedEditFields(s: seq<Todo>, id: int, text: string)
    requires UniqueIds(s)
    ensures var r := FinishedEdit(s, id, text);
            forall k :: 0 <= k < |s| ==>
              r[k].id == s[k].id && r[k].completed == s[k].completed &&
              (s[k].id == id ==> r[k].text == text && !r[k].editing) &&
              (s[k].id != id ==> r[k] == s[k])
  {
    var r := FinishedEdit(s, id, text);
    forall k | 0 <= k < |s| && s[k].id == id
      ensures r[k].completed == s[k].completed
    {
      var i := FindIndex(s, id);
      assert i == k;
    }
  }

  /** Moving from `i` to `j` and then from `j` back to `i` restores the sequence. */
  lemma MovedInverse<T>(s: seq<T>, i: nat, j: nat)
    requires i < |s| && j < |s|
    ensures Moved(Moved(s, i, j), j, i) == s
  {
    var r := Moved(s, i, j);
    var back := Moved(r, j, i);
    var rest := RemoveAt(s, i);
    assert RemoveAt(back, i) == RemoveAt(r, j) == rest;
    forall k | 0 <= k < |s|
      ensures back[k] == s[k]
    {
      if k < i {
        assert back[k] == RemoveAt(back, i)[k];
      } else if k > i {
        assert back[k] == RemoveAt(back, i)[k - 1];
      }
    }
  }

  /** Dragging the first of three records onto the third puts it last. */
  lemma ReorderFirstOntoLast(a: Todo, b: Todo, c: Todo)
    requires a.id != b.id && a.id != c.id && b.id != c.id
    ensures Reordered([a, b, c], a.id, c.id) == [b, c, a]
  {
    var s := [a, b, c];
    FindIndexAt(s, a.id, 0);
    assert s[..2] == [a, b];
    FindIndexAt(s, c.id, 2);
    var rest := RemoveAt(s, 0);
    assert rest == [b, c];
    assert Moved(s, 0, 2) == rest[..2] + [a] + rest[2..];
  }

  /** On two records with different ids, reordering one onto the other and back restores the list. */
  lemma ReorderTwoBack(a: Todo, b: Todo)
    requires a.id != b.id
    ensures Reordered(Reordered([a, b], a.id, b.id), b.id, a.id) == [a, b]
  {
    SwapTwo(a, b);
    SwapTwo(b, a);
  }

  /**
   * Reordering works on indices, so on three records dragging the first onto
   * the last and then dragging that record back onto the moved one does not
   * restore the list: the dragged record lands at the target's old index.
   */
  lemma ReorderThreeNotUndone(a: Todo, b: Todo, c: Todo)
    requires a.id != b.id && a.id != c.id && b.id != c.id
    ensures Reordered(Reordered([a, b, c], a.id, c.id), c.id, a.id) == [b, a, c]
  {
    ReorderFirstOntoLast(a, b, c);
    ReorderMiddleOntoLast(b, c, a);
  }

  /** Dragging the second of three records onto the third swaps those two. */
  lemma ReorderMiddleOntoLast(a: Todo, b: Todo, c: Todo)
    requires a.id != b.id && a.id != c.id && b.id != c.id
    ensures Reordered([a, b, c], b.id, c.id) == [a, c, b]
  {
    var s := [a, b, c];
    FindIndexAt(s, b.id, 1);
    assert s[..2] == [a, b];
    FindIndexAt(s, c.id, 2);
    var rest := RemoveAt(s, 1);
    assert rest == [a, c];
    assert Moved(s, 1, 2) == rest[..2] + [b] + rest[2..];
  }

  /** On two records with different ids, reordering the first onto the second swaps them. */
  lemma SwapTwo(a: Todo, b: Todo)
    requires a.id != b.id
    ensures Reordered([a, b], a.id, b.id) == [b, a]
  {
    var s := [a, b];
    FindIndexAt(s, a.id, 0);
    assert s[..1] == [a];
    FindIndexAt(s, b.id, 1);
    var rest := RemoveAt(s, 0);
    assert rest == [b];
    assert Moved(s, 0, 1) == rest[..1] + [a] + rest[1..];
  }

  /** The index of `s` that `Moved(s, from, to)` holds at index `k`. */
  function MovedSource(from: nat, to: nat, k: nat): nat {
    var k' := if k < to then k else k - 1;
    if k == to then from else if k' < from then k' else k' + 1
  }

  /** Every element of a moved sequence comes from its source index, and no two from the same one. */
  lemma MovedAt<T>(s: seq<T>, from: nat, to: nat)
    requires from < |s| && to < |s|
    ensures forall k :: 0 <= k < |s| ==> MovedSource(from, to, k) < |s| && Moved(s, from, to)[k] == s[MovedSource(from, to, k)]
    ensures forall k, l :: 0 <= k < l < |s| ==> MovedSource(from, to, k) != MovedSource(from, to, l)
  {
    var r := Moved(s, from, to);
    var rest := RemoveAt(s, from);
    forall k | 0 <= k < |s|
      ensures MovedSource(from, to, k) < |s| && r[k] == s[MovedSource(from, to, k)]
    {
      if k < to {
        assert r[k] == RemoveAt(r, to)[k] == rest[k];
      } else if k > to {
        assert r[k] == RemoveAt(r, to)[k - 1] == rest[k - 1];
      }
    }
  }

  /** Adding with an id no record uses keeps ids unique. */
  lemma AddedKeepsUniqueIds(s: seq<Todo>, text: string, freshId: int)
    requires UniqueIds(s) && FreshId(s, freshId)
    ensures UniqueIds(Added(s, text, freshId))
  {
  }

  /** Every element of a filter's result is an element of its input. */
  lemma FilterMember<T(!new)>(s: seq<T>, keep: T -> bool, x: T)
    requires x in Filter(s, keep)
    ensures x in s
  {
    assert x in multiset(Filter(s, keep));
  }

  /** A filter keeps ids unique. */
  lemma {:induction false} FilterKeepsUniqueIds(s: seq<Todo>, keep: Todo -> bool)
    requires UniqueIds(s)
    ensures UniqueIds(Filter(s, keep))
    decreases |s|
  {
    if s != [] {
      var rest := Filter(s[1..], keep);
      FilterKeepsUniqueIds(s[1..], keep);
      if keep(s[0]) {
        FreshAfterFirst(s);
        forall x | x in rest
          ensures x.id != s[0].id
        {
          FilterMember(s[1..], keep, x);
        }
        ConsKeepsUniqueIds(s[0], rest);
      }
    }
  }

  /** In a list with unique ids, the first record's id is used by none of the others. */
  lemma FreshAfterFirst(s: seq<Todo>)
    requires UniqueIds(s) && s != []
    ensures forall x :: x in s[1..] ==> x.id != s[0].id
  {
    forall x | x in s[1..]
      ensures x.id != s[0].id
    {
      var m :| 0 <= m < |s| - 1 && s[1..][m] == x;
      assert s[m + 1] == x;
    }
  }

  /** Putting a record with an unused id in front keeps ids unique. */
  lemma ConsKeepsUniqueIds(t: Todo, s: seq<Todo>)
    requires UniqueIds(s)
    requires forall x :: x in s ==> x.id != t.id
    ensures UniqueIds([t] + s)
  {
    var r := [t] + s;
    forall i, j | 0 <= i < j < |r|
      ensures r[i].id != r[j].id
    {
      assert r[j] == s[j - 1];
      if i > 0 {
        assert r[i] == s[i - 1];
      }
    }
  }

  /** A reorder keeps ids unique. */
  lemma ReorderedKeepsUniqueIds(s: seq<Todo>, draggedId: int, dropTargetId: int)
    requires UniqueIds(s)
    ensures UniqueIds(Reordered(s, draggedId, dropTargetId))
  {
    var from, to := FindIndex(s, draggedId), FindIndex(s, dropTargetId);
    if from != -1 && to != -1 {
      MovedAt(s, from, to);
    }
  }
}
