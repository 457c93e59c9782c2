/** The todo-list state of `App` in src/App.jsx.

    The state is the array `todos` of `{ id, text, completed }` records. Each
    of the four actions replaces it wholesale by a new array computed from the
    previous one (`setTodos(prev => ...)`), so each is a function from the old
    list to the new one. The id of a new item comes from the clock
    (`Date.now()`); here it is a parameter. Ids are never checked for
    uniqueness: toggling and deleting act on every item whose id matches.
 */
module TodoApp {
  import opened JsString
  import opened JsArray
  import opened NumberFormat

  /** One entry of `todos`. */
  datatype Todo = Todo(id: int, text: string, completed: bool)

  // ---------------------------------------------------------------------------
  // Callbacks handed to `filter` and `map`

  /** The test `todo.id === id` inside the callback of `toggleTodo`, as a
      callback of its own; used to count the items that carry an id. */
  function IdIs(id: int): Todo -> bool {
    (t: Todo) => t.id == id
  }

  /** `(todo) => todo.id !== id`, the callback of `deleteTodo`. */
  function IdIsNot(id: int): Todo -> bool {
    (t: Todo) => t.id != id
  }

  /** `(t) => t.completed`, the callback of `completedCount`. */
  function IsCompleted(t: Todo): bool {
    t.completed
  }

  /** `(todo) => !todo.completed`, the callback of `clearCompleted`. */
  function IsActive(t: Todo): bool {
    !t.completed
  }

  /** The callback of `toggleTodo`: a copy with `completed` negated for a
      matching id, the item itself otherwise. */
  function FlipIfId(id: int): Todo -> Todo {
    (t: Todo) => if t.id == id then t.(completed := !t.completed) else t
  }

  // ---------------------------------------------------------------------------
  // The four actions

  /** `addTodo(text)`: trim the text; if nothing is left, the list stays as it
      is; otherwise append a new, not completed item with the trimmed text. */
  function AddTodo(todos: seq<Todo>, text: string, newId: int): (r: seq<Todo>)
    ensures r == todos <==> AllWs(text)
    ensures !AllWs(text) ==>
      && |r| == |todos| + 1
      && r[..|todos|] == todos
      && r[|todos|] == Todo(newId, Trim(text), false)
    ensures !AllWs(text) ==> r[|todos|].text != [] && IsTrimmed(r[|todos|].text)
  {
    var trimmed := Trim(text);
    if trimmed == [] then todos
    else todos + [Todo(newId, trimmed, false)]
  }

  /** `toggleTodo(id)`: every item keeps its place, id and text; `completed`
      is negated exactly on the items whose id is `id`. */
  function ToggleTodo(todos: seq<Todo>, id: int): (r: seq<Todo>)
    ensures |r| == |todos|
    ensures forall i :: 0 <= i < |todos| ==>
      && r[i].id == todos[i].id
      && r[i].text == todos[i].text
      && (r[i].completed <==> (todos[i].completed != (todos[i].id == id)))
  {
    Map(todos, FlipIfId(id))
  }

  /** `deleteTodo(id)`: the items whose id is not `id`, in their order. */
  function DeleteTodo(todos: seq<Todo>, id: int): (r: seq<Todo>)
    ensures |r| <= |todos|
    ensures forall i :: 0 <= i < |r| ==> r[i].id != id && r[i] in todos
    ensures forall i :: 0 <= i < |todos| && todos[i].id != id ==> todos[i] in r
  {
    Filter(todos, IdIsNot(id))
  }

  /** `clearCompleted()`: the items that are not completed, in their order. */
  function ClearCompleted(todos: seq<Todo>): (r: seq<Todo>)
    ensures |r| <= |todos|
    ensures forall i :: 0 <= i < |r| ==> !r[i].completed && r[i] in todos
    ensures forall i :: 0 <= i < |todos| && !todos[i].completed ==> todos[i] in r
  {
    Filter(todos, IsActive)
  }

  // ---------------------------------------------------------------------------
  // Derived values

  /** `completedCount = todos.filter((t) => t.completed).length` */
  function CompletedCount(todos: seq<Todo>): (n: nat)
    ensures n <= |todos|
    ensures n == 0 <==> forall i :: 0 <= i < |todos| ==> !todos[i].completed
    ensures n == |todos| <==> forall i :: 0 <= i < |todos| ==> todos[i].completed
  {
    FilterKeepsAllIff(todos, IsCompleted);
    FilterEmptyIff(todos, IsCompleted);
    |Filter(todos, IsCompleted)|
  }

  /** How many items carry the id `id`. */
  function CountId(todos: seq<Todo>, id: int): (n: nat)
    ensures n <= |todos|
    ensures n == 0 <==> forall i :: 0 <= i < |todos| ==> todos[i].id != id
  {
    FilterEmptyIff(todos, IdIs(id));
    |Filter(todos, IdIs(id))|
  }

  const DonePrefix: string := "완료 "
  const TotalInfix: string := " / 전체 "

  /** The template `완료 ${completed} / 전체 ${total}`: the fixed words with
      the two numbers written in decimal, which read back as the numbers. */
  function ProgressText(completed: nat, total: nat): (r: string)
    ensures exists d, e :: ShowsNumbers(r, d, e) && DecimalValue(d) == completed && DecimalValue(e) == total
  {
    DecimalRoundTrip(completed);
    DecimalRoundTrip(total);
    var d, e := NatToDecimal(completed), NatToDecimal(total);
    assert ShowsNumbers(DonePrefix + d + TotalInfix + e, d, e);
    DonePrefix + d + TotalInfix + e
  }

  /** `r` is the progress text with the numerals `d` and `e` filled in. */
  predicate ShowsNumbers(r: string, d: string, e: string) {
    IsNumeral(d) && IsNumeral(e) && r == DonePrefix + d + TotalInfix + e
  }

  /** The contract of `ProgressText` leaves one text only: the numerals that
      read back as the two numbers are their decimal representations. */
  lemma ShowsNumbersDetermined(r: string, d: string, e: string, completed: nat, total: nat)
    requires ShowsNumbers(r, d, e) && DecimalValue(d) == completed && DecimalValue(e) == total
    ensures r == DonePrefix + NatToDecimal(completed) + TotalInfix + NatToDecimal(total)
  {
    NumeralIsDecimal(d);
    NumeralIsDecimal(e);
  }

  /** What the title effect writes to `document.title` (and what the footer
      shows): the number of completed items and the number of all items. */
  function DocumentTitle(todos: seq<Todo>): (r: string)
    ensures exists d, e :: ShowsNumbers(r, d, e) && DecimalValue(d) == CompletedCount(todos) && DecimalValue(e) == |todos|
  {
    ProgressText(CompletedCount(todos), |todos|)
  }

  // ---------------------------------------------------------------------------
  // addTodo

  /** Blank text, the empty string included, leaves the list unchanged. */
  lemma AddBlankIsNoop(todos: seq<Todo>, text: string, newId: int)
    requires AllWs(text)
    ensures AddTodo(todos, text, newId) == todos
  {
  }

  /** Adding appends an active item, so the completed count is unchanged. */
  lemma AddKeepsCompletedCount(todos: seq<Todo>, text: string, newId: int)
    ensures CompletedCount(AddTodo(todos, text, newId)) == CompletedCount(todos)
  {
    if !AllWs(text) {
      CompletedCountConcat(todos, [Todo(newId, Trim(text), false)]);
      CompletedCountSingleton(Todo(newId, Trim(text), false));
    }
  }

  // ---------------------------------------------------------------------------
  // toggleTodo

  /** Toggling the same id twice gives back the original list. */
  lemma ToggleTwice(todos: seq<Todo>, id: int)
    ensures ToggleTodo(ToggleTodo(todos, id), id) == todos
  {
    MapInvolution(todos, FlipIfId(id));
  }

  /** Toggling an id that no item carries changes nothing. */
  lemma ToggleAbsentIsNoop(todos: seq<Todo>, id: int)
    requires CountId(todos, id) == 0
    ensures ToggleTodo(todos, id) == todos
  {
    MapIdentity(todos, FlipIfId(id));
  }

  /** Toggling the one item with id `id` moves the completed count by one. */
  lemma ToggleCountOne(todos: seq<Todo>, id: int, k: nat)
    requires UniqueIds(todos) && k < |todos| && todos[k].id == id
    ensures todos[k].completed ==> CompletedCount(ToggleTodo(todos, id)) == CompletedCount(todos) - 1
    ensures !todos[k].completed ==> CompletedCount(ToggleTodo(todos, id)) == CompletedCount(todos) + 1
  {
    var r := ToggleTodo(todos, id);
    assert todos == todos[..k] + [todos[k]] + todos[k + 1..];
    assert r == r[..k] + [r[k]] + r[k + 1..];
    assert r[..k] == todos[..k];
    assert r[k + 1..] == todos[k + 1..];
    CompletedCountConcat(todos[..k] + [todos[k]], todos[k + 1..]);
    CompletedCountConcat(todos[..k], [todos[k]]);
    CompletedCountConcat(r[..k] + [r[k]], r[k + 1..]);
    CompletedCountConcat(r[..k], [r[k]]);
    CompletedCountSingleton(todos[k]);
    CompletedCountSingleton(r[k]);
  }

  // ---------------------------------------------------------------------------
  // deleteTodo

  /** Deleting removes exactly the matching items. */
  lemma DeleteLength(todos: seq<Todo>, id: int)
    ensures |DeleteTodo(todos, id)| == |todos| - CountId(todos, id)
  {
    FilterComplement(todos, IdIsNot(id), IdIs(id));
  }

  /** Deleting changes the list exactly when some item carries the id. */
  lemma DeleteAbsentIff(todos: seq<Todo>, id: int)
    ensures DeleteTodo(todos, id) == todos <==> CountId(todos, id) == 0
  {
    FilterKeepsAllIff(todos, IdIsNot(id));
  }

  /** With unique ids, deleting a present id shortens the list by one. */
  lemma DeleteUniquePresent(todos: seq<Todo>, id: int, k: nat)
    requires UniqueIds(todos) && k < |todos| && todos[k].id == id
    ensures |DeleteTodo(todos, id)| == |todos| - 1
  {
    DeleteLength(todos, id);
    UniqueCountId(todos, k);
  }

  /** Deleting keeps the order: it works on each part of a list separately. */
  lemma DeleteConcat(a: seq<Todo>, b: seq<Todo>, id: int)
    ensures DeleteTodo(a + b, id) == DeleteTodo(a, id) + DeleteTodo(b, id)
  {
    FilterConcat(a, b, IdIsNot(id));
  }

  /** Deleting the same id a second time changes nothing. */
  lemma DeleteIdempotent(todos: seq<Todo>, id: int)
    ensures DeleteTodo(DeleteTodo(todos, id), id) == DeleteTodo(todos, id)
  {
    FilterIdempotent(todos, IdIsNot(id));
  }

  // ---------------------------------------------------------------------------
  // clearCompleted and completedCount

  /** No completed item is left after clearing. */
  lemma ClearCompletedCountZero(todos: seq<Todo>)
    ensures CompletedCount(ClearCompleted(todos)) == 0
  {
  }

  /** Clearing removes exactly the completed items. */
  lemma ClearCompletedLength(todos: seq<Todo>)
    ensures |ClearCompleted(todos)| == |todos| - CompletedCount(todos)
  {
    FilterComplement(todos, IsCompleted, IsActive);
  }

  /** Clearing twice is clearing once. */
  lemma ClearCompletedIdempotent(todos: seq<Todo>)
    ensures ClearCompleted(ClearCompleted(todos)) == ClearCompleted(todos)
  {
    FilterIdempotent(todos, IsActive);
  }

  /** Clearing keeps the order: it works on each part of a list separately. */
  lemma ClearCompletedConcat(a: seq<Todo>, b: seq<Todo>)
    ensures ClearCompleted(a + b) == ClearCompleted(a) + ClearCompleted(b)
  {
    FilterConcat(a, b, IsActive);
  }

  /** The completed count of a joined list is the sum of the parts' counts. */
  lemma CompletedCountConcat(a: seq<Todo>, b: seq<Todo>)
    ensures CompletedCount(a + b) == CompletedCount(a) + CompletedCount(b)
  {
    FilterConcat(a, b, IsCompleted);
  }

  /** A single item counts one exactly when it is completed. */
  lemma CompletedCountSingleton(t: Todo)
    ensures CompletedCount([t]) == if t.completed then 1 else 0
  {
    FilterSingleton(t, IsCompleted);
  }

  // ---------------------------------------------------------------------------
  // The title string

  /** The title can be read back: it determines both numbers it shows. */
  lemma ProgressTextInjective(c1: nat, t1: nat, c2: nat, t2: nat)
    requires ProgressText(c1, t1) == ProgressText(c2, t2)
    ensures c1 == c2 && t1 == t2
  {
    assert !IsDigit(TotalInfix[0]);
    NumeralsSplitUnique(DonePrefix, NatToDecimal(c1), TotalInfix, NatToDecimal(t1),
                        NatToDecimal(c2), NatToDecimal(t2));
    NatToDecimalInjective(c1, c2);
    NatToDecimalInjective(t1, t2);
  }

  /** Two lists get the same title exactly when they have the same completed
      count and the same length. */
  lemma DocumentTitleIff(a: seq<Todo>, b: seq<Todo>)
    ensures DocumentTitle(a) == DocumentTitle(b)
        <==> CompletedCount(a) == CompletedCount(b) && |a| == |b|
  {
    if DocumentTitle(a) == DocumentTitle(b) {
      ProgressTextInjective(CompletedCount(a), |a|, CompletedCount(b), |b|);
    }
  }

  // ---------------------------------------------------------------------------
  // Invariants of the list

  /** Every text is non-empty and has no surrounding whitespace. */
  predicate TextsTrimmed(todos: seq<Todo>) {
    forall i :: 0 <= i < |todos| ==> todos[i].text != [] && IsTrimmed(todos[i].text)
  }

  /** No two items share an id. */
  predicate UniqueIds(todos: seq<Todo>) {
    forall i, j :: 0 <= i < j < |todos| ==> todos[i].id != todos[j].id
  }

  /** Every id is below `bound`. */
  predicate IdsBelow(todos: seq<Todo>, bound: int) {
    forall i :: 0 <= i < |todos| ==> todos[i].id < bound
  }

  /** With unique ids, a present id is carried by exactly one item. */
  lemma UniqueCountId(todos: seq<Todo>, k: nat)
    requires UniqueIds(todos) && k < |todos|
    ensures CountId(todos, todos[k].id) == 1
  {
    var id := todos[k].id;
    CountIdSplit(todos, k, id);
    var a, b := todos[..k], todos[k + 1..];
    forall i | 0 <= i < |a| ensures a[i].id != id {
      assert a[i] == todos[i];
    }
    forall i | 0 <= i < |b| ensures b[i].id != id {
      assert b[i] == todos[k + 1 + i];
    }
  }

  /** The ids counted before, at and after position `k`. */
  lemma CountIdSplit(todos: seq<Todo>, k: nat, id: int)
    requires k < |todos|
    ensures CountId(todos, id) == CountId(todos[..k], id) + CountId([todos[k]], id) + CountId(todos[k + 1..], id)
  {
    var a, b := todos[..k], todos[k + 1..];
    assert todos == a + [todos[k]] + b;
    FilterConcat(a + [todos[k]], b, IdIs(id));
    FilterConcat(a, [todos[k]], IdIs(id));
  }

  /** A sub-list (a filter) of a list with proper texts has proper texts. */
  lemma FilterKeepsTextsTrimmed(todos: seq<Todo>, p: Todo -> bool)
    requires TextsTrimmed(todos)
    ensures TextsTrimmed(Filter(todos, p))
  {
  }

  /** A sub-list (a filter) of a list with unique ids has unique ids. */
  lemma {:induction false} FilterKeepsUniqueIds(todos: seq<Todo>, p: Todo -> bool)
    requires UniqueIds(todos)
    ensures UniqueIds(Filter(todos, p))
  {
    if todos != [] {
      var rest := Filter(todos[1..], p);
      FilterKeepsUniqueIds(todos[1..], p);
      forall i | 0 <= i < |rest| ensures rest[i].id != todos[0].id {
        var j :| 0 <= j < |todos[1..]| && todos[1..][j] == rest[i];
        assert todos[j + 1] == rest[i];
      }
    }
  }

  // ---------------------------------------------------------------------------
  // The whole session: a sequence of user actions

  /** The actions the user can take on the list. */
  datatype Action =
    | Add(text: string, newId: int)
    | Toggle(id: int)
    | Delete(id: int)
    | ClearDone

  /** One `setTodos` update. Only an addition can make the list longer, and
      then by one item appended after the old ones; a toggle keeps the
      length; a deletion or clearing never adds an item. */
  function Apply(todos: seq<Todo>, a: Action): (r: seq<Todo>)
    ensures a.Add? ==> |todos| <= |r| <= |todos| + 1 && r[..|todos|] == todos
    ensures a.Toggle? ==> |r| == |todos|
    ensures (a.Delete? || a.ClearDone?) ==> |r| <= |todos|
  {
    match a
    case Add(text, newId) => AddTodo(todos, text, newId)
    case Toggle(id) => ToggleTodo(todos, id)
    case Delete(id) => DeleteTodo(todos, id)
    case ClearDone => ClearCompleted(todos)
  }

  /** The list after the actions, one after another. It has at most one more
      item per action, and without additions it never grows. */
  function Run(todos: seq<Todo>, acts: seq<Action>): (r: seq<Todo>)
    ensures |r| <= |todos| + |acts|
    ensures (forall i :: 0 <= i < |acts| ==> !acts[i].Add?) ==> |r| <= |todos|
    decreases acts
  {
    if acts == [] then todos
    else
      assert forall i :: 0 <= i < |acts[1..]| ==> acts[1..][i] == acts[i + 1];
      Run(Apply(todos, acts[0]), acts[1..])
  }

  /** Running two batches of actions is running the first, then the second. */
  lemma {:induction false} RunConcat(todos: seq<Todo>, xs: seq<Action>, ys: seq<Action>)
    ensures Run(todos, xs + ys) == Run(Run(todos, xs), ys)
    decreases xs
  {
    if xs == [] {
      assert xs + ys == ys;
    } else {
      assert (xs + ys)[0] == xs[0];
      assert (xs + ys)[1..] == xs[1..] + ys;
      RunConcat(Apply(todos, xs[0]), xs[1..], ys);
    }
  }

  /** Every action keeps every text non-empty and trimmed. */
  lemma ApplyKeepsTextsTrimmed(todos: seq<Todo>, a: Action)
    requires TextsTrimmed(todos)
    ensures TextsTrimmed(Apply(todos, a))
  {
    match a
    case Add(text, newId) =>
    case Toggle(id) =>
    case Delete(id) => FilterKeepsTextsTrimmed(todos, IdIsNot(id));
    case ClearDone => FilterKeepsTextsTrimmed(todos, IsActive);
  }

  /** From the empty list (or any list with proper texts), no sequence of
      actions ever stores an empty or untrimmed text. */
  lemma {:induction false} RunKeepsTextsTrimmed(todos: seq<Todo>, acts: seq<Action>)
    requires TextsTrimmed(todos)
    ensures TextsTrimmed(Run(todos, acts))
    decreases acts
  {
    if acts != [] {
      ApplyKeepsTextsTrimmed(todos, acts[0]);
      RunKeepsTextsTrimmed(Apply(todos, acts[0]), acts[1..]);
    }
  }

  /** The ids given to `Add` actions are at least `bound` and strictly
      increasing, as a clock that ticks between two additions would give. */
  predicate AddIdsIncreasingFrom(acts: seq<Action>, bound: int) {
    && (forall i :: 0 <= i < |acts| && acts[i].Add? ==> acts[i].newId >= bound)
    && (forall i, j :: 0 <= i < j < |acts| && acts[i].Add? && acts[j].Add? ==>
          acts[i].newId < acts[j].newId)
  }

  /** Appending an item whose id is above every present id keeps ids unique. */
  lemma AddKeepsUniqueIds(todos: seq<Todo>, text: string, newId: int, bound: int)
    requires UniqueIds(todos) && IdsBelow(todos, bound) && newId >= bound
    ensures UniqueIds(AddTodo(todos, text, newId))
    ensures IdsBelow(AddTodo(todos, text, newId), newId + 1)
  {
    var r := AddTodo(todos, text, newId);
    if !AllWs(text) {
      forall i, j | 0 <= i < j < |r| ensures r[i].id != r[j].id {
        assert r[i] == todos[i];
        if j < |todos| {
          assert r[j] == todos[j];
        }
      }
      forall i | 0 <= i < |r| ensures r[i].id < newId + 1 {
        if i < |todos| {
          assert r[i] == todos[i];
        }
      }
    }
  }

  /** Toggling keeps every id where it was. */
  lemma ToggleKeepsIds(todos: seq<Todo>, id: int, bound: int)
    ensures UniqueIds(todos) ==> UniqueIds(ToggleTodo(todos, id))
    ensures IdsBelow(todos, bound) ==> IdsBelow(ToggleTodo(todos, id), bound)
  {
  }

  /** One action keeps ids unique and below the next bound. */
  lemma ApplyKeepsUniqueIds(todos: seq<Todo>, a: Action, bound: int)
    requires UniqueIds(todos) && IdsBelow(todos, bound)
    requires a.Add? ==> a.newId >= bound
    ensures UniqueIds(Apply(todos, a))
    ensures IdsBelow(Apply(todos, a), if a.Add? then a.newId + 1 else bound)
  {
    match a
    case Add(text, newId) => AddKeepsUniqueIds(todos, text, newId, bound);
    case Toggle(id) => ToggleKeepsIds(todos, id, bound);
    case Delete(id) => FilterKeepsUniqueIds(todos, IdIsNot(id));
    case ClearDone => FilterKeepsUniqueIds(todos, IsActive);
  }

  /** Ids stay unique when every new id is larger than every id before it.
      The code itself does not ensure this: `Date.now()` returns the same
      value for two additions within one millisecond. */
  lemma {:induction false} RunKeepsUniqueIds(todos: seq<Todo>, acts: seq<Action>, bound: int)
    requires UniqueIds(todos) && IdsBelow(todos, bound)
    requires AddIdsIncreasingFrom(acts, bound)
    ensures UniqueIds(Run(todos, acts))
    decreases acts
  {
    if acts != [] {
      var a := acts[0];
      var next := if a.Add? then a.newId + 1 else bound;
      ApplyKeepsUniqueIds(todos, a, bound);
      forall i | 0 <= i < |acts[1..]| && acts[1..][i].Add?
        ensures acts[1..][i].newId >= next
      {
        assert acts[1..][i] == acts[i + 1];
      }
      forall i, j | 0 <= i < j < |acts[1..]| && acts[1..][i].Add? && acts[1..][j].Add?
        ensures acts[1..][i].newId < acts[1..][j].newId
      {
        assert acts[1..][i] == acts[i + 1] && acts[1..][j] == acts[j + 1];
      }
      RunKeepsUniqueIds(Apply(todos, a), acts[1..], next);
    }
  }

  // ---------------------------------------------------------------------------
  // Scenarios

  /** Adding "buy milk" to the empty list gives one active item, and the
      title reads `완료 0 / 전체 1`. */
  lemma ScenarioFirstItem(newId: int)
    ensures AddTodo([], "buy milk", newId) == [Todo(newId, "buy milk", false)]
    ensures CompletedCount(AddTodo([], "buy milk", newId)) == 0
    ensures DocumentTitle(AddTodo([], "buy milk", newId)) == "완료 0 / 전체 1"
  {
    assert !IsWs("buy milk"[0]);
    assert !AllWs("buy milk");
    assert Trim("buy milk") == "buy milk";
  }

  /** Two additions with the same clock reading share an id, and toggling
      that id then completes both items. */
  lemma ScenarioSameInstant()
    ensures Run([], [Add("a", 7), Add("b", 7), Toggle(7)])
         == [Todo(7, "a", true), Todo(7, "b", true)]
  {
    var acts := [Add("a", 7), Add("b", 7), Toggle(7)];
    TrimOfTrimmed("a");
    TrimOfTrimmed("b");
    assert !IsWs('a') && !IsWs('b');
    var l1 := AddTodo([], "a", 7);
    assert l1 == [Todo(7, "a", false)];
    var l2 := AddTodo(l1, "b", 7);
    assert l2 == [Todo(7, "a", false), Todo(7, "b", false)];
    var l3 := ToggleTodo(l2, 7);
    assert l3 == [Todo(7, "a", true), Todo(7, "b", true)];
    assert acts[1..][1..][1..] == [];
    calc {
      Run([], acts);
      Run(l1, acts[1..]);
      Run(l2, acts[1..][1..]);
      Run(l3, acts[1..][1..][1..]);
      l3;
    }
  }
}
