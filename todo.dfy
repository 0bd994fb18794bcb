/**
 * The list operations of `TodoApp`. Each one replaces the list wholesale
 * with a new one built by spread, `map` or `filter`; the id of a new todo
 * (`Date.now().toString()`) is a parameter.
 */
module Todo {

  datatype Todo = Todo(id: string, text: string, completed: bool)

  /** The component's `todos` and `newTodo` state cells. */
  datatype TodoApp = TodoApp(todos: seq<Todo>, newTodo: string)

  // ---------------------------------------------------------------------
  // `String.prototype.trim`
  // ---------------------------------------------------------------------

  /** ECMAScript WhiteSpace and LineTerminator code points: what `trim` removes. */
  predicate IsJsWhitespace(c: char) {
    c == '\t' || c == '\n' || c == '\U{000B}' || c == '\U{000C}' || c == '\r' || c == ' ' ||
    c == '\U{00A0}' || c == '\U{1680}' || ('\U{2000}' <= c <= '\U{200A}') ||
    c == '\U{2028}' || c == '\U{2029}' || c == '\U{202F}' || c == '\U{205F}' ||
    c == '\U{3000}' || c == '\U{FEFF}'
  }

  /** The input is empty or whitespace only. */
  predicate IsBlank(s: string) {
    forall i | 0 <= i < |s| :: IsJsWhitespace(s[i])
  }

  /** Leading whitespace removed: the longest suffix that starts with a non-space. */
  function TrimStart(s: string): (r: string)
    ensures |r| <= |s| && r == s[|s| - |r|..]
    ensures forall i | 0 <= i < |s| - |r| :: IsJsWhitespace(s[i])
    ensures r != [] ==> !IsJsWhitespace(r[0])
    decreases |s|
  {
    if |s| > 0 && IsJsWhitespace(s[0]) then
      var r := TrimStart(s[1..]);
      assert s[1..][|s| - 1 - |r|..] == s[|s| - |r|..];
      r
    else s
  }

  /** Trailing whitespace removed: the longest prefix that ends with a non-space. */
  function TrimEnd(s: string): (r: string)
    ensures |r| <= |s| && r == s[..|r|]
    ensures forall i | |r| <= i < |s| :: IsJsWhitespace(s[i])
    ensures r != [] ==> !IsJsWhitespace(r[|r| - 1])
    decreases |s|
  {
    if |s| > 0 && IsJsWhitespace(s[|s| - 1]) then
      var r := TrimEnd(s[..|s| - 1]);
      assert s[..|s| - 1][..|r|] == s[..|r|];
      r
    else s
  }

  /** `r` is `s` with the first `k` characters and a tail cut off, both whitespace only. */
  predicate StripsTo(s: string, r: string, k: nat) {
    k + |r| <= |s| && r == s[k..k + |r|] && IsBlank(s[..k]) && IsBlank(s[k + |r|..])
  }

  /**
   * `String.prototype.trim`: the contiguous piece of the input that starts
   * where the leading whitespace ends, with only whitespace cut off on
   * either side, and that neither starts nor ends with whitespace.
   */
  function Trim(s: string): (r: string)
    ensures StripsTo(s, r, |s| - |TrimStart(s)|)
    ensures r != [] ==> !IsJsWhitespace(r[0]) && !IsJsWhitespace(r[|r| - 1])
  {
    StripsBothEnds(s, TrimStart(s), TrimEnd(TrimStart(s)));
    TrimEnd(TrimStart(s))
  }

  /**
   * A whitespace-only prefix cut off `s` leaves `t`, and a whitespace-only
   * suffix cut off `t` leaves `r`: `r` is `s` stripped on both sides.
   */
  lemma StripsBothEnds(s: string, t: string, r: string)
    requires |t| <= |s| && t == s[|s| - |t|..] && forall i | 0 <= i < |s| - |t| :: IsJsWhitespace(s[i])
    requires |r| <= |t| && r == t[..|r|] && forall i | |r| <= i < |t| :: IsJsWhitespace(t[i])
    requires t != [] ==> !IsJsWhitespace(t[0])
    requires r != [] ==> !IsJsWhitespace(r[|r| - 1])
    ensures StripsTo(s, r, |s| - |t|)
    ensures r != [] ==> !IsJsWhitespace(r[0]) && !IsJsWhitespace(r[|r| - 1])
  {
    var k: nat := |s| - |t|;
    assert r == s[k..k + |r|];
    assert s[k + |r|..] == t[|r|..];
    assert IsBlank(s[..k]) by {
      forall i | 0 <= i < k ensures IsJsWhitespace(s[..k][i]) {
        assert s[..k][i] == s[i];
      }
    }
    if r != [] {
      assert r[0] == t[0];
    }
  }

  lemma {:induction false} TrimStartEmpty(s: string)
    ensures TrimStart(s) == "" <==> IsBlank(s)
    ensures TrimStart(s) != "" ==> !IsJsWhitespace(TrimStart(s)[0])
    decreases |s|
  {
    if |s| > 0 && IsJsWhitespace(s[0]) {
      TrimStartEmpty(s[1..]);
      if IsBlank(s[1..]) {
        forall i | 0 <= i < |s| ensures IsJsWhitespace(s[i]) {
          if i > 0 { assert s[i] == s[1..][i - 1]; }
        }
      }
    }
  }

  lemma {:induction false} TrimEndKeepsFirst(s: string)
    requires |s| > 0 && !IsJsWhitespace(s[0])
    ensures TrimEnd(s) != ""
    decreases |s|
  {
    if IsJsWhitespace(s[|s| - 1]) {
      TrimEndKeepsFirst(s[..|s| - 1]);
    }
  }

  /** `s.trim() === ""` exactly when `s` is empty or whitespace only. */
  lemma TrimEmptyIffBlank(s: string)
    ensures Trim(s) == "" <==> IsBlank(s)
  {
    TrimStartEmpty(s);
    if TrimStart(s) != "" {
      TrimEndKeepsFirst(TrimStart(s));
    }
  }

  // ---------------------------------------------------------------------
  // `Array.prototype.filter`
  // ---------------------------------------------------------------------

  function Filter<X>(s: seq<X>, keep: X -> bool): (r: seq<X>)
    ensures |r| <= |s|
    ensures forall i | 0 <= i < |r| :: keep(r[i])
    decreases |s|
  {
    if s == [] then []
    else (if keep(s[0]) then [s[0]] else []) + Filter(s[1..], keep)
  }

  /** `a` is `b` with some elements left out, the rest in their order. */
  ghost predicate IsSubsequence<X>(a: seq<X>, b: seq<X>)
    decreases |b|
  {
    if a == [] then true
    else if b == [] then false
    else if a[0] == b[0] then IsSubsequence(a[1..], b[1..])
    else IsSubsequence(a, b[1..])
  }

  /** Leaving out one more element of `b` in front keeps `a` a subsequence. */
  lemma {:induction false} SubsequenceOfTail<X>(a: seq<X>, b: seq<X>)
    requires b != [] && IsSubsequence(a, b[1..])
    ensures IsSubsequence(a, b)
    decreases |b|, 0
  {
    if a != [] && a[0] == b[0] {
      SubsequenceWeaken(a, b[1..]);
    }
  }

  /** Leaving out the first element of `a` keeps it a subsequence. */
  lemma {:induction false} SubsequenceWeaken<X>(a: seq<X>, b: seq<X>)
    requires a != [] && IsSubsequence(a, b)
    ensures IsSubsequence(a[1..], b)
    decreases |b|, 1
  {
    if a[1..] != [] {
      if a[0] != b[0] {
        SubsequenceWeaken(a, b[1..]);
      }
      SubsequenceOfTail(a[1..], b);
    }
  }

  lemma {:induction false} FilterIsSubsequence<X>(s: seq<X>, keep: X -> bool)
    ensures IsSubsequence(Filter(s, keep), s)
    decreases |s|
  {
    if s != [] {
      FilterIsSubsequence(s[1..], keep);
      var rest := Filter(s[1..], keep);
      if keep(s[0]) {
        assert Filter(s, keep) == [s[0]] + rest;
        assert ([s[0]] + rest)[1..] == rest;
      } else {
        assert Filter(s, keep) == rest;
        SubsequenceOfTail(rest, s);
      }
    }
  }

  /** `filter` keeps every element the predicate accepts, as often as it occurs, and no other. */
  lemma {:induction false} FilterCount<X>(s: seq<X>, keep: X -> bool, x: X)
    ensures multiset(Filter(s, keep))[x] == if keep(x) then multiset(s)[x] else 0
    decreases |s|
  {
    if s != [] {
      FilterCount(s[1..], keep, x);
      assert s == [s[0]] + s[1..];
      assert multiset(s) == multiset([s[0]]) + multiset(s[1..]);
    }
  }

  /** Every accepted element of the input survives the filter. */
  lemma {:induction false} FilterKeepsAccepted<X>(s: seq<X>, keep: X -> bool)
    ensures forall x | x in s && keep(x) :: x in Filter(s, keep)
    decreases |s|
  {
    if s != [] {
      FilterKeepsAccepted(s[1..], keep);
      forall x | x in s && keep(x) ensures x in Filter(s, keep) {
        if x != s[0] { assert x in s[1..]; }
      }
    }
  }

  /** Filtering twice with the same predicate is filtering once. */
  lemma {:induction false} FilterIdempotent<X>(s: seq<X>, keep: X -> bool)
    ensures Filter(Filter(s, keep), keep) == Filter(s, keep)
    decreases |s|
  {
    if s != [] {
      FilterIdempotent(s[1..], keep);
      FilterAppend([s[0]], Filter(s[1..], keep), keep);
      if keep(s[0]) {
        assert Filter([s[0]], keep) == [s[0]];
      } else {
        assert Filter(s, keep) == Filter(s[1..], keep);
      }
    }
  }

  lemma {:induction false} FilterAppend<X>(a: seq<X>, b: seq<X>, keep: X -> bool)
    ensures Filter(a + b, keep) == Filter(a, keep) + Filter(b, keep)
    decreases |a|
  {
    if a == [] {
      assert a + b == b;
    } else {
      assert (a + b)[1..] == a[1..] + b;
      FilterAppend(a[1..], b, keep);
    }
  }

  /** The two parts a predicate splits a list into add up to the whole list. */
  lemma {:induction false} FilterComplement<X>(s: seq<X>, keep: X -> bool, drop: X -> bool)
    requires forall x :: drop(x) == !keep(x)
    ensures |Filter(s, keep)| + |Filter(s, drop)| == |s|
    decreases |s|
  {
    if s != [] {
      FilterComplement(s[1..], keep, drop);
    }
  }

  // ---------------------------------------------------------------------
  // The operations
  // ---------------------------------------------------------------------

  function IsCompleted(t: Todo): bool {
    t.completed
  }

  function IsActive(t: Todo): bool {
    !t.completed
  }

  function HasOtherId(id: string): Todo -> bool {
    (t: Todo) => t.id != id
  }

  /**
   * `addTodo`: nothing happens exactly when the input is blank; otherwise
   * one todo with the untrimmed text, not completed, goes at the end and
   * the input is cleared.
   */
  function AddTodo(app: TodoApp, id: string): (r: TodoApp)
    ensures r == app <==> IsBlank(app.newTodo)
    ensures !IsBlank(app.newTodo) ==>
              |r.todos| == |app.todos| + 1 && r.todos[..|app.todos|] == app.todos &&
              r.todos[|app.todos|] == Todo(id, app.newTodo, false) && r.newTodo == ""
  {
    TrimEmptyIffBlank(app.newTodo);
    if Trim(app.newTodo) == "" then app
    else TodoApp(app.todos + [Todo(id, app.newTodo, false)], "")
  }

  /** `toggleTodo`: flips `completed` on the todos with that id; all else stays. */
  function ToggleTodo(todos: seq<Todo>, id: string): (r: seq<Todo>)
    ensures |r| == |todos|
    ensures forall i | 0 <= i < |r| ::
              r[i].id == todos[i].id && r[i].text == todos[i].text &&
              r[i].completed == (if todos[i].id == id then !todos[i].completed else todos[i].completed)
  {
    seq(|todos|, i requires 0 <= i < |todos| =>
      if todos[i].id == id then todos[i].(completed := !todos[i].completed) else todos[i])
  }

  /** Toggling the same id twice restores the list. */
  lemma ToggleTwice(todos: seq<Todo>, id: string)
    ensures ToggleTodo(ToggleTodo(todos, id), id) == todos
  {
    var r := ToggleTodo(ToggleTodo(todos, id), id);
    assert forall i | 0 <= i < |todos| :: r[i] == todos[i];
  }

  /**
   * `deleteTodo`: no todo with that id is left, every todo with another id
   * is kept, and the survivors stay in their order.
   */
  function DeleteTodo(todos: seq<Todo>, id: string): (r: seq<Todo>)
    ensures forall i | 0 <= i < |r| :: r[i].id != id
    ensures forall t | t in todos && t.id != id :: t in r
    ensures IsSubsequence(r, todos)
  {
    FilterKeepsAccepted(todos, HasOtherId(id));
    FilterIsSubsequence(todos, HasOtherId(id));
    Filter(todos, HasOtherId(id))
  }

  /**
   * After `deleteTodo` every todo with another id is still there as often
   * as before, and none with that id is.
   */
  lemma DeleteTodoSpec(todos: seq<Todo>, id: string, t: Todo)
    ensures multiset(DeleteTodo(todos, id))[t] == if t.id != id then multiset(todos)[t] else 0
  {
    FilterCount(todos, HasOtherId(id), t);
  }

  /**
   * `clearCompleted`: no completed todo is left, every incomplete one is
   * kept, and they stay in their order.
   */
  function ClearCompleted(todos: seq<Todo>): (r: seq<Todo>)
    ensures forall i | 0 <= i < |r| :: !r[i].completed
    ensures forall t | t in todos && !t.completed :: t in r
    ensures IsSubsequence(r, todos)
  {
    FilterKeepsAccepted(todos, IsActive);
    FilterIsSubsequence(todos, IsActive);
    Filter(todos, IsActive)
  }

  /**
   * `clearCompleted` keeps every incomplete todo as often as it occurs and
   * no completed one, and applying it twice equals applying it once.
   */
  lemma ClearCompletedSpec(todos: seq<Todo>, t: Todo)
    ensures multiset(ClearCompleted(todos))[t] == if t.completed then 0 else multiset(todos)[t]
    ensures ClearCompleted(ClearCompleted(todos)) == ClearCompleted(todos)
  {
    FilterCount(todos, IsActive, t);
    FilterIdempotent(todos, IsActive);
  }

  /**
   * The footer's `todos.filter(t => t.completed).length`: at most the
   * total, and together with what `clearCompleted` keeps it makes up the
   * whole list.
   */
  function CompletedCount(todos: seq<Todo>): (n: nat)
    ensures n <= |todos|
    ensures n + |ClearCompleted(todos)| == |todos|
  {
    FilterComplement(todos, IsCompleted, IsActive);
    |Filter(todos, IsCompleted)|
  }

  /**
   * The footer's `todos.some(t => t.completed)`: "Clear completed" is
   * offered exactly when the completed count is positive.
   */
  predicate ShowClearCompleted(todos: seq<Todo>)
    ensures ShowClearCompleted(todos) <==> CompletedCount(todos) > 0
  {
    SomeCompletedIffCount(todos);
    exists i | 0 <= i < |todos| :: todos[i].completed
  }

  /** Some todo is completed exactly when the filter for completed ones is non-empty. */
  lemma {:induction false} SomeCompletedIffCount(todos: seq<Todo>)
    ensures (exists i | 0 <= i < |todos| :: todos[i].completed) <==> |Filter(todos, IsCompleted)| > 0
    decreases |todos|
  {
    if todos != [] {
      SomeCompletedIffCount(todos[1..]);
      if exists i | 0 <= i < |todos[1..]| :: todos[1..][i].completed {
        var i :| 0 <= i < |todos[1..]| && todos[1..][i].completed;
        assert todos[i + 1].completed;
      }
      if (exists i | 0 <= i < |todos| :: todos[i].completed) && !todos[0].completed {
        var i :| 0 <= i < |todos| && todos[i].completed;
        assert todos[1..][i - 1].completed;
      }
    }
  }
}
