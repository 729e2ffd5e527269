/**
 * The local todo list (src/routes/todos.tsx): toggling a todo and adding one
 * from the input text, with ids assigned as the largest id plus one.
 */
module Todos {
  datatype Todo = Todo(id: int, text: string, completed: bool)

  /** The component state: the list and the text of the input box. */
  datatype State = State(todos: seq<Todo>, newText: string)

  /** The three todos the list starts with, and an empty input. */
  function InitialState(): (st: State)
    ensures |st.todos| == 3 && st.newText == ""
  {
    State([
      Todo(1, "Learn about Electric SQL", true),
      Todo(2, "Build a todo app", false),
      Todo(3, "Connect to Electric backend", false)
    ], "")
  }

  /** `toggleTodo(id)`: flip `completed` on every todo with that id. */
  function ToggleTodo(todos: seq<Todo>, id: int): (r: seq<Todo>)
    ensures |r| == |todos|
    ensures forall i :: 0 <= i < |todos| ==>
      r[i].id == todos[i].id && r[i].text == todos[i].text &&
      (r[i].completed <==> (todos[i].completed != (todos[i].id == id)))
  {
    seq(|todos|, i requires 0 <= i < |todos| =>
      if todos[i].id == id then todos[i].(completed := !todos[i].completed) else todos[i])
  }

  /** Toggling the same id twice restores the list. */
  lemma ToggleTwice(todos: seq<Todo>, id: int)
    ensures ToggleTodo(ToggleTodo(todos, id), id) == todos
  {
  }

  /** Toggling leaves every todo with another id as it was. */
  lemma ToggleOthersUnchanged(todos: seq<Todo>, id: int, i: int)
    requires 0 <= i < |todos| && todos[i].id != id
    ensures ToggleTodo(todos, id)[i] == todos[i]
  {
  }

  /** The characters `String.prototype.trim` removes: white space and line terminators. */
  predicate IsJsWhitespace(c: char)
  {
    var n := c as int;
    || 0x09 <= n <= 0x0D                    // tab, line feed, vertical tab, form feed, carriage return
    || n == 0x20 || n == 0xA0 || n == 0x1680 // space, no-break space, ogham space mark
    || 0x2000 <= n <= 0x200A                 // en quad .. hair space
    || n == 0x2028 || n == 0x2029            // line and paragraph separators
    || n == 0x202F || n == 0x205F || n == 0x3000
    || n == 0xFEFF                           // byte order mark
  }

  /** How many white-space characters `s` starts with. */
  function LeadingSpace(s: string): (n: nat)
    ensures n <= |s|
    ensures forall i :: 0 <= i < n ==> IsJsWhitespace(s[i])
    ensures n < |s| ==> !IsJsWhitespace(s[n])
  {
    if s != [] && IsJsWhitespace(s[0]) then 1 + LeadingSpace(s[1..]) else 0
  }

  /** How many white-space characters `s` ends with. */
  function TrailingSpace(s: string): (n: nat)
    ensures n <= |s|
    ensures forall i :: |s| - n <= i < |s| ==> IsJsWhitespace(s[i])
    ensures n < |s| ==> !IsJsWhitespace(s[|s| - n - 1])
  {
    if s != [] && IsJsWhitespace(s[|s| - 1]) then 1 + TrailingSpace(s[..|s| - 1]) else 0
  }

  /** `s.trim()`: white space removed from both ends. */
  function Trim(s: string): string
  {
    var t := s[LeadingSpace(s)..];
    t[..|t| - TrailingSpace(t)]
  }

  /** Once a non-white-space character is left at the front, trimming keeps it. */
  lemma TrimKeepsFirstVisible(s: string)
    ensures LeadingSpace(s) < |s| ==> Trim(s) != ""
  {
    var a := LeadingSpace(s);
    if a < |s| {
      var t := s[a..];
      assert t[0] == s[a];
    }
  }

  /** The text is refused exactly when it is empty or only white space. */
  lemma TrimEmptyIff(s: string)
    ensures Trim(s) == "" <==> forall i :: 0 <= i < |s| ==> IsJsWhitespace(s[i])
  {
    TrimKeepsFirstVisible(s);
  }

  function Ids(todos: seq<Todo>): (ids: seq<int>)
    ensures |ids| == |todos| && forall i :: 0 <= i < |todos| ==> ids[i] == todos[i].id
  {
    seq(|todos|, i requires 0 <= i < |todos| => todos[i].id)
  }

  /** `Math.max(...todos.map(t => t.id))` on a non-empty list. */
  function MaxId(todos: seq<Todo>): (m: int)
    requires |todos| > 0
    ensures m in Ids(todos)
    ensures forall i :: 0 <= i < |todos| ==> todos[i].id <= m
  {
    if |todos| == 1 then todos[0].id
    else
      var rest := MaxId(todos[1..]);
      assert Ids(todos) == [todos[0].id] + Ids(todos[1..]);
      if todos[0].id >= rest then todos[0].id else rest
  }

  /**
   * `addTodo`: a blank input changes nothing; otherwise one todo with the
   * untrimmed text, not completed, and the next id is appended, and the input
   * is cleared.
   */
  function AddTodo(st: State): (r: State)
    requires |st.todos| > 0
    ensures Trim(st.newText) == "" ==> r == st
    ensures Trim(st.newText) != "" ==>
      && r.newText == ""
      && |r.todos| == |st.todos| + 1
      && r.todos[..|st.todos|] == st.todos
      && r.todos[|st.todos|].text == st.newText
      && !r.todos[|st.todos|].completed
      && r.todos[|st.todos|].id == MaxId(st.todos) + 1
      && forall i :: 0 <= i < |st.todos| ==> st.todos[i].id < r.todos[|st.todos|].id
  {
    if Trim(st.newText) == "" then st
    else
      var todo := Todo(MaxId(st.todos) + 1, st.newText, false);
      assert (st.todos + [todo])[..|st.todos|] == st.todos;
      State(st.todos + [todo], "")
  }

  ghost predicate DistinctIds(todos: seq<Todo>)
  {
    forall i, j :: 0 <= i < j < |todos| ==> todos[i].id != todos[j].id
  }

  /** Adding keeps ids distinct, since the new id exceeds every existing one. */
  lemma AddKeepsDistinct(st: State)
    requires |st.todos| > 0 && DistinctIds(st.todos)
    ensures DistinctIds(AddTodo(st).todos)
  {
    var r := AddTodo(st);
    if Trim(st.newText) != "" {
      forall i, j | 0 <= i < j < |r.todos| ensures r.todos[i].id != r.todos[j].id {
        assert r.todos[i] == st.todos[i];
        if j < |st.todos| {
          assert r.todos[j] == st.todos[j];
        }
      }
    }
  }

  /** Adding the next todo to the initial list gives it id 4. */
  lemma AddToInitial(text: string)
    requires Trim(text) != ""
    ensures AddTodo(InitialState().(newText := text)).todos[3] == Todo(4, text, false)
  {
    var st := InitialState().(newText := text);
    assert MaxId(st.todos[1..]) == 3 by {
      assert st.todos[1..][1..] == [Todo(3, "Connect to Electric backend", false)];
    }
  }

  /** The list never becomes empty: it starts with three todos and neither operation shrinks it. */
  lemma NeverEmpty(st: State, id: int)
    requires |st.todos| > 0
    ensures |ToggleTodo(st.todos, id)| > 0 && |AddTodo(st).todos| > 0
  {
  }

  lemma InitialDistinct()
    ensures DistinctIds(InitialState().todos)
  {
  }
}
