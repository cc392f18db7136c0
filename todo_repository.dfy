/** The in-memory todo store (internal/repository/todo_repository.go): a map
    from id to todo and the next id to hand out. */
module Todos {
  import opened Wrappers

  /** A todo item. */
  datatype Todo = Todo(id: int, title: string, status: string)

  /** The error text every failing operation returns. */
  const NotFound: string := "todo not found"

  /** A set of keys is empty or has a member. */
  lemma EmptyOrInhabited(keys: set<int>)
    ensures keys == {} || exists k :: k in keys
  {
    if forall k :: k !in keys {
      assert keys == {};
    }
  }

  class TodoRepository {
    var todos: map<int, Todo>
    var nextID: int

    /** Every key is an id already handed out, and every todo is stored under
        its own id. */
    ghost predicate Valid()
      reads this
    {
      && 1 <= nextID
      && forall k :: k in todos ==> 1 <= k < nextID && todos[k].id == k
    }

    /** NewTodoRepository: empty, the first id is 1. */
    constructor ()
      ensures Valid()
      ensures todos == map[] && nextID == 1
    {
      todos := map[];
      nextID := 1;
    }

    /** Every stored todo once, in the map's (unspecified) iteration order. */
    method GetAll() returns (list: seq<Todo>)
      requires Valid()
      ensures |list| == |todos|
      ensures forall t :: t in list <==> t.id in todos && todos[t.id] == t
      ensures forall i, j :: 0 <= i < j < |list| ==> list[i].id != list[j].id
    {
      list := [];
      var remaining := todos.Keys;
      while remaining != {}
        invariant remaining <= todos.Keys
        invariant |list| + |remaining| == |todos|
        invariant forall t :: t in list <==> t.id in todos.Keys - remaining && todos[t.id] == t
        invariant forall i, j :: 0 <= i < j < |list| ==> list[i].id != list[j].id
        decreases remaining
      {
        EmptyOrInhabited(remaining);
        var k :| k in remaining;
        assert forall t :: t in list ==> t.id != k;
        list := list + [todos[k]];
        remaining := remaining - {k};
      }
    }

    function GetByID(id: int): (r: Result<Todo, string>)
      reads this
      ensures r.Success? <==> id in todos
      ensures r.Success? ==> r.value == todos[id]
      ensures r.Failure? ==> r.error == NotFound
    {
      if id in todos then Success(todos[id]) else Failure(NotFound)
    }

    /** Store todo under a fresh id, which becomes its ID. */
    method Create(todo: Todo) returns (r: Todo)
      requires Valid()
      modifies this
      ensures Valid()
      ensures r == todo.(id := old(nextID))
      ensures old(nextID) !in old(todos)
      ensures todos == old(todos)[r.id := r] && nextID == old(nextID) + 1
      ensures GetByID(r.id) == Success(r)
    {
      r := todo.(id := nextID);
      todos := todos[nextID := r];
      nextID := nextID + 1;
    }

    /** Replace the todo stored under todo's id; a missing id is an error. */
    method Update(todo: Todo) returns (r: Result<Todo, string>)
      requires Valid()
      modifies this`todos
      ensures Valid()
      ensures todo.id !in old(todos) ==> r == Failure(NotFound) && todos == old(todos)
      ensures todo.id in old(todos) ==> r == Success(todo) && todos == old(todos)[todo.id := todo]
    {
      if todo.id !in todos {
        return Failure(NotFound);
      }
      todos := todos[todo.id := todo];
      r := Success(todo);
    }

    /** Remove the todo stored under id; a missing id is an error. */
    method Delete(id: int) returns (r: Outcome<string>)
      requires Valid()
      modifies this`todos
      ensures Valid()
      ensures id !in old(todos) ==> r == Fail(NotFound) && todos == old(todos)
      ensures id in old(todos) ==> r == Pass && todos == old(todos) - {id}
      ensures GetByID(id).Failure?
    {
      if id !in todos {
        return Fail(NotFound);
      }
      todos := todos - {id};
      r := Pass;
    }
  }
}
