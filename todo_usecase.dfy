/** The todo service (internal/usecase/todo_usecase.go) over the in-memory
    todo store. */
module TodoUsecases {
  import opened Wrappers
  import opened Todos

  /** The status every new todo starts in. */
  const Pending: string := "pending"

  /** ListTodos: every stored todo once; the store is not changed. */
  method ListTodos(repo: TodoRepository) returns (list: seq<Todo>)
    requires repo.Valid()
    ensures |list| == |repo.todos|
    ensures forall t :: t in list <==> t.id in repo.todos && repo.todos[t.id] == t
  {
    list := repo.GetAll();
  }

  /** CreateTodo: a new pending todo with the given title under a fresh id. */
  method CreateTodo(repo: TodoRepository, title: string) returns (r: Todo)
    requires repo.Valid()
    modifies repo
    ensures repo.Valid()
    ensures r.title == title && r.status == Pending
    ensures r.id !in old(repo.todos)
    ensures repo.todos == old(repo.todos)[r.id := r]
  {
    r := repo.Create(Todo(0, title, Pending));
  }

  /** UpdateTodo: a missing id is an error and changes nothing; otherwise the
      todo keeps its id and takes the new title and status. */
  method UpdateTodo(repo: TodoRepository, id: int, title: string, status: string) returns (r: Result<Todo, string>)
    requires repo.Valid()
    modifies repo`todos
    ensures repo.Valid()
    ensures id !in old(repo.todos) ==> r == Failure(NotFound) && repo.todos == old(repo.todos)
    ensures id in old(repo.todos) ==>
      r == Success(Todo(id, title, status)) && repo.todos == old(repo.todos)[id := Todo(id, title, status)]
  {
    var found := repo.GetByID(id);
    if found.Failure? {
      return Failure(found.error);
    }
    var todo := found.value.(title := title, status := status);
    r := repo.Update(todo);
  }

  /** DeleteTodo: a missing id is an error and changes nothing; otherwise
      the id is gone and every other todo stays. */
  method DeleteTodo(repo: TodoRepository, id: int) returns (r: Outcome<string>)
    requires repo.Valid()
    modifies repo`todos
    ensures repo.Valid()
    ensures id !in old(repo.todos) ==> r == Fail(NotFound) && repo.todos == old(repo.todos)
    ensures id in old(repo.todos) ==> r == Pass && repo.todos == old(repo.todos) - {id}
  {
    if repo.GetByID(id).Failure? {
      return Fail(NotFound);
    }
    r := repo.Delete(id);
  }
}
