/** The task service: every operation is scoped to the calling user and runs
    against the service's task table. */
module TasksServiceModel {
  import opened TaskRepository

  /** The exceptions the service raises. */
  datatype ServiceError = NotFound | InternalServerError

  datatype Result<T> = Ok(value: T) | Err(error: ServiceError)

  /** The service over its own in-memory task table. `nextId` stands for the
      store's id generator: every id in use lies below it. */
  class TasksService {
    var tasks: Table
    var nextId: TaskId

    ghost predicate Valid()
      reads this
    {
      && WellKeyed(tasks)
      && forall id :: id in tasks ==> id < nextId
    }

    constructor ()
      ensures Valid() && tasks == map[]
    {
      tasks := map[];
      nextId := 0;
    }

    /** Whether the table holds a task with this id owned by this user. */
    ghost predicate Owns(id: TaskId, user: User)
      reads this
    {
      id in tasks && OwnedBy(tasks[id], user)
    }

    /** Lists the caller's tasks that pass the given filters; `storeFails`
        stands for the query itself failing in the store. */
    function GetAllTasks(filter: GetTasksFilter, user: User, storeFails: bool): (r: Result<set<Task>>)
      reads this
      ensures r.Err? <==> storeFails
      ensures r.Err? ==> r.error == InternalServerError
      ensures r.Ok? ==> r.value == Query(tasks, filter, user)
    {
      if storeFails then Err(InternalServerError) else Ok(Query(tasks, filter, user))
    }

    /** The caller's task with this id; NotFound when there is none, also when
        the id belongs to another user's task. */
    function GetTaskById(id: TaskId, user: User): (r: Result<Task>)
      reads this
      requires Valid()
      ensures r.Ok? <==> Owns(id, user)
      ensures r.Ok? ==> r.value == tasks[id]
      ensures r.Err? ==> r.error == NotFound
    {
      match FindOneBy(tasks, id, user)
      case None => Err(NotFound)
      case Some(t) => Ok(t)
    }

    /** Deletes the caller's task with this id; NotFound, with the table as it
        was, when no row matched. */
    method DeleteTask(id: TaskId, user: User) returns (r: Result<()>)
      requires Valid()
      modifies this`tasks
      ensures Valid()
      ensures r.Ok? <==> old(Owns(id, user))
      ensures r.Ok? ==> tasks == old(tasks) - {id}
      ensures r.Err? ==> r.error == NotFound && tasks == old(tasks)
      ensures GetTaskById(id, user) == Err(NotFound)
    {
      var result := DeleteBy(tasks, id, user);
      tasks := result.table;
      if result.affected == 0 {
        r := Err(NotFound);
      } else {
        r := Ok(());
      }
    }

    /** Creates an OPEN task owned by the caller under a fresh id, and
        returns it; every existing task stays as it was. */
    method CreateTask(title: string, description: string, user: User) returns (task: Task)
      requires Valid()
      modifies this
      ensures Valid()
      ensures task.id !in old(tasks)
      ensures task.title == title && task.description == description
      ensures task.status == Open && OwnedBy(task, user)
      ensures tasks == old(tasks)[task.id := task]
      ensures GetTaskById(task.id, user) == Ok(task)
    {
      task := Task(nextId, title, description, Open, user.id);
      tasks := Save(tasks, task);
      nextId := nextId + 1;
    }

    /** Sets the status of the caller's task with this id, from whatever it
        was, and returns the updated task; NotFound, with the table as it
        was, when the caller has no such task. */
    method UpdateTaskStatus(id: TaskId, status: TaskStatus, user: User) returns (r: Result<Task>)
      requires Valid()
      modifies this`tasks
      ensures Valid()
      ensures r.Ok? <==> old(Owns(id, user))
      ensures r.Ok? ==> r.value == old(tasks[id]).(status := status) && tasks == old(tasks)[id := r.value]
      ensures r.Err? ==> r.error == NotFound && tasks == old(tasks)
      ensures r.Ok? ==> GetTaskById(id, user) == r
    {
      var found := GetTaskById(id, user);
      if found.Err? {
        return Err(found.error);
      }
      var task := found.value.(status := status);
      tasks := Save(tasks, task);
      r := Ok(task);
    }
  }
}
