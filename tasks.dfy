/** The one entity of the planner: a task pinned to a weekday and an hour. */
module Tasks {

  /** A task record with its four string fields; `day` and `time` hold labels
      from the day and hour tables when the task was entered through the forms. */
  datatype Task = Task(title: string, description: string, day: string, time: string)

  /** The `name` attribute of the four form controls. */
  datatype Field = Title | Description | Day | Time

  /** The draft the add form starts from: empty texts, Monday ("Lunes"), midnight. */
  const EmptyDraft: Task := Task("", "", "Lunes", "00:00")

  /** The value of one field of a task. */
  function Get(t: Task, f: Field): string
  {
    match f
    case Title => t.title
    case Description => t.description
    case Day => t.day
    case Time => t.time
  }

  /** The task with one field replaced and the other three copied. */
  function WithField(t: Task, f: Field, v: string): (r: Task)
    ensures Get(r, f) == v
    ensures forall g: Field :: g != f ==> Get(r, g) == Get(t, g)
  {
    match f
    case Title => t.(title := v)
    case Description => t.(description := v)
    case Day => t.(day := v)
    case Time => t.(time := v)
  }

  /** A task is determined by its four fields, so setting a field to the value it
      already holds changes nothing, and setting it twice keeps the last value. */
  lemma WithFieldLaws(t: Task, f: Field, v: string, w: string)
    ensures WithField(t, f, Get(t, f)) == t
    ensures WithField(WithField(t, f, v), f, w) == WithField(t, f, w)
  {
  }
}
