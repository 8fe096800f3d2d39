/** The nullable values of the planner: the edit index (`null` or a number)
    and the persisted list (absent key or a stored value). */
module Options {
  datatype Option<+T> = None | Some(value: T)
}
