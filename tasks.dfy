/**
 * Task values as the local data source and the add/edit screen exchange them.
 * `Option` stands in for Java's nullable references (`null` is `None`).
 */
module Tasks {

  datatype Option<+T> = None | Some(value: T)

  /** A to-do item: an opaque id, a title, a description and a completed flag. */
  datatype Task = Task(id: string, title: string, description: string, completed: bool)
}
