/** The `None`-or-value results that the Python code returns (`dict.get`, `Optional[...]`). */
module Optional {

  datatype Option<+T> = None | Some(value: T)
}
