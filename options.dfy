/** The `None`-or-value wrapper used for every nullable field of the dashboard. */
module Options {
  datatype Option<+T> = None | Some(value: T)
}
