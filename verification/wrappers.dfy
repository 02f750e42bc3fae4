/** The optional-value type used where the repository answers "absent". */
module Wrappers {

  /** `None` stands for the C# `null` a repository lookup returns for a missing id. */
  datatype Option<+T> = None | Some(value: T)
}
