/** An optional value: `None` stands for .NET's `null` (a `Nullable<T>` without a value). */
module Wrappers {

  datatype Option<+T> = None | Some(value: T)
}
