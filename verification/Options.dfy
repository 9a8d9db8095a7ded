/** Values that may be missing, and values that may be of any type. */
module Options {
  datatype Option<+T> = None | Some(value: T)

  /** A property of a parsed JSON object. */
  datatype Field = Missing | Text(text: string) | NonText
}
