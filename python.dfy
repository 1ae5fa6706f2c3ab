/** The few Python notions the bot and the servers depend on: an optional
    value, an arbitrary argument value with its truthiness, and the text an
    f-string gives for it. */
module Python {

  /** `None` or a present value. */
  datatype Option<+T> = None | Some(value: T)

  /** A Python value handed to a method whose argument is not typed:
      `None`, a `str`, or any other object. `Other` records whether the
      object is truthy and the text `str()` gives for it. */
  datatype Value = PyNone | Str(s: string) | Other(truthy: bool, text: string)

  /** Python truthiness: `None` and the empty string are falsy. */
  predicate Truthy(v: Value)
  {
    match v
    case PyNone => false
    case Str(s) => s != ""
    case Other(t, _) => t
  }

  /** The text the f-string `f'{v}'` produces. */
  function Render(v: Value): string
  {
    match v
    case PyNone => "None"
    case Str(s) => s
    case Other(_, text) => text
  }
}
