/** The optional value used throughout the model: `None` stands for a JavaScript
    value that is absent, or for a step that would throw. */
module Wrappers {

  datatype Option<+T> = None | Some(value: T)

}
