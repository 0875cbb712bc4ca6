/** The optional-value datatype shared by the model: `None` stands for every
    JavaScript value the handlers treat as "nothing there" (undefined, null, false). */
module Wrappers {

  datatype Option<+T> = None | Some(value: T)
}
