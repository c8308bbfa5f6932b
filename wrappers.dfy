/** The optional value used wherever the scripts return "nothing found" (a failed
    `re.search`, a missing dictionary, an early `return`). */
module Wrappers {

  datatype Option<+T> = None | Some(value: T)
}
