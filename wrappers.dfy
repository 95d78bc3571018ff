/** The optional values the moderation pipeline passes around: a `src`
    attribute that may be missing, a risk level the service may leave out. */
module Wrappers {

  datatype Option<+T> = None | Some(value: T)
}
