/** The optional value used for trigger anchors, pairing steps and readings. */
module Wrappers {

  datatype Option<+T> = None | Some(value: T)
}
