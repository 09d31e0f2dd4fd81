/** The optional value used for NMS output that may be absent ("no detections survived"). */
module Wrappers {

  datatype Option<+T> = None | Some(value: T)
}
