/** Small shared datatypes: an optional value and the two-line alert that the
    screens show through `Alert.alert(title, message)`. */
module Wrappers {

  /** An optional value; `None` also stands for a form field that still holds "". */
  datatype Option<+T> = None | Some(value: T)

  /** The title and message of one `Alert.alert` call. */
  datatype Alert = Alert(title: string, message: string)
}
