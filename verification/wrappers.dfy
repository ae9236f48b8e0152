/**
 Small helper types shared by every module of the model: `Option` stands for a
 C pointer that may be NULL, `byte` for an unsigned char.
 */
module Wrappers {

  datatype Option<+T> = None | Some(value: T)

  type byte = x: int | 0 <= x < 256
}
