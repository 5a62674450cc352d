// Types the other modules share.
module Wrappers {
  type byte = bv8

  datatype Option<+T> = None | Some(value: T)

  function Concat(pieces: seq<seq<byte>>): seq<byte> {
    if pieces == [] then [] else pieces[0] + Concat(pieces[1..])
  }
}
