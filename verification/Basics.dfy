/** Types shared by the models. */
module Basics {

  type byte = x: int | 0 <= x < 256
  type Bytes = seq<byte>

  /** An IPv4 address. */
  type Address = u: int | 0 <= u < 0x1_0000_0000

  /** What a connection takes of some bytes when it breaks after `room` of them. */
  function Cut(b: Bytes, room: nat): (r: Bytes)
    ensures |r| <= room && r <= b
  {
    if |b| <= room then b else b[..room]
  }

  lemma CutTwice(a: Bytes, b: Bytes, room: nat)
    ensures Cut(Cut(a, room) + b, room) == Cut(a + b, room)
  {
  }

  lemma Assoc<T>(a: seq<T>, b: seq<T>, c: seq<T>)
    ensures a + b + c == a + (b + c)
  {
  }

  lemma Assoc4<T>(a: seq<T>, b: seq<T>, c: seq<T>, d: seq<T>)
    ensures a + b + c + d == a + (b + c + d) == a + (b + (c + d))
  {
  }

  datatype Option<+T> = None | Some(value: T)

  /** A JavaScript call returns or throws. */
  datatype Result<+T> = Ok(value: T) | Thrown
}
