/**
 Bytes, 32-byte hashes, and the few wrappers every other module shares.

 A hash function is never given a body: it is a parameter `sha: Sha` of every definition that
 hashes, so each theorem holds for every function from byte strings to 32 bytes. Soundness
 results speak of collisions inside an explicit finite set of preimages, namely those that the
 computations named in the theorem really hash. "Somewhere two inputs collide" would be true of
 every such function and would say nothing.
 */
module Bytes {
  type byte = x: int | 0 <= x < 256
  type Bytes = seq<byte>
  type Hash = s: Bytes | |s| == 32 witness ZERO32
  type Sha = Bytes -> Hash

  const ZERO32: Bytes :=
    [0, 0, 0, 0, 0, 0, 0, 0, 0, 0, 0, 0, 0, 0, 0, 0,
     0, 0, 0, 0, 0, 0, 0, 0, 0, 0, 0, 0, 0, 0, 0, 0]
  const U64: nat := 0x1_0000_0000_0000_0000

  datatype Option<+T> = None | Some(value: T)

  datatype Result<+T, +E> = Ok(value: T) | Err(error: E) {
    predicate IsFailure() { Err? }
    function PropagateFailure<U>(): Result<U, E> requires Err? { Err(error) }
    function Extract(): T requires Ok? { value }
  }

}
