// Bytes, byte strings, and the few sequence operations the other modules share.
module Bytes {

  type byte = bv8

  datatype Option<+T> = None | Some(value: T)

  /** `mem` with `data` copied over it from index `at` on. */
  function Splice(mem: seq<byte>, at: nat, data: seq<byte>): (r: seq<byte>)
    requires at + |data| <= |mem|
    ensures |r| == |mem|
    ensures r[at..at + |data|] == data
    ensures forall i :: 0 <= i < at || at + |data| <= i < |mem| ==> r[i] == mem[i]
  {
    mem[..at] + data + mem[at + |data|..]
  }

  /** All the parts, one after the other. */
  function Flatten<T>(parts: seq<seq<T>>): seq<T> {
    if parts == [] then [] else parts[0] + Flatten(parts[1..])
  }

  lemma {:induction false} FlattenAppend<T>(a: seq<seq<T>>, b: seq<seq<T>>)
    ensures Flatten(a + b) == Flatten(a) + Flatten(b)
  {
    if a == [] {
      assert a + b == b;
    } else {
      assert (a + b)[1..] == a[1..] + b;
      FlattenAppend(a[1..], b);
    }
  }
}
