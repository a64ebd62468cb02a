/** The generator's static byte buffer and its write position. */
module CodeBuffer {
  import opened Bytes

  const BUFFER_SIZE: nat := 2048

  class Buffer {
    const code: array<Byte>
    var index: nat
    /** The bytes written since the last `Reset`. */
    ghost var emitted: seq<Byte>

    ghost predicate Valid()
      reads this, code
    {
      index == |emitted| <= code.Length == BUFFER_SIZE && code[..index] == emitted
    }

    constructor ()
      ensures Valid() && fresh(code) && emitted == []
    {
      code := new Byte[BUFFER_SIZE];
      index, emitted := 0, [];
    }

    method Reset()
      requires Valid()
      modifies this
      ensures Valid() && emitted == []
    {
      index, emitted := 0, [];
    }

    /** `code[index++] = b` */
    method Emit(b: Byte)
      requires Valid() && |emitted| < BUFFER_SIZE
      modifies this, code
      ensures Valid() && emitted == old(emitted) + [b]
    {
      code[index] := b;
      index, emitted := index + 1, emitted + [b];
    }

    /** Stores the `size` low-order bytes of `v` at `code + index` and steps over them. */
    method EmitWord(v: nat, size: nat)
      requires Valid() && |emitted| + size <= BUFFER_SIZE
      modifies this, code
      ensures Valid() && emitted == old(emitted) + Le(v, size)
    {
      var bytes := Le(v, size);
      forall k | 0 <= k < size {
        code[index + k] := bytes[k];
      }
      index, emitted := index + size, emitted + bytes;
      assert code[index - size..index] == bytes;
    }

    /** The finished code, in memory of its own. */
    method Copy() returns (instance: array<Byte>)
      requires Valid()
      ensures fresh(instance) && instance[..] == emitted
    {
      instance := new Byte[index];
      forall k | 0 <= k < index {
        instance[k] := code[k];
      }
    }
  }
}
