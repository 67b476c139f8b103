/** Vocabulary shared by every part of the model. */
module Common {
  /** One octet, as an integer so that arithmetic on it is exact. */
  type byte = b: int | 0 <= b < 256

  datatype Option<+T> = None | Some(value: T)

  function Min(a: nat, b: nat): nat {
    if a <= b then a else b
  }

  function Max(a: nat, b: nat): nat {
    if a >= b then a else b
  }

  /** Overwrites the `|bytes|` bytes from `at` on. */
  method WriteBytes(buffer: array<byte>, at: nat, bytes: seq<byte>)
    requires at + |bytes| <= buffer.Length
    modifies buffer
    ensures buffer[..at] == old(buffer[..at]) && buffer[at..at + |bytes|] == bytes
  {
    for i := 0 to |bytes|
      invariant buffer[..at] == old(buffer[..at]) && buffer[at..at + i] == bytes[..i]
    {
      buffer[at + i] := bytes[i];
      assert buffer[at..at + (i + 1)] == buffer[at..at + i] + [bytes[i]];
    }
    assert bytes[..|bytes|] == bytes;
  }
}
