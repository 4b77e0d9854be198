/**
 * `struct abuf`: the output buffer the screen is drawn into before one
 * `write` sends it to the terminal.
 */
module AppendBuffers {
  import opened Bytes

  // Solver aids, modelling nothing of the program: appending pieces one after
  // another appends their concatenation (associativity of `+` on sequences).

  lemma Concat3(c: seq<Byte>, a1: seq<Byte>, a2: seq<Byte>, a3: seq<Byte>)
    ensures c + a1 + a2 + a3 == c + (a1 + a2 + a3)
  {
  }

  lemma Concat4(c: seq<Byte>, a1: seq<Byte>, a2: seq<Byte>, a3: seq<Byte>, a4: seq<Byte>)
    ensures c + a1 + a2 + a3 + a4 == c + (a1 + a2 + a3 + a4)
  {
  }

  lemma Concat6(c: seq<Byte>, a1: seq<Byte>, a2: seq<Byte>, a3: seq<Byte>, a4: seq<Byte>, a5: seq<Byte>, a6: seq<Byte>)
    ensures c + a1 + a2 + a3 + a4 + a5 + a6 == c + (a1 + a2 + a3 + a4 + a5 + a6)
  {
  }

  class AppendBuffer {
    var buffer: array<Byte>
    var length: nat

    /** The allocation is exactly as long as the bytes it holds, as `realloc` makes it. */
    predicate Valid()
      reads this
    {
      length == buffer.Length
    }

    function Contents(): (c: seq<Byte>)
      reads this, buffer
      requires Valid()
      ensures |c| == length
    {
      buffer[..]
    }

    /** `ABUF_INIT`: no bytes. */
    constructor ()
      ensures Valid() && Contents() == []
    {
      buffer := new Byte[0];
      length := 0;
    }

    /**
     * `abufAppend`: grow the allocation to length + |s| keeping the bytes held,
     * copy `s` after them and count them.
     */
    method Append(s: seq<Byte>)
      requires Valid()
      modifies this
      ensures Valid() && fresh(buffer)
      ensures Contents() == old(Contents()) + s
    {
      var grown := new Byte[length + |s|];
      CopyBytes(grown, 0, buffer[..]);
      CopyBytes(grown, length, s);
      buffer := grown;
      length := length + |s|;
    }
  }
}
