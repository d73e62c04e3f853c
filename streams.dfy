/**
 * The std::stringstream that the text parser reads from and the serializer
 * writes to: a character buffer with a read position. Reading past the end
 * yields EOF (None) and leaves the position where it is.
 */
module Streams {
  import opened Wrappers

  class StringStream {
    var buf: string
    var pos: nat

    ghost predicate Valid()
      reads this
    {
      pos <= |buf|
    }

    /** A stream over the given text, positioned at its start. */
    constructor (text: string)
      ensures Valid() && buf == text && pos == 0
    {
      buf := text;
      pos := 0;
    }

    /** peek(): the next character without consuming it, or EOF. */
    function Peek(): Option<char>
      reads this
      requires Valid()
    {
      if pos < |buf| then Some(buf[pos]) else None
    }

    /** get(): consume the next character; at EOF nothing is consumed. */
    method Get() returns (c: Option<char>)
      requires Valid()
      modifies this
      ensures Valid() && buf == old(buf)
      ensures c == old(Peek())
      ensures pos == if old(pos) < |buf| then old(pos) + 1 else old(pos)
    {
      c := Peek();
      if pos < |buf| {
        pos := pos + 1;
      }
    }

    /** unget(): step back over the character just consumed. */
    method Unget()
      requires Valid() && 0 < pos
      modifies this
      ensures Valid() && buf == old(buf) && pos == old(pos) - 1
    {
      pos := pos - 1;
    }

    /** operator<<: append text at the end of the buffer. */
    method Write(t: string)
      requires Valid()
      modifies this
      ensures Valid() && buf == old(buf) + t && pos == old(pos)
    {
      buf := buf + t;
    }

    /** put(): append one character at the end of the buffer. */
    method Put(c: char)
      requires Valid()
      modifies this
      ensures Valid() && buf == old(buf) + [c] && pos == old(pos)
    {
      buf := buf + [c];
    }
  }
}
