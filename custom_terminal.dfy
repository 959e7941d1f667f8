/** The message buffer of CustomTerminal. The C++ buffer is one static
    vector; here it is the `buffer` field of a Terminal object that the
    password manager is handed. Messages are text for the screen, so they are
    plain strings; the byte strings of the record store fit into them. */
module CustomTerminal {
  import opened Text

  /** The buffered form of a message: `lineBreakCount` line breaks appended
      when the count is above 0, the message unchanged otherwise. */
  function WithLineBreaks(message: string, lineBreakCount: int): (r: string)
    ensures |r| == |message| + (if lineBreakCount > 0 then lineBreakCount else 0)
    ensures r[..|message|] == message
    ensures forall i :: |message| <= i < |r| ==> r[i] == '\n'
  {
    if lineBreakCount > 0 then message + Repeat('\n', lineBreakCount) else message
  }

  /** Printing two buffers one after the other shows what printing them as one would. */
  lemma {:induction false} FlattenConcat(a: seq<string>, b: seq<string>)
    ensures Flatten(a + b) == Flatten(a) + Flatten(b)
    decreases |b|
  {
    if b == [] {
      assert a + b == a;
    } else {
      var b' := b[..|b| - 1];
      assert (a + b)[..|a + b| - 1] == a + b';
      FlattenConcat(a, b');
    }
  }

  class Terminal {
    var buffer: seq<string>

    /** The buffer starts empty. */
    constructor ()
      ensures buffer == []
    {
      buffer := [];
    }

    /** AddMessageToBuffer: exactly one entry more, at the end; the entries
        already there are unchanged and keep their order. */
    method AddMessageToBuffer(message: string, lineBreakCount: int)
      modifies this
      ensures buffer == old(buffer) + [WithLineBreaks(message, lineBreakCount)]
    {
      var m := message;
      if lineBreakCount > 0 {
        m := m + Repeat('\n', lineBreakCount);
      }
      buffer := buffer + [m];
    }

    /** PrintAndClearBuffer: `output` is what reaches the screen, every entry
        in order; the buffer is left empty. */
    method PrintAndClearBuffer() returns (output: string)
      modifies this
      ensures output == Flatten(old(buffer))
      ensures buffer == []
    {
      output := [];
      for i := 0 to |buffer|
        invariant output == Flatten(buffer[..i])
      {
        assert buffer[..i + 1][..i] == buffer[..i];
        output := output + buffer[i];
      }
      assert buffer[..|buffer|] == buffer;
      buffer := [];
    }
  }
}
