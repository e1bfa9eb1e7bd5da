/** Newline-framed text transport. The reader threads of the server-side
    connection handle and of the client read one line at a time and drop
    every empty line (and the `null` that marks the end of the stream)
    before anything else sees it. Sockets and threads are not modelled:
    a connection's input is the sequence of lines it delivers. */
module Framing {

  /** The lines that survive the reader's empty-line filter, in order. */
  function Frames(lines: seq<string>): (frames: seq<string>)
    ensures |frames| <= |lines|
    ensures forall k | 0 <= k < |frames| :: frames[k] != ""
    decreases |lines|
  {
    if |lines| == 0 then []
    else if lines[0] == "" then Frames(lines[1..])
    else [lines[0]] + Frames(lines[1..])
  }

  /** Filtering two stretches of input is filtering their concatenation:
      a frame's fate does not depend on what was read before it. */
  lemma {:induction false} FramesAppend(a: seq<string>, b: seq<string>)
    ensures Frames(a + b) == Frames(a) + Frames(b)
    decreases |a|
  {
    if |a| > 0 {
      assert (a + b)[0] == a[0];
      assert (a + b)[1..] == a[1..] + b;
      FramesAppend(a[1..], b);
      if a[0] == "" {
        assert Frames(a + b) == Frames(a[1..] + b);
      } else {
        assert Frames(a + b) == [a[0]] + Frames(a[1..] + b);
      }
    } else {
      assert a + b == b;
    }
  }

  /** Input that has no empty line passes through unchanged, so filtering
      twice is filtering once. */
  lemma {:induction false} FramesOfNonEmpty(lines: seq<string>)
    requires forall k | 0 <= k < |lines| :: lines[k] != ""
    ensures Frames(lines) == lines
    decreases |lines|
  {
    if |lines| > 0 {
      FramesOfNonEmpty(lines[1..]);
    }
  }

  lemma FramesIdempotent(lines: seq<string>)
    ensures Frames(Frames(lines)) == Frames(lines)
  {
    FramesOfNonEmpty(Frames(lines));
  }
}
