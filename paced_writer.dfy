/**
 * The paced writer, `write()`: each run moves the front token of the queue onto
 * the rendered text and schedules the next run; a run that finds the queue empty
 * clears the busy flag and, if the stream has ended, calls the end callback with
 * the rendered text.
 */
module PacedWriter {

  /** The writer's share of the interface's fields: the token queue, the text of
      the assistant element, the busy flag, the end flag, and the texts the end
      callback has been called with, in call order. */
  datatype Writer = Writer(buffer: seq<string>, rendered: string, alreadyWriting: bool,
                           streamEnded: bool, endCalls: seq<string>)

  /** The writer after one run, and whether the run scheduled another. */
  datatype Step = Step(w: Writer, rescheduled: bool)

  /** The tokens' texts, one after the other. */
  function Concat(ts: seq<string>): string
    decreases |ts|
  {
    if ts == [] then "" else ts[0] + Concat(ts[1..])
  }

  /** One run of `write()`. No text is lost or reordered between queue and
      rendered text; it re-schedules exactly when the queue was non-empty, and
      calls the end callback exactly when the queue was empty and the stream had ended. */
  function Write(w: Writer): (r: Step)
    ensures r.rescheduled <==> w.buffer != []
    ensures r.w.rendered + Concat(r.w.buffer) == w.rendered + Concat(w.buffer)
    ensures r.rescheduled ==> r.w.buffer == w.buffer[1..] && r.w.rendered == w.rendered + w.buffer[0]
    ensures !r.rescheduled ==> r.w.buffer == [] && r.w.rendered == w.rendered
    ensures r.w.alreadyWriting == r.rescheduled
    ensures r.w.streamEnded == w.streamEnded
    ensures r.w.endCalls == w.endCalls + (if !r.rescheduled && w.streamEnded then [w.rendered] else [])
  {
    if |w.buffer| > 0 then
      var chunk := w.buffer[0];
      Step(w.(alreadyWriting := true, buffer := w.buffer[1..], rendered := w.rendered + chunk), true)
    else
      var calls := if w.streamEnded then w.endCalls + [w.rendered] else w.endCalls;
      Step(w.(endCalls := calls, alreadyWriting := false), false)
  }

  /** A whole drain chain: runs of `write()` until one does not re-schedule. It
      ends with an empty queue and the busy flag cleared, having appended every
      queued token in order, and having called the end callback once, with the
      full text, exactly when the stream had ended. */
  function Chain(w: Writer): (r: Writer)
    ensures r.buffer == [] && !r.alreadyWriting
    ensures r.rendered == w.rendered + Concat(w.buffer)
    ensures r.streamEnded == w.streamEnded
    ensures r.endCalls == w.endCalls + (if w.streamEnded then [r.rendered] else [])
    decreases |w.buffer|
  {
    var s := Write(w);
    if s.rescheduled then Chain(s.w) else s.w
  }

  /** `k` runs of `write()`. */
  function Steps(w: Writer, k: nat): Writer
    decreases k
  {
    if k == 0 then w else Steps(Write(w).w, k - 1)
  }

  /** After `k` runs on a queue of at least `k` tokens, the rendered text has grown
      by the first `k` tokens in queue order, the rest of the queue is untouched,
      the end callback has not been called, and the chain is still busy. */
  lemma {:induction false} DrainPrefix(w: Writer, k: nat)
    requires k <= |w.buffer|
    decreases k
    ensures Steps(w, k).buffer == w.buffer[k..]
    ensures Steps(w, k).rendered == w.rendered + Concat(w.buffer[..k])
    ensures Steps(w, k).endCalls == w.endCalls
    ensures k > 0 ==> Steps(w, k).alreadyWriting
  {
    if k > 0 {
      var w' := Write(w).w;
      DrainPrefix(w', k - 1);
      assert w.buffer[1..][k - 1..] == w.buffer[k..];
      assert w.buffer[..k][1..] == w.buffer[1..][..k - 1];
      assert w.buffer[..k][0] == w.buffer[0];
    }
  }

  /** The end callback is not guarded against repeats: every later run of `write()`
      on the drained queue of an ended stream calls it again. */
  lemma CallbackRepeats(w: Writer)
    requires w.streamEnded
    ensures var c := Chain(w);
      Write(c).w.endCalls == w.endCalls + [c.rendered, c.rendered]
  {
    var c := Chain(w);
    assert w.endCalls + [c.rendered] + [c.rendered] == w.endCalls + [c.rendered, c.rendered];
  }

  lemma {:induction false} ConcatAppend(a: seq<string>, b: seq<string>)
    ensures Concat(a + b) == Concat(a) + Concat(b)
    decreases |a|
  {
    if a == [] {
      assert a + b == b;
    } else {
      assert (a + b)[1..] == a[1..] + b;
      ConcatAppend(a[1..], b);
    }
  }
}
