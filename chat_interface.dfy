/**
 * The streaming core of the chat interface object: the four fields it keeps
 * between chunks (`mem`, `buffer`, `streamEnded`, `alreadyWriting`), the text
 * of the assistant element, and the calls made to the end callback.
 * `FeedChunk` is one pass of the read loop's body; `Write` is `write()`;
 * `OnTimer` is the 5 ms timer that `write()` schedules going off.
 */
module ChatInterface {
  import opened Wrappers
  import opened JsText
  import opened JsonValue
  import opened FrameDecoder
  import opened PacedWriter

  /** `JSON.parse`: a value, or `None` for the SyntaxError it throws. */
  type JsonParser = string -> Option<Json>

  /** The `try` block of the line loop: parse, then test for content. Both a
      SyntaxError and a TypeError from the property reads are caught. */
  function Classify(parse: JsonParser): (c: Classifier)
    ensures forall p :: parse(p).None? ==> c(p).Throws?
  {
    (p: string) => match parse(p) case None => Throws case Some(v) => ExtractContent(v)
  }

  /** A chunk whose last content line is followed by `[DONE]`: the token is still
      queued and the stream marked ended, and the drain chain calls the end
      callback once, after the token has been rendered. */
  lemma LastTokenThenSentinel(classify: Classifier, d: Decoder, tokenLine: string, doneLine: string,
                              t: string, rendered: string, calls: seq<string>)
    requires !IsDone(tokenLine) && classify(Payload(tokenLine)) == Push(t) && IsDone(doneLine)
    ensures var d' := DecodeLines(classify, d, [tokenLine, doneLine]);
      d'.buffer == d.buffer + [t] && d'.streamEnded && d'.mem == d.mem
      && Chain(Writer(d'.buffer, rendered, false, d'.streamEnded, calls)).endCalls
         == calls + [rendered + Concat(d.buffer) + t]
  {
    var d1 := d.(buffer := d.buffer + [t]);
    assert ProcessLine(classify, d, tokenLine) == Next(d1);
    assert [tokenLine, doneLine][1..] == [doneLine];
    assert DecodeLines(classify, d1, [doneLine]) == d1.(streamEnded := true);
    var d2 := DecodeLines(classify, d, [tokenLine, doneLine]);
    assert d2 == d1.(streamEnded := true);
    ConcatAppend(d.buffer, [t]);
    assert Concat([t]) == t + Concat([]);
    var c := Chain(Writer(d2.buffer, rendered, false, true, calls));
    assert c.rendered == rendered + Concat(d.buffer) + t;
  }

  /** Tokens pushed after the ones already accounted for extend the record of
      pushed tokens: regrouping kept as a lemma so that the solver sees the
      three sequences only as opaque values. */
  lemma PushedGrows(written: seq<string>, queued: seq<string>, more: seq<string>, pushed: seq<string>)
    requires pushed == written + (queued + more)
    ensures pushed == (written + queued) + more
  {
  }

  class LLMChatInterface {
    const parse: JsonParser

    var buffer: seq<string>
    var alreadyWriting: bool
    var streamEnded: bool
    var mem: string
    /** The text of the assistant element. */
    var rendered: string
    /** The texts the end callback has been called with, in call order. */
    var endCalls: seq<string>
    /** Runs of `write()` scheduled with `setTimeout` and not yet run. */
    var pendingTimers: nat

    /** Every token ever pushed, and every token ever written, in order. */
    ghost var pushed: seq<string>
    ghost var written: seq<string>
    /** How many tokens had been written when the current message began. */
    ghost var turnStart: nat

    /** Between events: a drain chain is pending exactly when `alreadyWriting`
        is set, and there is never more than one; the carry-over is acceptable;
        tokens leave the queue in the order they entered it, none lost; and the
        assistant element shows the tokens written since the message began, in
        the order they were written. */
    ghost predicate Valid()
      reads this
    {
      SingleChain() && QueueOk() && ShowsTurn()
    }

    ghost predicate SingleChain()
      reads this`pendingTimers, this`alreadyWriting
    {
      pendingTimers == (if alreadyWriting then 1 else 0)
    }

    ghost predicate QueueOk()
      reads this`mem, this`written, this`buffer, this`pushed
    {
      CarryOverOk(Classify(parse), mem) && written + buffer == pushed
    }

    ghost predicate ShowsTurn()
      reads this`turnStart, this`written, this`rendered
    {
      turnStart <= |written| && rendered == Concat(written[turnStart..])
    }

    function DecoderView(): Decoder
      reads this
    {
      Decoder(mem, buffer, streamEnded)
    }

    function WriterView(): Writer
      reads this
    {
      Writer(buffer, rendered, alreadyWriting, streamEnded, endCalls)
    }

    constructor (parse: JsonParser)
      ensures Valid() && this.parse == parse
      ensures mem == "" && buffer == [] && !streamEnded && !alreadyWriting
      ensures rendered == "" && endCalls == [] && pendingTimers == 0
      ensures pushed == [] && written == [] && turnStart == 0
    {
      this.parse := parse;
      buffer := [];
      alreadyWriting := false;
      streamEnded := false;
      mem := "";
      rendered := "";
      endCalls := [];
      pendingTimers := 0;
      pushed := [];
      written := [];
      turnStart := 0;
    }

    /** A new message: a fresh, empty assistant element becomes the render
        target. Nothing else is reset: a carry-over, queued tokens and the end
        flag of an earlier turn all carry into this one. */
    method BeginTurn()
      requires Valid()
      modifies this`rendered, this`turnStart
      ensures Valid()
      ensures rendered == "" && turnStart == |written|
    {
      rendered := "";
      turnStart := |written|;
    }

    /** `write()`. A run that moves a token schedules one more run; the read
        loop and the timer call it only when no run is pending, which is what
        keeps a single drain chain. */
    method Write() returns (rescheduled: bool)
      modifies this
      ensures WriterView() == PacedWriter.Write(old(WriterView())).w
      ensures rescheduled == PacedWriter.Write(old(WriterView())).rescheduled
      ensures pendingTimers == old(pendingTimers) + (if rescheduled then 1 else 0)
      ensures mem == old(mem) && pushed == old(pushed)
      ensures written == old(written) + (if rescheduled then [old(buffer)[0]] else [])
      ensures written + buffer == old(written) + old(buffer)
      ensures turnStart == old(turnStart) && (old(ShowsTurn()) ==> ShowsTurn())
    {
      if |buffer| > 0 {
        alreadyWriting := true;
        var chunk := buffer[0];
        buffer := buffer[1..];
        ghost var before := written;
        written := written + [chunk];
        rendered := rendered + chunk;
        if turnStart <= |before| {
          assert written[turnStart..] == before[turnStart..] + [chunk];
          ConcatAppend(before[turnStart..], [chunk]);
          assert Concat([chunk]) == chunk + Concat([]);
        }
        pendingTimers := pendingTimers + 1;
        rescheduled := true;
      } else {
        if streamEnded {
          endCalls := endCalls + [rendered];
        }
        alreadyWriting := false;
        rescheduled := false;
      }
    }

    /** The pending timer goes off and runs `write()`. */
    method OnTimer() returns (rescheduled: bool)
      requires Valid() && pendingTimers == 1
      modifies this
      ensures Valid()
      ensures WriterView() == PacedWriter.Write(old(WriterView())).w
      ensures rescheduled == PacedWriter.Write(old(WriterView())).rescheduled
      ensures DecoderView().mem == old(mem) && pushed == old(pushed)
      ensures written == old(written) + (if rescheduled then [old(buffer)[0]] else [])
      ensures turnStart == old(turnStart)
      ensures !rescheduled ==> rendered == Concat(pushed[turnStart..])
      ensures !rescheduled && streamEnded ==> endCalls == old(endCalls) + [Concat(pushed[turnStart..])]
    {
      pendingTimers := pendingTimers - 1;
      rescheduled := Write();
    }

    /** One pass of the read loop's body over a decoded chunk: the line loop,
        then `write()` if no drain chain is running. */
    method FeedChunk(chunk: string) returns (wroteNow: bool)
      requires Valid()
      modifies this
      ensures Valid()
      ensures var d := DecodeChunk(Classify(parse), old(DecoderView()), chunk);
        mem == d.mem && streamEnded == d.streamEnded
        && wroteNow == !old(alreadyWriting)
        && (wroteNow ==> WriterView() == PacedWriter.Write(old(WriterView()).(buffer := d.buffer, streamEnded := d.streamEnded)).w)
        && (!wroteNow ==> buffer == d.buffer && rendered == old(rendered) && endCalls == old(endCalls)
                          && alreadyWriting)
      ensures pushed == old(pushed) + ChunkTokens(Classify(parse), old(mem), chunk)
      ensures turnStart == old(turnStart)
    {
      Decode(chunk);
      if !alreadyWriting {
        var _ := Write();
        wroteNow := true;
      } else {
        wroteNow := false;
      }
    }

    /** The line loop of the read loop's body, with the carry-over glued on first. */
    method Decode(chunk: string)
      requires Valid()
      modifies this`mem, this`buffer, this`streamEnded, this`pushed
      ensures Valid()
      ensures DecoderView() == DecodeChunk(Classify(parse), old(DecoderView()), chunk)
      ensures pushed == old(pushed) + ChunkTokens(Classify(parse), old(mem), chunk)
    {
      ghost var d0 := DecoderView();
      var lines := Glue(chunk);
      RunLines(lines);
      DecodedChunk(Classify(parse), d0, chunk);
      ghost var ct := ChunkTokens(Classify(parse), d0.mem, chunk);
      PushedGrows(written, d0.buffer, ct, pushed);
    }

    /** Lines 94-99: the chunk's non-blank lines, with a pending carry-over
        glued onto the first one in place, and the carry-over cleared. */
    method Glue(chunk: string) returns (lines: seq<string>)
      modifies this`mem
      ensures lines == GluedLines(old(mem), chunk) && mem == ""
      ensures DecodeLines(Classify(parse), DecoderView(), lines)
           == DecodeChunk(Classify(parse), old(DecoderView()), chunk)
    {
      lines := NonBlankLines(chunk);
      if mem != "" {
        if |lines| == 0 {
          lines := [mem + "undefined"];
        } else {
          GluedInPlace(mem, chunk);
          lines := lines[0 := mem + lines[0]];
        }
        mem := "";
      }
    }

    /** The `for` loop over the lines of one chunk, with its `break` at `[DONE]`. */
    method RunLines(lines: seq<string>)
      requires written + buffer == pushed
      modifies this`mem, this`buffer, this`streamEnded, this`pushed
      ensures DecoderView() == DecodeLines(Classify(parse), old(DecoderView()), lines)
      ensures written + buffer == pushed
    {
      var classify := Classify(parse);
      var i := 0;
      while i < |lines|
        invariant 0 <= i <= |lines|
        invariant DecodeLines(classify, DecoderView(), lines[i..])
               == DecodeLines(classify, old(DecoderView()), lines)
        invariant written + buffer == pushed
      {
        var payload := Payload(lines[i]);
        assert lines[i..][0] == lines[i] && lines[i..][1..] == lines[i + 1..];
        if payload == DoneSentinel {
          streamEnded := true;
          break;
        }
        match classify(payload) {
          case Throws =>
            mem := payload;
          case Skip =>
          case Push(t) =>
            PushedGrows(written, buffer, [t], written + (buffer + [t]));
            buffer := buffer + [t];
            pushed := pushed + [t];
        }
        i := i + 1;
      }
    }
  }
}
