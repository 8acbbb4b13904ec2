/**
 * The decoding of one streamed chunk, as the read loop of `sendMessage` does it:
 * split into non-blank lines, glue the carried-over fragment onto the first line,
 * strip the `data: ` marker and trim, stop at `[DONE]`, and parse each payload,
 * pushing a token or keeping the payload as the new carry-over.
 *
 * What parsing and the content test make of a payload is the parameter `classify`;
 * ChatInterface instantiates it with `JSON.parse` followed by ExtractContent.
 */
module FrameDecoder {
  import opened Wrappers
  import opened JsText
  import opened JsonValue

  /** What the `try` block makes of a payload: Throws (SyntaxError or TypeError,
      caught), Skip (no content), or Push(token). */
  type Classifier = string -> Extracted

  const DataPrefix: string := "data: "
  const DoneSentinel: string := "[DONE]"

  predicate StartsWith(s: string, prefix: string) {
    |prefix| <= |s| && s[..|prefix|] == prefix
  }

  /** `line.replace(/^data: /, '')`: removes one marker, and only at position 0. */
  function StripDataPrefix(line: string): (r: string)
    ensures StartsWith(line, DataPrefix) ==> line == DataPrefix + r
    ensures !StartsWith(line, DataPrefix) ==> r == line
  {
    if StartsWith(line, DataPrefix) then line[|DataPrefix|..] else line
  }

  /** The payload of a line: marker stripped, then trimmed. */
  function Payload(line: string): (r: string)
    ensures IsTrimmed(r) && |r| <= |line|
  {
    Trim(StripDataPrefix(line))
  }

  /** The decoder's share of the interface's fields: `mem`, `buffer`, `streamEnded`. */
  datatype Decoder = Decoder(mem: string, buffer: seq<string>, streamEnded: bool)

  /** The outcome of one line: `Stop` is the `break` out of the line loop. */
  datatype LineResult = Stop(d: Decoder) | Next(d: Decoder)

  /** One iteration of the line loop. */
  function ProcessLine(classify: Classifier, d: Decoder, line: string): (r: LineResult)
    ensures r.Stop? <==> Payload(line) == DoneSentinel
  {
    var payload := Payload(line);
    if payload == DoneSentinel then Stop(d.(streamEnded := true))
    else
      match classify(payload)
      case Throws => Next(d.(mem := payload))
      case Skip => Next(d)
      case Push(t) => Next(d.(buffer := d.buffer + [t]))
  }

  /** The line loop, up to the end of the lines or the first `[DONE]`. */
  function DecodeLines(classify: Classifier, d: Decoder, lines: seq<string>): (r: Decoder)
    ensures d.buffer <= r.buffer
    ensures d.streamEnded ==> r.streamEnded
    decreases |lines|
  {
    if lines == [] then d
    else
      match ProcessLine(classify, d, lines[0])
      case Stop(d') => d'
      case Next(d') => DecodeLines(classify, d', lines[1..])
  }

  /** The lines the loop runs over: the chunk's non-blank lines, with a non-empty
      carry-over glued onto the first one. With no line at all, `lines[0]` is
      `undefined` and the glued line is the carry-over followed by "undefined". */
  function GluedLines(mem: string, chunk: string): (r: seq<string>)
    ensures mem == "" ==> r == NonBlankLines(chunk)
    ensures mem != "" ==> |r| >= 1 && StartsWith(r[0], mem)
  {
    var lines := NonBlankLines(chunk);
    if mem == "" then lines
    else if lines == [] then [mem + "undefined"]
    else [mem + lines[0]] + lines[1..]
  }

  /** The glued lines as the in-place update `lines[0] = mem + lines[0]` leaves them. */
  lemma GluedInPlace(mem: string, chunk: string)
    requires mem != "" && NonBlankLines(chunk) != []
    ensures var lines := NonBlankLines(chunk);
      GluedLines(mem, chunk) == lines[0 := mem + lines[0]]
  {
  }

  /** Decoding one chunk: a pending carry-over is cleared before the lines are processed. */
  function DecodeChunk(classify: Classifier, d: Decoder, chunk: string): (r: Decoder)
    ensures d.buffer <= r.buffer
    ensures d.streamEnded ==> r.streamEnded
  {
    if d.mem != "" then DecodeLines(classify, d.(mem := ""), GluedLines(d.mem, chunk))
    else DecodeLines(classify, d, GluedLines(d.mem, chunk))
  }

  // ---------------------------------------------------------------------------
  // Reference definitions: what the loop does, stated line by line without the loop.

  predicate IsDone(line: string) {
    Payload(line) == DoneSentinel
  }

  predicate HasDone(lines: seq<string>) {
    exists i :: 0 <= i < |lines| && IsDone(lines[i])
  }

  /** The lines before the first `[DONE]`: the ones the loop parses. */
  function Processed(lines: seq<string>): seq<string>
    decreases |lines|
  {
    if lines == [] || IsDone(lines[0]) then [] else [lines[0]] + Processed(lines[1..])
  }

  predicate Fails(classify: Classifier, line: string) {
    classify(Payload(line)).Throws?
  }

  /** The token a line contributes, if any. */
  function LineToken(classify: Classifier, line: string): seq<string> {
    match classify(Payload(line))
    case Push(t) => [t]
    case _ => []
  }

  /** All tokens of the given lines, in line order. */
  function TokensOf(classify: Classifier, lines: seq<string>): seq<string>
    decreases |lines|
  {
    if lines == [] then [] else LineToken(classify, lines[0]) + TokensOf(classify, lines[1..])
  }

  /** The payload of the last line that fails to parse. */
  function LastFailure(classify: Classifier, lines: seq<string>): Option<string>
    decreases |lines|
  {
    if lines == [] then None
    else
      var later := LastFailure(classify, lines[1..]);
      if later.Some? then later
      else if Fails(classify, lines[0]) then Some(Payload(lines[0]))
      else None
  }

  /** The tokens a chunk pushes. */
  function ChunkTokens(classify: Classifier, mem: string, chunk: string): seq<string> {
    TokensOf(classify, Processed(GluedLines(mem, chunk)))
  }

  /** What can be left as carry-over: nothing, or a trimmed payload that is not
      the sentinel and that parsing rejects. */
  predicate CarryOverOk(classify: Classifier, mem: string) {
    mem == "" || (IsTrimmed(mem) && mem != DoneSentinel && classify(mem).Throws?)
  }

  // ---------------------------------------------------------------------------
  // The reference definitions themselves.

  /** Processed is the prefix of the lines up to the first `[DONE]`, and it is
      shorter than the lines exactly when they hold a `[DONE]`. */
  lemma ProcessedPrefix(lines: seq<string>)
    ensures var p := Processed(lines);
      |p| <= |lines| && p == lines[..|p|]
      && (forall i :: 0 <= i < |p| ==> !IsDone(p[i]))
      && (|p| < |lines| <==> HasDone(lines))
  {
    ProcessedIsPrefix(lines);
    ProcessedStopsAtDone(lines);
  }

  lemma {:induction false} ProcessedIsPrefix(lines: seq<string>)
    ensures var p := Processed(lines);
      |p| <= |lines| && p == lines[..|p|] && (forall i :: 0 <= i < |p| ==> !IsDone(p[i]))
    decreases |lines|
  {
    if lines != [] && !IsDone(lines[0]) {
      var rest := lines[1..];
      var q := Processed(rest);
      ProcessedIsPrefix(rest);
      var p := Processed(lines);
      assert p == [lines[0]] + q;
      assert lines[..|q| + 1] == [lines[0]] + rest[..|q|];
      forall i | 0 <= i < |p| ensures !IsDone(p[i]) {
        if i > 0 {
          assert p[i] == q[i - 1];
        }
      }
    }
  }

  lemma {:induction false} ProcessedStopsAtDone(lines: seq<string>)
    ensures |Processed(lines)| < |lines| <==> HasDone(lines)
    decreases |lines|
  {
    if lines == [] {
    } else if IsDone(lines[0]) {
      assert HasDone(lines) by { assert IsDone(lines[0]); }
    } else {
      ProcessedStopsAtDone(lines[1..]);
      HasDoneTail(lines);
      assert |Processed(lines)| == 1 + |Processed(lines[1..])|;
    }
  }

  /** A line that is not `[DONE]` does not change whether a `[DONE]` follows. */
  lemma HasDoneTail(lines: seq<string>)
    requires lines != [] && !IsDone(lines[0])
    ensures HasDone(lines) <==> HasDone(lines[1..])
  {
    if HasDone(lines) {
      var i :| 0 <= i < |lines| && IsDone(lines[i]);
      assert lines[1..][i - 1] == lines[i];
    }
    if HasDone(lines[1..]) {
      var i :| 0 <= i < |lines[1..]| && IsDone(lines[1..][i]);
      assert lines[i + 1] == lines[1..][i];
    }
  }

  /** LastFailure is the payload of a failing line after which no line fails,
      and there is one exactly when some line fails. */
  lemma {:induction false} LastFailureIsLast(classify: Classifier, lines: seq<string>)
    ensures var r := LastFailure(classify, lines);
      (r.Some? <==> exists i :: 0 <= i < |lines| && Fails(classify, lines[i]))
      && (r.Some? ==> exists i :: 0 <= i < |lines| && Fails(classify, lines[i])
                                   && r.value == Payload(lines[i])
                                   && forall j :: i < j < |lines| ==> !Fails(classify, lines[j]))
    decreases |lines|
  {
    if lines != [] {
      var tail := lines[1..];
      LastFailureIsLast(classify, tail);
      assert forall i :: 0 < i < |lines| ==> lines[i] == tail[i - 1];
      var later := LastFailure(classify, tail);
      if later.Some? {
        var i :| 0 <= i < |tail| && Fails(classify, tail[i]) && later.value == Payload(tail[i])
                 && forall j :: i < j < |tail| ==> !Fails(classify, tail[j]);
        assert Fails(classify, lines[i + 1]) && later.value == Payload(lines[i + 1]);
      }
    }
  }

  // ---------------------------------------------------------------------------
  // Properties of the line loop.

  /** The payload of `data: x` is `x` trimmed: the marker is removed once, even
      when `x` itself begins with another marker. */
  lemma PayloadOfDataLine(x: string)
    ensures StripDataPrefix(DataPrefix + x) == x
    ensures Payload(DataPrefix + x) == Trim(x)
  {
    assert (DataPrefix + x)[..|DataPrefix|] == DataPrefix;
  }

  /** The loop's effect on the three fields, against the reference definitions:
      the tokens of the lines before `[DONE]` are appended in order, the carry-over
      becomes the last failing payload before `[DONE]` (and is left alone when
      there is none), and the stream is marked ended exactly when a `[DONE]` line occurs. */
  lemma DecodeLinesEffect(classify: Classifier, d: Decoder, lines: seq<string>)
    ensures DecodeLines(classify, d, lines) ==
      Decoder(LastFailure(classify, Processed(lines)).GetOr(d.mem),
              d.buffer + TokensOf(classify, Processed(lines)),
              d.streamEnded || HasDone(lines))
  {
    DecodeLinesBuffer(classify, d, lines);
    DecodeLinesMem(classify, d, lines);
    DecodeLinesEnded(classify, d, lines);
  }

  lemma {:induction false} DecodeLinesBuffer(classify: Classifier, d: Decoder, lines: seq<string>)
    ensures DecodeLines(classify, d, lines).buffer == d.buffer + TokensOf(classify, Processed(lines))
    decreases |lines|
  {
    if lines != [] && !IsDone(lines[0]) {
      var l, rest := lines[0], lines[1..];
      LineEffect(classify, d, l);
      var d1 := ProcessLine(classify, d, l).d;
      assert DecodeLines(classify, d, lines) == DecodeLines(classify, d1, rest);
      assert d1.buffer == d.buffer + LineToken(classify, l);
      DecodeLinesBuffer(classify, d1, rest);
      var p := Processed(rest);
      assert Processed(lines) == [l] + p;
      assert ([l] + p)[1..] == p;
      assert TokensOf(classify, [l] + p) == LineToken(classify, l) + TokensOf(classify, p);
      assert d.buffer + LineToken(classify, l) + TokensOf(classify, p)
          == d.buffer + (LineToken(classify, l) + TokensOf(classify, p));
    }
  }

  lemma {:induction false} DecodeLinesMem(classify: Classifier, d: Decoder, lines: seq<string>)
    ensures DecodeLines(classify, d, lines).mem == LastFailure(classify, Processed(lines)).GetOr(d.mem)
    decreases |lines|
  {
    if lines != [] && !IsDone(lines[0]) {
      var l, rest := lines[0], lines[1..];
      LineEffect(classify, d, l);
      DecodeLinesMem(classify, ProcessLine(classify, d, l).d, rest);
      var p := Processed(rest);
      assert Processed(lines) == [l] + p;
      assert ([l] + p)[1..] == p;
    }
  }

  lemma {:induction false} DecodeLinesEnded(classify: Classifier, d: Decoder, lines: seq<string>)
    ensures DecodeLines(classify, d, lines).streamEnded == (d.streamEnded || HasDone(lines))
    decreases |lines|
  {
    if lines == [] {
    } else if IsDone(lines[0]) {
      assert HasDone(lines) by { assert IsDone(lines[0]); }
    } else {
      LineEffect(classify, d, lines[0]);
      DecodeLinesEnded(classify, ProcessLine(classify, d, lines[0]).d, lines[1..]);
      HasDoneTail(lines);
    }
  }

  /** One line that is not `[DONE]`: its failure replaces the carry-over and its
      token is appended. */
  lemma LineEffect(classify: Classifier, d: Decoder, line: string)
    requires !IsDone(line)
    ensures ProcessLine(classify, d, line) ==
      Next(Decoder(if Fails(classify, line) then Payload(line) else d.mem,
                   d.buffer + LineToken(classify, line), d.streamEnded))
  {
  }

  /** Once a `[DONE]` line is reached, the lines after it in the same chunk are ignored. */
  lemma {:induction false} DoneStopsChunk(classify: Classifier, d: Decoder, a: seq<string>, done: string, b: seq<string>)
    requires IsDone(done)
    ensures DecodeLines(classify, d, a + [done] + b) == DecodeLines(classify, d, a + [done])
    decreases |a|
  {
    if a == [] {
      assert a + [done] + b == [done] + b;
      assert a + [done] == [done];
    } else {
      assert (a + [done] + b)[0] == a[0] && (a + [done])[0] == a[0];
      assert (a + [done] + b)[1..] == a[1..] + [done] + b;
      assert (a + [done])[1..] == a[1..] + [done];
      if !IsDone(a[0]) {
        DoneStopsChunk(classify, ProcessLine(classify, d, a[0]).d, a[1..], done, b);
      }
    }
  }

  /** Lines without `[DONE]` can be processed in two goes. */
  lemma {:induction false} DecodeLinesAppend(classify: Classifier, d: Decoder, a: seq<string>, b: seq<string>)
    requires !HasDone(a)
    ensures DecodeLines(classify, d, a + b) == DecodeLines(classify, DecodeLines(classify, d, a), b)
    decreases |a|
  {
    if a == [] {
      assert a + b == b;
    } else {
      assert !IsDone(a[0]);
      HasDoneTail(a);
      assert (a + b)[0] == a[0];
      assert (a + b)[1..] == a[1..] + b;
      DecodeLinesAppend(classify, ProcessLine(classify, d, a[0]).d, a[1..], b);
    }
  }

  /** Decoding a chunk, against the reference definitions. A pending carry-over
      is never kept as it was: it is replaced by the chunk's last failing payload
      or cleared. */
  lemma DecodeChunkEffect(classify: Classifier, d: Decoder, chunk: string)
    ensures var lines := GluedLines(d.mem, chunk);
      DecodeChunk(classify, d, chunk) ==
        Decoder(LastFailure(classify, Processed(lines)).GetOr(""),
                d.buffer + ChunkTokens(classify, d.mem, chunk),
                d.streamEnded || HasDone(lines))
  {
    var lines := GluedLines(d.mem, chunk);
    if d.mem != "" {
      DecodeLinesEffect(classify, d.(mem := ""), lines);
    } else {
      DecodeLinesEffect(classify, d, lines);
    }
  }

  /** Whatever it held before, a decoded chunk leaves an acceptable carry-over. */
  lemma CarryOverKept(classify: Classifier, d: Decoder, chunk: string)
    ensures CarryOverOk(classify, DecodeChunk(classify, d, chunk).mem)
  {
    DecodeChunkEffect(classify, d, chunk);
    var p := Processed(GluedLines(d.mem, chunk));
    ProcessedPrefix(GluedLines(d.mem, chunk));
    LastFailureIsLast(classify, p);
    var lf := LastFailure(classify, p);
    if lf.Some? {
      var i :| 0 <= i < |p| && Fails(classify, p[i]) && lf.value == Payload(p[i])
               && forall j :: i < j < |p| ==> !Fails(classify, p[j]);
    }
  }

  /** What a decoded chunk leaves behind: an acceptable carry-over, and the queue
      grown by exactly the chunk's tokens. */
  lemma DecodedChunk(classify: Classifier, d: Decoder, chunk: string)
    ensures var r := DecodeChunk(classify, d, chunk);
      CarryOverOk(classify, r.mem) && r.buffer == d.buffer + ChunkTokens(classify, d.mem, chunk)
  {
    DecodeChunkEffect(classify, d, chunk);
    CarryOverKept(classify, d, chunk);
  }

  /** `[DONE]` does not stop later chunks: a chunk decoded after the end pushes
      the same tokens as it would have before. */
  lemma DecodeAfterEnd(classify: Classifier, d: Decoder, chunk: string)
    requires d.streamEnded
    ensures DecodeChunk(classify, d, chunk).buffer == d.buffer + ChunkTokens(classify, d.mem, chunk)
    ensures DecodeChunk(classify, d, chunk).buffer
         == DecodeChunk(classify, d.(streamEnded := false), chunk).buffer
  {
    DecodeChunkEffect(classify, d, chunk);
    DecodeChunkEffect(classify, d.(streamEnded := false), chunk);
  }

  /** A chunk of white space only (a keep-alive line break, say) still consumes a
      pending carry-over: the loop then runs on the single line `mem + "undefined"`. */
  lemma BlankChunkGluesUndefined(classify: Classifier, d: Decoder, chunk: string)
    requires d.mem != "" && AllSpace(chunk)
    ensures DecodeChunk(classify, d, chunk)
         == DecodeLines(classify, d.(mem := ""), [d.mem + "undefined"])
  {
    AllSpaceHasNoLines(chunk);
  }

  lemma AllSpaceHasNoLines(chunk: string)
    requires AllSpace(chunk)
    ensures NonBlankLines(chunk) == []
  {
    AllSpacePieces(chunk);
    AllBlankFiltered(Split(chunk, '\n'));
  }

  lemma {:induction false} AllSpacePieces(s: string)
    requires AllSpace(s)
    ensures forall i :: 0 <= i < |Split(s, '\n')| ==> AllSpace(Split(s, '\n')[i])
  {
    if s != [] {
      AllSpacePieces(s[1..]);
    }
  }

  lemma {:induction false} AllBlankFiltered(lines: seq<string>)
    requires forall i :: 0 <= i < |lines| ==> AllSpace(lines[i])
    ensures NonBlank(lines) == []
  {
    if lines != [] {
      BlankIff(lines[0]);
      AllBlankFiltered(lines[1..]);
    }
  }

  /** Two lines with the same payload have the same effect. */
  lemma SamePayloadSameDecode(classify: Classifier, d: Decoder, l1: string, l2: string, rest: seq<string>)
    requires Payload(l1) == Payload(l2)
    ensures DecodeLines(classify, d, [l1] + rest) == DecodeLines(classify, d, [l2] + rest)
  {
    assert ([l1] + rest)[1..] == rest && ([l2] + rest)[1..] == rest;
  }

  /** A `data:` line cut in two by a chunk boundary is put back together from the
      carry-over: decoding the halves gives what decoding the whole line does,
      except that white space at the end of the first half is lost (the carry-over
      is stored trimmed). */
  lemma SplitLineReassembled(classify: Classifier, d: Decoder, x: string, q: string, rest: string)
    requires d.mem == ""
    requires '\n' !in x && '\n' !in q
    requires Trim(x) != "" && Trim(x) != DoneSentinel && classify(Trim(x)).Throws?
    requires !IsBlank(q)
    requires !StartsWith(Trim(x) + q, DataPrefix)
    ensures DecodeChunk(classify, DecodeChunk(classify, d, DataPrefix + x), q + "\n" + rest)
         == DecodeChunk(classify, d, DataPrefix + Trim(x) + q + "\n" + rest)
  {
    FirstHalfCarried(classify, d, x);
    TrimChars(x);
    GluedEqualsWhole(classify, d, Trim(x), q, rest);
  }

  /** Gluing the carry-over `m` onto the second half gives the payload of the whole line. */
  lemma GluedEqualsWhole(classify: Classifier, d: Decoder, m: string, q: string, rest: string)
    requires d.mem == "" && m != ""
    requires '\n' !in m && '\n' !in q && !IsBlank(q)
    requires !StartsWith(m + q, DataPrefix)
    ensures DecodeChunk(classify, d.(mem := m), q + "\n" + rest)
         == DecodeChunk(classify, d, DataPrefix + m + q + "\n" + rest)
  {
    SecondHalfGlued(classify, d, m, q, rest);
    GluedIsWhole(classify, d, m, q, rest);
  }

  /** The glued line and the unsplit `data:` line have the same effect. */
  lemma GluedIsWhole(classify: Classifier, d: Decoder, m: string, q: string, rest: string)
    requires d.mem == ""
    requires '\n' !in m && '\n' !in q
    requires !StartsWith(m + q, DataPrefix)
    ensures DecodeLines(classify, d, [m + q] + NonBlankLines(rest))
         == DecodeChunk(classify, d, DataPrefix + m + q + "\n" + rest)
  {
    WholeChunk(classify, d, DataPrefix + m + q, rest);
    GluedPayload(m, q);
    SamePayloadSameDecode(classify, d, m + q, DataPrefix + m + q, NonBlankLines(rest));
  }

  lemma GluedPayload(m: string, q: string)
    requires !StartsWith(m + q, DataPrefix)
    ensures Payload(m + q) == Payload(DataPrefix + m + q)
  {
    assert DataPrefix + m + q == DataPrefix + (m + q);
    PayloadOfDataLine(m + q);
  }

  /** An unsplit `data:` line followed by a line break is decoded as the first line. */
  lemma WholeChunk(classify: Classifier, d: Decoder, whole: string, rest: string)
    requires d.mem == ""
    requires StartsWith(whole, DataPrefix) && '\n' !in whole
    ensures DecodeChunk(classify, d, whole + "\n" + rest)
         == DecodeLines(classify, d, [whole] + NonBlankLines(rest))
  {
    WholeLine(whole, rest);
  }

  /** The second half of a split line is glued onto the carry-over `m`. */
  lemma SecondHalfGlued(classify: Classifier, d: Decoder, m: string, q: string, rest: string)
    requires d.mem == "" && m != ""
    requires '\n' !in q && !IsBlank(q)
    ensures DecodeChunk(classify, d.(mem := m), q + "\n" + rest)
         == DecodeLines(classify, d, [m + q] + NonBlankLines(rest))
  {
    LinesAround(q, rest);
    OneLine(q);
    var r := NonBlankLines(rest);
    assert ([q] + r)[0] == q && ([q] + r)[1..] == r;
    assert GluedLines(m, q + "\n" + rest) == [m + q] + r;
    assert d.(mem := m).(mem := "") == d;
  }

  /** The first half of a split `data:` line becomes the carry-over. */
  lemma FirstHalfCarried(classify: Classifier, d: Decoder, x: string)
    requires d.mem == ""
    requires '\n' !in x
    requires Trim(x) != "" && Trim(x) != DoneSentinel && classify(Trim(x)).Throws?
    ensures DecodeChunk(classify, d, DataPrefix + x) == d.(mem := Trim(x))
  {
    NotBlankData(x);
    PayloadOfDataLine(x);
    FirstHalfKept(classify, d, DataPrefix + x);
  }

  lemma NotBlankData(x: string)
    ensures '\n' !in x ==> '\n' !in DataPrefix + x
    ensures !IsBlank(DataPrefix + x)
  {
    BlankIff(DataPrefix + x);
    assert (DataPrefix + x)[0] == 'd';
  }

  lemma WholeLine(whole: string, rest: string)
    requires StartsWith(whole, DataPrefix) && '\n' !in whole
    ensures NonBlankLines(whole + "\n" + rest) == [whole] + NonBlankLines(rest)
    ensures GluedLines("", whole + "\n" + rest) == [whole] + NonBlankLines(rest)
  {
    assert whole == DataPrefix + whole[|DataPrefix|..];
    NotBlankData(whole[|DataPrefix|..]);
    LinesAround(whole, rest);
    OneLine(whole);
  }

  /** When the first half has no trailing white space, the split line decodes
      exactly as the unsplit one. */
  lemma SplitLineExact(classify: Classifier, d: Decoder, x: string, q: string, rest: string)
    requires d.mem == ""
    requires '\n' !in x && '\n' !in q
    requires x != "" && IsTrimmed(x) && x != DoneSentinel && classify(x).Throws?
    requires !IsBlank(q)
    requires !StartsWith(x + q, DataPrefix)
    ensures DecodeChunk(classify, DecodeChunk(classify, d, DataPrefix + x), q + "\n" + rest)
         == DecodeChunk(classify, d, DataPrefix + x + q + "\n" + rest)
  {
    TrimUnique([], x, []);
    assert [] + x + [] == x;
    SplitLineReassembled(classify, d, x, q, rest);
  }

  /** A line cut anywhere, inside the `data: ` marker included: a first chunk that
      holds only the cut line's first half `a`, whose payload parsing rejects, is
      kept as that payload, and the second chunk then decodes as though the payload
      and the second half had arrived as one line. */
  lemma SplitLineAnywhere(classify: Classifier, d: Decoder, a: string, q: string, rest: string)
    requires d.mem == ""
    requires '\n' !in a && '\n' !in q
    requires !IsBlank(a) && !IsBlank(q)
    requires Payload(a) != "" && Payload(a) != DoneSentinel && classify(Payload(a)).Throws?
    ensures DecodeChunk(classify, DecodeChunk(classify, d, a), q + "\n" + rest)
         == DecodeChunk(classify, d, Payload(a) + q + "\n" + rest)
  {
    var m := Payload(a);
    FirstHalfKept(classify, d, a);
    SecondHalfGlued(classify, d, m, q, rest);
    TrimChars(StripDataPrefix(a));
    assert '\n' !in m;
    BlankIff(m + q);
    assert (m + q)[0] == m[0];
    LinesAround(m + q, rest);
    OneLine(m + q);
  }

  /** A first chunk of one line whose payload parsing rejects leaves only that
      payload as the carry-over. */
  lemma FirstHalfKept(classify: Classifier, d: Decoder, a: string)
    requires d.mem == ""
    requires '\n' !in a && !IsBlank(a)
    requires Payload(a) != DoneSentinel && classify(Payload(a)).Throws?
    ensures DecodeChunk(classify, d, a) == d.(mem := Payload(a))
  {
    OneLine(a);
    assert GluedLines(d.mem, a) == [a];
    var d1 := d.(mem := Payload(a));
    assert ProcessLine(classify, d, a) == Next(d1);
    assert [a][1..] == [];
    assert DecodeLines(classify, d, [a]) == DecodeLines(classify, d1, []);
  }

  /** A cut inside the marker (`"dat"` then `"a: ..."`), or before it: a first half
      with no white space at its ends that does not itself start with the marker is
      its own payload, and the halves decode exactly as the unsplit line. */
  lemma SplitLineAnywhereExact(classify: Classifier, d: Decoder, a: string, q: string, rest: string)
    requires d.mem == ""
    requires '\n' !in a && '\n' !in q
    requires a != "" && IsTrimmed(a) && !StartsWith(a, DataPrefix)
    requires a != DoneSentinel && classify(a).Throws?
    requires !IsBlank(q)
    ensures DecodeChunk(classify, DecodeChunk(classify, d, a), q + "\n" + rest)
         == DecodeChunk(classify, d, a + q + "\n" + rest)
  {
    TrimUnique([], a, []);
    assert [] + a + [] == a;
    SplitLineAnywhere(classify, d, a, q, rest);
  }

  /** The general case of a cut line: complete lines that neither fail nor end the
      stream may come before the cut line's first half, in the same chunk. The cut
      line decodes as the whole line with the first half's trailing white space removed. */
  lemma SplitLineAfterLines(classify: Classifier, d: Decoder, u: string, x: string, q: string, rest: string)
    requires d.mem == ""
    requires forall l :: l in NonBlankLines(u) ==> !IsDone(l) && !Fails(classify, l)
    requires '\n' !in x && '\n' !in q
    requires Trim(x) != "" && Trim(x) != DoneSentinel && classify(Trim(x)).Throws?
    requires !IsBlank(q)
    requires !StartsWith(Trim(x) + q, DataPrefix)
    ensures DecodeChunk(classify, DecodeChunk(classify, d, u + "\n" + DataPrefix + x), q + "\n" + rest)
         == DecodeChunk(classify, d, u + "\n" + DataPrefix + Trim(x) + q + "\n" + rest)
  {
    var d' := DecodeLines(classify, d, NonBlankLines(u));
    var first := DataPrefix + x;
    var whole := DataPrefix + Trim(x) + q + "\n" + rest;
    AfterLinesRegroup(u, x, Trim(x), q, rest);
    CleanPrefixChunk(classify, d, u, first);
    CleanPrefixChunk(classify, d, u, whole);
    SplitLineReassembled(classify, d', x, q, rest);
  }

  lemma AfterLinesRegroup(u: string, x: string, t: string, q: string, rest: string)
    ensures u + "\n" + DataPrefix + x == u + "\n" + (DataPrefix + x)
    ensures u + "\n" + DataPrefix + t + q + "\n" + rest == u + "\n" + (DataPrefix + t + q + "\n" + rest)
  {
  }

  /** With complete lines before it, a cut line whose first half has no trailing
      white space decodes exactly as the whole line. */
  lemma SplitLineExactAfterLines(classify: Classifier, d: Decoder, u: string, x: string, q: string, rest: string)
    requires d.mem == ""
    requires forall l :: l in NonBlankLines(u) ==> !IsDone(l) && !Fails(classify, l)
    requires '\n' !in x && '\n' !in q
    requires x != "" && IsTrimmed(x) && x != DoneSentinel && classify(x).Throws?
    requires !IsBlank(q)
    requires !StartsWith(x + q, DataPrefix)
    ensures DecodeChunk(classify, DecodeChunk(classify, d, u + "\n" + DataPrefix + x), q + "\n" + rest)
         == DecodeChunk(classify, d, u + "\n" + DataPrefix + x + q + "\n" + rest)
  {
    TrimUnique([], x, []);
    assert [] + x + [] == x;
    SplitLineAfterLines(classify, d, u, x, q, rest);
  }

  /** Complete lines that neither fail nor end the stream, at the head of a chunk,
      are processed first and leave no carry-over for the rest of the chunk. */
  lemma CleanPrefixChunk(classify: Classifier, d: Decoder, u: string, tail: string)
    requires d.mem == ""
    requires forall l :: l in NonBlankLines(u) ==> !IsDone(l) && !Fails(classify, l)
    ensures var d' := DecodeLines(classify, d, NonBlankLines(u));
      d'.mem == "" && DecodeChunk(classify, d, u + "\n" + tail) == DecodeChunk(classify, d', tail)
  {
    var lu := NonBlankLines(u);
    LinesAround(u, tail);
    assert !HasDone(lu) by {
      forall i | 0 <= i < |lu| ensures !IsDone(lu[i]) {
        assert lu[i] in lu;
      }
    }
    CleanLinesKeepState(classify, d, lu);
    DecodeLinesAppend(classify, d, lu, NonBlankLines(tail));
  }

  /** Chunks that end on a line break decode as their concatenation does, provided
      the first one neither ends the stream nor leaves a carry-over. */
  lemma LineAlignedChunks(classify: Classifier, d: Decoder, u: string, v: string)
    requires d.mem == ""
    requires forall l :: l in NonBlankLines(u) ==> !IsDone(l) && !Fails(classify, l)
    ensures DecodeChunk(classify, DecodeChunk(classify, d, u + "\n"), v)
         == DecodeChunk(classify, d, u + "\n" + v)
  {
    var lu := NonBlankLines(u);
    EndsOnBreak(u);
    LinesAround(u, v);
    assert !HasDone(lu) by {
      forall i | 0 <= i < |lu| ensures !IsDone(lu[i]) {
        assert lu[i] in lu;
      }
    }
    CleanLinesKeepState(classify, d, lu);
    DecodeLinesAppend(classify, d, lu, NonBlankLines(v));
  }

  lemma EndsOnBreak(u: string)
    ensures NonBlankLines(u + "\n") == NonBlankLines(u)
  {
    LinesAround(u, "");
    assert u + "\n" + "" == u + "\n";
    assert NonBlankLines("") == [] by {
      assert Split("", '\n') == [""];
      assert IsBlank("");
    }
    assert NonBlankLines(u) + [] == NonBlankLines(u);
  }

  /** Lines that neither end the stream nor fail leave the carry-over alone. */
  lemma {:induction false} CleanLinesKeepState(classify: Classifier, d: Decoder, lines: seq<string>)
    requires forall l :: l in lines ==> !IsDone(l) && !Fails(classify, l)
    ensures DecodeLines(classify, d, lines).mem == d.mem
    decreases |lines|
  {
    if lines != [] {
      assert lines[0] in lines;
      assert forall l :: l in lines[1..] ==> l in lines;
      CleanLinesKeepState(classify, ProcessLine(classify, d, lines[0]).d, lines[1..]);
    }
  }
}
