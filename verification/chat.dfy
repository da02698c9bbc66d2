/** The chat side of the demo: the history edits behind the buttons, and the
    handler that, for one turn, waits for the model workers to be ready, sends
    every worker the same request, and relays the streamed answer back into
    the displayed history until the final chunk arrives. Queues are sequences:
    the inbound queue is the list of items it will deliver, a worker queue is
    the list of requests put on it. */
module Chat {
  import opened Wrappers
  import opened PyStr
  import opened HtmlEscape
  import StreamFraming
  import Grounding
  import BoxDrawing

  /** One exchange; either side may still be missing. */
  datatype Turn = Turn(user: Option<string>, bot: Option<string>)

  type History = seq<Turn>

  // ---------------------------------------------------------------------------
  // History edits

  /** `show_user_input`: clear the textbox and open a turn for the message. */
  function ShowUserInput(msg: string, h: History): (r: (string, History))
    ensures r.0 == ""
    ensures |r.1| == |h| + 1 && r.1[..|h|] == h
    ensures r.1[|h|] == Turn(Some(msg), None)
  {
    ("", h + [Turn(Some(msg), None)])
  }

  /** `undo`: drop the last turn, if there is one. */
  function Undo(h: History): (r: History)
    ensures |h| == 0 ==> r == []
    ensures |h| > 0 ==> r + [h[|h| - 1]] == h
  {
    if |h| > 0 then h[..|h| - 1] else h
  }

  /** `clear`: an empty history and an empty textbox. */
  function Clear(): (r: (History, string))
    ensures |r.0| == 0 && |r.1| == 0
  {
    ([], "")
  }

  lemma UndoShowUserInput(msg: string, h: History)
    ensures Undo(ShowUserInput(msg, h).1) == h
  {
    assert (h + [Turn(Some(msg), None)])[..|h|] == h;
  }

  /** Undo removes exactly one turn and touches none of the others. */
  lemma UndoKeepsEarlierTurns(h: History)
    ensures |Undo(h)| == if |h| == 0 then 0 else |h| - 1
    ensures forall i :: 0 <= i < |Undo(h)| ==> Undo(h)[i] == h[i]
  {
  }

  /** After a clear, sending a message gives a one-turn history that undo
      empties again. */
  lemma ClearThenMessage(msg: string)
    ensures ShowUserInput(msg, Clear().0).1 == [Turn(Some(msg), None)]
    ensures Undo(ShowUserInput(msg, Clear().0).1) == Clear().0
  {
    UndoShowUserInput(msg, Clear().0);
  }

  // ---------------------------------------------------------------------------
  // The history sent to the workers

  function UnescapeField(f: Option<string>): Option<string> {
    match f
    case None => None
    case Some(s) => Some(Unescape(s))
  }

  function EscapeField(f: Option<string>): Option<string> {
    match f
    case None => None
    case Some(s) => Some(Escape(s))
  }

  predicate EntityFree(f: Option<string>) {
    f.Some? ==> !Contains(f.value, LtEntity) && !Contains(f.value, GtEntity)
  }

  /** One turn as a worker receives it: `&lt;`/`&gt;` turned back into
      brackets on both sides, a missing side left missing. */
  function UnescapeTurn(t: Turn): (u: Turn)
    ensures (u.user.Some? <==> t.user.Some?) && (u.bot.Some? <==> t.bot.Some?)
    ensures EntityFree(u.user) && EntityFree(u.bot)
    ensures EntityFree(t.user) && EntityFree(t.bot) ==> u == t
  {
    Turn(UnescapeField(t.user), UnescapeField(t.bot))
  }

  /** The copy of the history a worker receives, turn by turn: the same turns,
      each side free of entities, a missing side still missing, and a history
      without entities passed on as it is. */
  function UnescapeHistory(h: History): (r: History)
    ensures |r| == |h|
    ensures forall i :: 0 <= i < |r| ==> (r[i].user.Some? <==> h[i].user.Some?) && (r[i].bot.Some? <==> h[i].bot.Some?)
    ensures forall i :: 0 <= i < |r| ==> EntityFree(r[i].user) && EntityFree(r[i].bot)
    ensures (forall i :: 0 <= i < |h| ==> EntityFree(h[i].user) && EntityFree(h[i].bot)) ==> r == h
  {
    seq(|h|, i requires 0 <= i < |h| => UnescapeTurn(h[i]))
  }

  /** The history as the chat window holds it: a user message stored raw by
      `show_user_input`, a bot reply stored escaped by the streaming loop. */
  function ShownHistory(h: History): (r: History)
    ensures |r| == |h|
    ensures forall i :: 0 <= i < |r| ==> r[i].user == h[i].user
    ensures forall i :: 0 <= i < |r| ==> (r[i].bot.Some? <==> h[i].bot.Some?)
    ensures forall i :: 0 <= i < |r| && r[i].bot.Some? ==> '<' !in r[i].bot.value && '>' !in r[i].bot.value
  {
    seq(|h|, i requires 0 <= i < |h| => Turn(h[i].user, EscapeField(h[i].bot)))
  }

  /** A conversation whose texts carry no entities of their own reaches the
      workers unchanged: the bot replies lose their display escaping and the
      raw user messages, brackets included, pass through as typed. */
  lemma UnescapeShownHistory(h: History)
    requires forall i :: 0 <= i < |h| ==> EntityFree(h[i].user) && EntityFree(h[i].bot)
    ensures UnescapeHistory(ShownHistory(h)) == h
  {
    var r := UnescapeHistory(ShownHistory(h));
    forall i | 0 <= i < |h| ensures r[i] == h[i] {
      if h[i].bot.Some? {
        UnescapeEscape(h[i].bot.value);
      }
    }
  }

  /** A user message holding its own `&lt;` reaches the workers altered:
      the entity the user typed comes back as a bracket. */
  lemma TypedEntityIsUnescaped()
    ensures UnescapeHistory(ShownHistory([Turn(Some("a&lt;b"), None)])) == [Turn(Some("a<b"), None)]
  {
    assert "a&lt;b" == ['a'] + (LtEntity + "b");
    ReplaceConsNoMatch('a', LtEntity + "b", LtEntity, "<");
    ReplaceHeadMatch("b", LtEntity, "<");
    assert Replace("a&lt;b", LtEntity, "<") == "a<b";
    assert !Contains("a<b", GtEntity);
    assert Unescape("a&lt;b") == "a<b";
  }

  // ---------------------------------------------------------------------------
  // Inbound queue: wait for the workers

  /** An item of the inbound queue: the readiness sentinel or a streamed chunk. */
  datatype InboxItem = Ready | Piece(chunk: StreamFraming.Chunk)

  /** Everything up to and including the first `Ready` is consumed; without a
      `Ready` the handler never gets past the wait (`None`). */
  function DrainToReady(inbox: seq<InboxItem>): (r: Option<seq<InboxItem>>)
    ensures r.None? <==> Ready !in inbox
    ensures r.Some? ==>
      && |r.value| < |inbox| && r.value == inbox[|inbox| - |r.value|..]
      && inbox[|inbox| - |r.value| - 1] == Ready && Ready !in inbox[..|inbox| - |r.value| - 1]
    decreases |inbox|
  {
    if |inbox| == 0 then None
    else if inbox[0] == Ready then Some(inbox[1..])
    else
      var r := DrainToReady(inbox[1..]);
      assert inbox == [inbox[0]] + inbox[1..];
      if r.Some? then
        assert inbox[1..][..|inbox| - |r.value| - 2] == inbox[1..|inbox| - |r.value| - 1];
        r
      else r
  }

  /** Whatever arrives before the first `Ready` is dropped. */
  lemma {:induction false} DrainSkipsNoise(noise: seq<InboxItem>, rest: seq<InboxItem>)
    requires Ready !in noise
    ensures DrainToReady(noise + [Ready] + rest) == Some(rest)
    decreases |noise|
  {
    if |noise| == 0 {
      assert noise + [Ready] + rest == [Ready] + rest;
    } else {
      assert (noise + [Ready] + rest)[1..] == noise[1..] + [Ready] + rest;
      DrainSkipsNoise(noise[1..], rest);
    }
  }

  // ---------------------------------------------------------------------------
  // Fan-out

  /** The picture a turn refers to: its path and, when it opens, its size. */
  datatype ImageRef = ImageRef(path: string, size: BoxDrawing.ImageSize)

  /** The tuple put on each worker queue. */
  datatype Request = Request(
    image: Option<ImageRef>, history: History,
    maxGenLen: int, temperature: real, topP: real, transform: string)

  /** One request appended to every worker queue, in queue order. */
  function FanOut(queues: seq<seq<Request>>, req: Request): (r: seq<seq<Request>>)
    ensures |r| == |queues|
    ensures forall i :: 0 <= i < |r| ==> |r[i]| == |queues[i]| + 1 && r[i][..|queues[i]|] == queues[i] && r[i][|queues[i]|] == req
    decreases |queues|
  {
    if |queues| == 0 then []
    else [queues[0] + [req]] + FanOut(queues[1..], req)
  }

  // ---------------------------------------------------------------------------
  // Relay

  /** What the handler shows after each chunk: the history, and on the final
      chunk the recoloured answer and the boxes drawn on the picture. */
  datatype Yield = Yield(history: History, colored: Option<string>, boxes: Option<seq<BoxDrawing.DrawnBox>>)

  datatype RelayError =
    | NotAChunk                      // a `Ready` item read as a chunk
    | NoTurn                         // the history has no turn to fill
    | Draw(cause: BoxDrawing.DrawError)

  datatype RelayEnd =
    | Finished(rest: seq<InboxItem>) // the final chunk was relayed; `rest` stays queued
    | Failed(error: RelayError)
    | Blocked                        // the queue ran dry before the final chunk

  datatype Relayed = Relayed(frames: seq<Yield>, end: RelayEnd)

  /** The last turn of `h` with its bot side set to `text`. */
  function SetLastBot(h: History, text: string): (r: History)
    requires |h| > 0
    ensures |r| == |h| && r[..|h| - 1] == h[..|h| - 1]
    ensures r[|h| - 1] == Turn(h[|h| - 1].user, Some(text))
  {
    h[..|h| - 1] + [Turn(h[|h| - 1].user, Some(text))]
  }

  lemma SetLastBotTwice(h: History, a: string, b: string)
    requires |h| > 0
    ensures SetLastBot(SetLastBot(h, a), b) == SetLastBot(h, b)
  {
    assert SetLastBot(h, a)[..|h| - 1] == h[..|h| - 1];
  }

  function ImageSizeOf(image: Option<ImageRef>): Option<BoxDrawing.ImageSize> {
    if image.Some? then Some(image.value.size) else None
  }

  /** The final chunk: recolour its text and draw its boxes. It fails when
      there is no picture, or when a grounded phrase carries a number of
      coordinates that is not a whole number of boxes. */
  function Finish(text: string, image: Option<ImageRef>): (r: Result<(string, seq<BoxDrawing.DrawnBox>), RelayError>)
    ensures var anns := Grounding.Annotations(text);
      r.Ok? <==> image.Some? && forall i :: 0 <= i < |anns| ==> |anns[i].numbers| % 4 == 0
    ensures image.None? ==> r == Err(Draw(BoxDrawing.NoImage))
    ensures r.Err? ==> r.error.Draw?
  {
    var anns := Grounding.Annotations(text);
    var drawn := BoxDrawing.DrawBoxOnImage(ImageSizeOf(image), BoxDrawing.ToLabeled(anns));
    if drawn.Err? then Err(Draw(drawn.error))
    else Ok((Grounding.Recolor(text, anns), drawn.value))
  }

  /** Where the walk over the leading non-final chunks stops: at the final
      chunk (with the history showing it and the items behind it), at an
      item it cannot relay, or at the end of the queue. */
  datatype WalkEnd =
    | AtFinal(chunk: StreamFraming.Chunk, shown: History, rest: seq<InboxItem>)
    | Stopped(error: RelayError)
    | Dry

  datatype Walked = Walked(frames: seq<Yield>, end: WalkEnd)

  /** The relay loop up to its final chunk: each non-final chunk, escaped,
      becomes the bot side of the last turn and is shown. */
  function RelayChunks(inbox: seq<InboxItem>, h: History): (w: Walked)
    ensures |w.frames| <= |inbox|
    ensures forall i :: 0 <= i < |w.frames| ==>
      && |w.frames[i].history| == |h| > 0 && w.frames[i].history[..|h| - 1] == h[..|h| - 1]
      && w.frames[i].colored.None? && w.frames[i].boxes.None?
    ensures w.end.AtFinal? ==>
      && |w.frames| < |inbox| && inbox[|w.frames|] == Piece(w.end.chunk) && w.end.chunk.endOfContent
      && w.end.rest == inbox[|w.frames| + 1..]
      && |w.end.shown| == |h| > 0 && w.end.shown[..|h| - 1] == h[..|h| - 1]
    decreases |inbox|
  {
    if |inbox| == 0 then Walked([], Dry)
    else match inbox[0]
      case Ready => Walked([], Stopped(NotAChunk))
      case Piece(c) =>
        if |h| == 0 then Walked([], Stopped(NoTurn))
        else
          var shown := SetLastBot(h, Escape(c.text));
          if c.endOfContent then Walked([], AtFinal(c, shown, inbox[1..]))
          else
            var rest := RelayChunks(inbox[1..], shown);
            Walked([Yield(shown, None, None)] + rest.frames, rest.end)
  }

  /** The relay loop: the walk over the non-final chunks, then the final
      chunk shown with its recoloured text and its boxes; the first final
      chunk ends the loop. */
  function Relay(inbox: seq<InboxItem>, h: History, image: Option<ImageRef>): (r: Relayed)
    ensures |r.frames| <= |inbox|
    ensures forall i :: 0 <= i < |r.frames| ==> |r.frames[i].history| == |h| > 0 && r.frames[i].history[..|h| - 1] == h[..|h| - 1]
    ensures forall i :: 0 <= i < |r.frames| - 1 ==> r.frames[i].colored.None? && r.frames[i].boxes.None?
    ensures r.end.Finished? <==> |r.frames| > 0 && r.frames[|r.frames| - 1].colored.Some?
    ensures r.end.Finished? ==> r.end.rest == inbox[|r.frames|..] && r.frames[|r.frames| - 1].boxes.Some?
  {
    var w := RelayChunks(inbox, h);
    match w.end
    case Dry => Relayed(w.frames, Blocked)
    case Stopped(e) => Relayed(w.frames, Failed(e))
    case AtFinal(c, shown, rest) =>
      var fin := Finish(c.text, image);
      if fin.Err? then Relayed(w.frames, Failed(fin.error))
      else Relayed(w.frames + [Yield(shown, Some(fin.value.0), Some(fin.value.1))], Finished(rest))
  }

  /** The turn handler `stream_model_output`: wait for `Ready`, fan the request
      out with the unescaped history, then relay. */
  function StreamModelOutput(
    inbox: seq<InboxItem>, queues: seq<seq<Request>>, h: History, image: Option<ImageRef>,
    maxGenLen: int, temperature: real, topP: real, transform: string): (r: (seq<seq<Request>>, Relayed))
    ensures DrainToReady(inbox).None? ==> r == (queues, Relayed([], Blocked))
    ensures DrainToReady(inbox).Some? ==>
      && |r.0| == |queues|
      && forall i :: 0 <= i < |queues| ==>
        r.0[i] == queues[i] + [Request(image, UnescapeHistory(h), maxGenLen, temperature, topP, transform)]
  {
    match DrainToReady(inbox)
    case None => (queues, Relayed([], Blocked))
    case Some(rest) =>
      var req := Request(image, UnescapeHistory(h), maxGenLen, temperature, topP, transform);
      var q := FanOut(queues, req);
      assert forall i :: 0 <= i < |queues| ==> q[i] == queues[i] + [req];
      (q, Relay(rest, h, image))
  }

  function Pieces(cs: seq<StreamFraming.Chunk>): (items: seq<InboxItem>)
    ensures |items| == |cs| && Ready !in items
    ensures forall i :: 0 <= i < |cs| ==> items[i] == Piece(cs[i])
  {
    seq(|cs|, i requires 0 <= i < |cs| => Piece(cs[i]))
  }

  /** One non-final chunk is shown and the relay carries on with the rest. */
  lemma RelayNonFinal(c: StreamFraming.Chunk, rest: seq<InboxItem>, h: History, image: Option<ImageRef>)
    requires |h| > 0 && !c.endOfContent
    ensures var shown := SetLastBot(h, Escape(c.text));
      var r := Relay(rest, shown, image);
      Relay([Piece(c)] + rest, h, image) == Relayed([Yield(shown, None, None)] + r.frames, r.end)
  {
    assert ([Piece(c)] + rest)[1..] == rest;
    var shown := SetLastBot(h, Escape(c.text));
    var w := RelayChunks(rest, shown);
    assert RelayChunks([Piece(c)] + rest, h) == Walked([Yield(shown, None, None)] + w.frames, w.end);
    if w.end.AtFinal? {
      var fin := Finish(w.end.chunk.text, image);
      if fin.Ok? {
        var y := Yield(w.end.shown, Some(fin.value.0), Some(fin.value.1));
        assert ([Yield(shown, None, None)] + w.frames) + [y] == [Yield(shown, None, None)] + (w.frames + [y]);
      }
    }
  }

  /** The final chunk ends the relay, whatever is queued behind it: either
      its frame is shown and the relay finishes, or drawing its boxes fails. */
  lemma RelayFinal(c: StreamFraming.Chunk, rest: seq<InboxItem>, h: History, image: Option<ImageRef>)
    requires |h| > 0 && c.endOfContent
    ensures var r := Relay([Piece(c)] + rest, h, image);
      || (r.end == Finished(rest) && |r.frames| == 1)
      || (r.end.Failed? && r.end.error.Draw? && |r.frames| == 0)
  {
    assert ([Piece(c)] + rest)[1..] == rest;
  }

  /** The frame of a final chunk, when there is one, shows that chunk. */
  lemma RelayFinalShows(c: StreamFraming.Chunk, rest: seq<InboxItem>, h: History, image: Option<ImageRef>)
    requires |h| > 0 && c.endOfContent
    ensures var r := Relay([Piece(c)] + rest, h, image);
      forall i :: 0 <= i < |r.frames| ==> r.frames[i].history == SetLastBot(h, Escape(c.text))
  {
    assert ([Piece(c)] + rest)[1..] == rest;
  }

  /** What the final chunk shows: the markdown `extract_and_color` returns
      (see `Grounding.ExtractAndColor`), and every group of four numbers of
      every grounded phrase drawn at its letterbox position on the picture,
      in the phrase's colour and labelled with it. */
  lemma FinishShows(text: string, image: Option<ImageRef>)
    ensures var r := Finish(text, image);
      var anns := Grounding.Annotations(text);
      r.Ok? ==>
        && image.Some?
        && r.value.0 == Grounding.Recolor(text, anns)
        && |r.value.1| == BoxDrawing.TotalBoxes(BoxDrawing.ToLabeled(anns))
        && BoxDrawing.EntriesDrawn(BoxDrawing.ToLabeled(anns),
             BoxDrawing.MaxEdge(image.value.size), BoxDrawing.LetterboxOrigin(image.value.size), r.value.1)
  {
    if image.Some? {
      BoxDrawing.DrawnEntries(image.value.size, BoxDrawing.ToLabeled(Grounding.Annotations(text)));
    }
  }

  /** `y` is what the handler yields for the final chunk `c`: the chunk's
      recoloured markdown and its boxes drawn on the picture. */
  predicate ShowsFinal(c: StreamFraming.Chunk, image: Option<ImageRef>, y: Yield) {
    var anns := Grounding.Annotations(c.text);
    && image.Some?
    && y.colored == Some(Grounding.Recolor(c.text, anns))
    && y.boxes.Some?
    && BoxDrawing.EntriesDrawn(BoxDrawing.ToLabeled(anns),
         BoxDrawing.MaxEdge(image.value.size), BoxDrawing.LetterboxOrigin(image.value.size), y.boxes.value)
  }

  /** When the relay finishes, its last frame belongs to a final chunk and
      shows that chunk's recoloured markdown and its boxes drawn on the
      picture. */
  lemma {:induction false} RelayFinalColored(inbox: seq<InboxItem>, h: History, image: Option<ImageRef>)
    ensures var r := Relay(inbox, h, image);
      r.end.Finished? ==>
        var k := |r.frames| - 1;
        && inbox[k].Piece? && inbox[k].chunk.endOfContent
        && ShowsFinal(inbox[k].chunk, image, r.frames[k])
    decreases |inbox|, 1
  {
    if |inbox| > 0 && inbox[0].Piece? && |h| > 0 {
      var c := inbox[0].chunk;
      assert inbox == [Piece(c)] + inbox[1..];
      if c.endOfContent {
        FinalChunkColored(c, inbox[1..], h, image);
      } else {
        NonFinalChunkColored(c, inbox[1..], h, image);
      }
    }
  }

  lemma FinalChunkColored(c: StreamFraming.Chunk, rest: seq<InboxItem>, h: History, image: Option<ImageRef>)
    requires |h| > 0 && c.endOfContent
    ensures var r := Relay([Piece(c)] + rest, h, image);
      r.end.Finished? ==> |r.frames| == 1 && ShowsFinal(c, image, r.frames[0])
  {
    assert ([Piece(c)] + rest)[1..] == rest;
    FinishShows(c.text, image);
  }

  lemma {:induction false} NonFinalChunkColored(c: StreamFraming.Chunk, rest: seq<InboxItem>, h: History, image: Option<ImageRef>)
    requires |h| > 0 && !c.endOfContent
    ensures var inbox := [Piece(c)] + rest;
      var r := Relay(inbox, h, image);
      r.end.Finished? ==>
        var k := |r.frames| - 1;
        && inbox[k].Piece? && inbox[k].chunk.endOfContent
        && ShowsFinal(inbox[k].chunk, image, r.frames[k])
    decreases |rest| + 1, 0
  {
    var shown := SetLastBot(h, Escape(c.text));
    RelayNonFinal(c, rest, h, image);
    RelayFinalColored(rest, shown, image);
    var r := Relay(rest, shown, image);
    if r.end.Finished? {
      assert ([Piece(c)] + rest)[|r.frames|] == rest[|r.frames| - 1];
    }
  }

  /** A stream whose last chunk, and only it, is final: one frame per chunk;
      the relay finishes and leaves later items queued, unless drawing the
      boxes fails on the last chunk. */
  lemma {:induction false} RelayStream(cs: seq<StreamFraming.Chunk>, more: seq<InboxItem>, h: History, image: Option<ImageRef>)
    requires |cs| > 0 && |h| > 0
    requires forall i :: 0 <= i < |cs| - 1 ==> !cs[i].endOfContent
    requires cs[|cs| - 1].endOfContent
    ensures var r := Relay(Pieces(cs) + more, h, image);
      || (r.end == Finished(more) && |r.frames| == |cs|)
      || (r.end.Failed? && r.end.error.Draw? && |r.frames| == |cs| - 1)
    decreases |cs|
  {
    if |cs| == 1 {
      assert Pieces(cs) + more == [Piece(cs[0])] + more;
      RelayFinal(cs[0], more, h, image);
    } else {
      var shown := SetLastBot(h, Escape(cs[0].text));
      RelayStream(cs[1..], more, shown, image);
      RelayCountStep(cs, more, h, image);
    }
  }

  /** Relaying a leading non-final chunk adds one frame and keeps the ending. */
  lemma RelayCountStep(cs: seq<StreamFraming.Chunk>, more: seq<InboxItem>, h: History, image: Option<ImageRef>)
    requires |cs| > 1 && |h| > 0 && !cs[0].endOfContent
    ensures var rest := Relay(Pieces(cs[1..]) + more, SetLastBot(h, Escape(cs[0].text)), image);
      var r := Relay(Pieces(cs) + more, h, image);
      r.end == rest.end && |r.frames| == |rest.frames| + 1
  {
    assert Pieces(cs) + more == [Piece(cs[0])] + (Pieces(cs[1..]) + more);
    RelayNonFinal(cs[0], Pieces(cs[1..]) + more, h, image);
  }

  /** Each frame of the relay shows the chunk it came from, escaped, as the bot
      side of the last turn; earlier turns are shown as they were. */
  lemma {:induction false} RelayShowsChunks(cs: seq<StreamFraming.Chunk>, more: seq<InboxItem>, h: History, image: Option<ImageRef>)
    requires |cs| > 0 && |h| > 0
    requires forall i :: 0 <= i < |cs| - 1 ==> !cs[i].endOfContent
    ensures var r := Relay(Pieces(cs) + more, h, image);
      forall i :: 0 <= i < |r.frames| && i < |cs| ==> r.frames[i].history == SetLastBot(h, Escape(cs[i].text))
    decreases |cs|
  {
    assert Pieces(cs) + more == [Piece(cs[0])] + (Pieces(cs[1..]) + more);
    var shown := SetLastBot(h, Escape(cs[0].text));
    var r := Relay(Pieces(cs) + more, h, image);
    if cs[0].endOfContent {
      RelayFinalShows(cs[0], Pieces(cs[1..]) + more, h, image);
    } else {
      var tail := cs[1..];
      RelayNonFinal(cs[0], Pieces(tail) + more, h, image);
      var rest := Relay(Pieces(tail) + more, shown, image);
      assert r.frames == [Yield(shown, None, None)] + rest.frames;
      if |tail| > 0 {
        RelayShowsChunks(tail, more, shown, image);
      }
      forall i | 0 <= i < |r.frames| && i < |cs|
        ensures r.frames[i].history == SetLastBot(h, Escape(cs[i].text))
      {
        if i > 0 {
          assert r.frames[i] == rest.frames[i - 1];
          assert tail[i - 1] == cs[i];
          SetLastBotTwice(h, Escape(cs[0].text), Escape(cs[i].text));
        }
      }
    }
  }

  /** Once the readiness sentinel has come, the handler relays the rest. */
  lemma StreamAfterReady(
    noise: seq<InboxItem>, rest: seq<InboxItem>, queues: seq<seq<Request>>, h: History, image: Option<ImageRef>,
    maxGenLen: int, temperature: real, topP: real, transform: string)
    requires Ready !in noise
    ensures var r := StreamModelOutput(noise + [Ready] + rest, queues, h, image, maxGenLen, temperature, topP, transform);
      |r.0| == |queues| && r.1 == Relay(rest, h, image)
  {
    DrainSkipsNoise(noise, rest);
  }

  /** End to end for one turn: noise, the readiness sentinel, then what a worker
      emits for a generation that reaches its separator or its end. Every worker
      queue gets the request, and the handler shows one yield per emitted chunk
      (the last one only if its boxes can be drawn). */
  lemma TurnEndToEnd(
    noise: seq<InboxItem>, records: seq<StreamFraming.Chunk>, conv: StreamFraming.ConvTemplate,
    more: seq<InboxItem>, queues: seq<seq<Request>>, h: History, image: Option<ImageRef>,
    maxGenLen: int, temperature: real, topP: real, transform: string)
    requires Ready !in noise && |h| > 0
    requires exists k :: 0 <= k < |records| && StreamFraming.Finishes(records[k], StreamFraming.TurnSeparator(conv))
    ensures var out := StreamFraming.WorkerOutput(records, conv, true);
      var r := StreamModelOutput(noise + [Ready] + Pieces(out) + more, queues, h, image, maxGenLen, temperature, topP, transform);
      && |out| > 0
      && |r.0| == |queues|
      && (r.1.end == Finished(more) ==> |r.1.frames| == |out|)
      && (r.1.end.Failed? ==> r.1.end.error.Draw? && |r.1.frames| == |out| - 1)
      && (r.1.end.Finished? || r.1.end.Failed?)
      && forall i :: 0 <= i < |r.1.frames| && i < |out| ==> r.1.frames[i].history == SetLastBot(h, Escape(out[i].text))
  {
    var sep := StreamFraming.TurnSeparator(conv);
    var out := StreamFraming.WorkerOutput(records, conv, true);
    assert out == StreamFraming.Emitted(records, sep);
    assert |out| > 0 && out[|out| - 1].endOfContent;
    TurnOfStream(noise, out, more, queues, h, image, maxGenLen, temperature, topP, transform);
  }

  /** The same for any stream whose last chunk, and only it, is final. */
  lemma TurnOfStream(
    noise: seq<InboxItem>, out: seq<StreamFraming.Chunk>,
    more: seq<InboxItem>, queues: seq<seq<Request>>, h: History, image: Option<ImageRef>,
    maxGenLen: int, temperature: real, topP: real, transform: string)
    requires Ready !in noise && |h| > 0
    requires |out| > 0 && out[|out| - 1].endOfContent
    requires forall i :: 0 <= i < |out| - 1 ==> !out[i].endOfContent
    ensures var r := StreamModelOutput(noise + [Ready] + Pieces(out) + more, queues, h, image, maxGenLen, temperature, topP, transform);
      && |r.0| == |queues|
      && (r.1.end == Finished(more) ==> |r.1.frames| == |out|)
      && (r.1.end.Failed? ==> r.1.end.error.Draw? && |r.1.frames| == |out| - 1)
      && (r.1.end.Finished? || r.1.end.Failed?)
      && forall i :: 0 <= i < |r.1.frames| && i < |out| ==> r.1.frames[i].history == SetLastBot(h, Escape(out[i].text))
  {
    assert noise + [Ready] + Pieces(out) + more == noise + [Ready] + (Pieces(out) + more);
    StreamAfterReady(noise, Pieces(out) + more, queues, h, image, maxGenLen, temperature, topP, transform);
    RelayStream(out, more, h, image);
    RelayShowsChunks(out, more, h, image);
  }
}
