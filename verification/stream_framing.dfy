/** How an inference worker turns the model's stream of cumulative decodings
    into the chunks it puts on the response queue: it cuts the text at the
    conversation template's turn separator and, until the separator has been
    seen, holds back as many trailing characters as the separator is long, so
    that a half-generated separator is never shown. */
module StreamFraming {
  import opened PyStr

  /** Only the distinction between the SINGLE style and every other style
      matters to the worker. */
  datatype SeparatorStyle = Single | NotSingle

  /** The part of a conversation template the worker reads. */
  datatype ConvTemplate = ConvTemplate(sepStyle: SeparatorStyle, sep: string, sep2: string)

  /** One `{text, end_of_content}` record, both as the model yields it (with the
      cumulative text so far) and as the worker sends it on. */
  datatype Chunk = Chunk(text: string, endOfContent: bool)

  /** What the worker does with one record: skip it, or send this chunk. */
  datatype Framed = Withheld | Emit(chunk: Chunk)

  /** The separator that ends a turn: `sep` for the SINGLE style, `sep2`
      otherwise. */
  function TurnSeparator(conv: ConvTemplate): string {
    if conv.sepStyle == Single then conv.sep else conv.sep2
  }

  /** A record that ends the turn: the separator shows up in its text, or the
      model itself says the content has ended. */
  predicate Finishes(rec: Chunk, sep: string) {
    Contains(rec.text, sep) || rec.endOfContent
  }

  /** Python's `text[:-n]`; for `n == 0` that slice is empty. */
  function DropLast(text: string, n: nat): string
    requires n <= |text|
  {
    if n == 0 then [] else text[..|text| - n]
  }

  /** The per-record rule of the worker loop. */
  function FrameRecord(rec: Chunk, sep: string): (f: Framed)
    ensures f.Withheld? <==> !Finishes(rec, sep) && |rec.text| < |sep|
    ensures f.Emit? ==> (f.chunk.endOfContent <==> Finishes(rec, sep))
    ensures f.Emit? && !f.chunk.endOfContent ==>
      && f.chunk.text <= rec.text
      && |f.chunk.text| + |sep| == |rec.text|
      && !Contains(f.chunk.text, sep)
    ensures rec.endOfContent && !Contains(rec.text, sep) ==> f == Emit(rec)
    ensures Contains(rec.text, sep) && |sep| > 0 ==>
      && f.Emit?
      && var t := f.chunk.text;
      && |t| > 0 && t[|t| - 1] == '\n'
      && t[..|t| - 1] <= rec.text
      && !Contains(t[..|t| - 1], sep)
  {
    var cut := CutAtSeparator(rec, sep);
    if !cut.endOfContent then
      if |cut.text| < |sep| then Withheld
      else
        var t := DropLast(cut.text, |sep|);
        PrefixAvoids(t, cut.text, sep);
        Emit(Chunk(t, false))
    else Emit(cut)
  }

  /** The first half of the rule: a text holding the separator is cut before
      its first occurrence, right-stripped, given a newline and marked final. */
  function CutAtSeparator(rec: Chunk, sep: string): (c: Chunk)
    ensures c.endOfContent <==> Finishes(rec, sep)
    ensures !Contains(rec.text, sep) ==> c == rec
    ensures Contains(rec.text, sep) ==> |sep| > 0 || c.text == "\n"
    ensures Contains(rec.text, sep) && |sep| > 0 ==>
      && |c.text| > 0 && c.text[|c.text| - 1] == '\n'
      && c.text[..|c.text| - 1] <= rec.text
      && !Contains(c.text[..|c.text| - 1], sep)
  {
    var p := Find(rec.text, sep);
    assert OccursAt(rec.text, [], 0);
    if p == -1 then rec
    else if |sep| == 0 then Chunk(RStrip(rec.text[..p]) + "\n", true)
    else
      var kept := RStrip(rec.text[..p]);
      FirstOccurrenceAvoidedBefore(rec.text, sep, p);
      PrefixAvoids(kept, rec.text[..p], sep);
      assert (kept + "\n")[..|kept|] == kept;
      Chunk(kept + "\n", true)
  }

  /** The text before the first occurrence of `w` does not contain `w`. */
  lemma FirstOccurrenceAvoidedBefore(s: string, w: string, p: int)
    requires |w| > 0 && OccursAt(s, w, p)
    requires forall i :: 0 <= i < p ==> !OccursAt(s, w, i)
    ensures !Contains(s[..p], w)
  {
    forall i | 0 <= i <= p
      ensures !OccursAt(s[..p], w, i)
    {
      if i + |w| <= p {
        assert s[..p][i..i + |w|] == s[i..i + |w|];
        assert !OccursAt(s, w, i);
      }
    }
  }

  /** Separator truncation: when the separator first occurs at `p`, the chunk
      sent is the text before it, right-stripped, plus a newline, and it is the
      final one. */
  lemma SeparatorTruncation(rec: Chunk, sep: string, p: nat)
    requires OccursAt(rec.text, sep, p)
    requires forall i :: 0 <= i < p ==> !OccursAt(rec.text, sep, i)
    ensures FrameRecord(rec, sep) == Emit(Chunk(RStrip(rec.text[..p]) + "\n", true))
  {
    var q := Find(rec.text, sep);
    assert OccursAt(rec.text, sep, p);
    assert q != -1;
    assert q <= p;
  }

  /** Withholding: a record that does not end the turn is skipped while it is
      shorter than the separator, and otherwise sent minus its last
      `|sep|` characters. */
  lemma WithholdRule(rec: Chunk, sep: string)
    requires !Finishes(rec, sep)
    ensures |rec.text| < |sep| ==> FrameRecord(rec, sep) == Withheld
    ensures |rec.text| >= |sep| > 0 ==>
      FrameRecord(rec, sep) == Emit(Chunk(rec.text[..|rec.text| - |sep|], false))
  {
  }

  /** The chunks a worker puts on the response queue for one request, given the
      records the model yields: records are framed one by one and the loop
      stops after the first final chunk. */
  function Emitted(records: seq<Chunk>, sep: string): (out: seq<Chunk>)
    ensures |out| <= |records|
    ensures forall i :: 0 <= i < |out| - 1 ==> !out[i].endOfContent
    ensures forall i :: 0 <= i < |out| ==> !out[i].endOfContent ==> !Contains(out[i].text, sep)
    ensures (|out| > 0 && out[|out| - 1].endOfContent) <==>
      exists k :: 0 <= k < |records| && Finishes(records[k], sep)
  {
    if |records| == 0 then []
    else
      var rest := Emitted(records[1..], sep);
      FinishesCons(records, sep);
      match FrameRecord(records[0], sep)
      case Withheld => rest
      case Emit(c) => if c.endOfContent then [c] else [c] + rest
  }

  /** Some record finishes exactly when the first one does or a later one. */
  lemma FinishesCons(records: seq<Chunk>, sep: string)
    requires |records| > 0
    ensures (exists k :: 0 <= k < |records| && Finishes(records[k], sep)) <==>
      (Finishes(records[0], sep) || exists k :: 0 <= k < |records[1..]| && Finishes(records[1..][k], sep))
  {
    assert forall k :: 1 <= k < |records| ==> records[k] == records[1..][k - 1];
  }

  /** One step of `Emitted`, spelled out. */
  lemma EmittedCons(records: seq<Chunk>, sep: string)
    requires |records| > 0
    ensures var f := FrameRecord(records[0], sep);
      Emitted(records, sep) ==
        if f.Withheld? then Emitted(records[1..], sep)
        else if f.chunk.endOfContent then [f.chunk]
        else [f.chunk] + Emitted(records[1..], sep)
  {
  }

  /** What the worker of a given rank sends: only the worker wired to the
      response queue sends anything. */
  function WorkerOutput(records: seq<Chunk>, conv: ConvTemplate, hasResponseQueue: bool): (out: seq<Chunk>)
    ensures !hasResponseQueue ==> out == []
    ensures |out| <= |records|
    ensures forall i :: 0 <= i < |out| - 1 ==> !out[i].endOfContent
    ensures forall i :: 0 <= i < |out| && !out[i].endOfContent ==>
      !Contains(out[i].text, if conv.sepStyle == Single then conv.sep else conv.sep2)
    ensures hasResponseQueue ==>
      ((|out| > 0 && out[|out| - 1].endOfContent) <==>
       exists k :: 0 <= k < |records| && Finishes(records[k], if conv.sepStyle == Single then conv.sep else conv.sep2))
  {
    if hasResponseQueue then Emitted(records, TurnSeparator(conv)) else []
  }

  /** Nothing after the first record that ends the turn is ever looked at: the
      output is what the records before it give, followed by its final chunk. */
  lemma {:induction false} StopsAtFirstFinal(records: seq<Chunk>, sep: string, k: nat)
    requires k < |records| && Finishes(records[k], sep)
    requires forall i :: 0 <= i < k ==> !Finishes(records[i], sep)
    ensures FrameRecord(records[k], sep).Emit?
    ensures Emitted(records, sep) == Emitted(records[..k], sep) + [FrameRecord(records[k], sep).chunk]
    decreases k
  {
    if k > 0 {
      var tail := records[1..];
      assert tail[k - 1] == records[k];
      assert forall i :: 0 <= i < k - 1 ==> tail[i] == records[i + 1];
      StopsAtFirstFinal(tail, sep, k - 1);
      var head := records[..k];
      assert head[1..] == tail[..k - 1];
      assert head[0] == records[0];
      assert !Finishes(records[0], sep);
      EmittedCons(records, sep);
      EmittedCons(head, sep);
      NonFinalFront(FrameRecord(records[0], sep), Emitted(tail[..k - 1], sep), [FrameRecord(records[k], sep).chunk]);
    } else {
      assert records[..0] == [];
      EmittedCons(records, sep);
    }
  }

  /** The chunks a frame that does not end the turn puts in front of `x`. */
  function Front(f: Framed, x: seq<Chunk>): seq<Chunk> {
    if f.Withheld? then x else [f.chunk] + x
  }

  lemma NonFinalFront(f: Framed, x: seq<Chunk>, y: seq<Chunk>)
    ensures Front(f, x + y) == Front(f, x) + y
  {
    if f.Emit? {
      assert [f.chunk] + (x + y) == ([f.chunk] + x) + y;
    }
  }

  /** The model's records carry cumulative text: each one extends the earlier. */
  predicate Cumulative(records: seq<Chunk>) {
    forall i, j :: 0 <= i <= j < |records| ==> records[i].text <= records[j].text
  }

  lemma PrefixTrans(x: string, y: string, z: string)
    requires x <= y && y <= z
    ensures x <= z
  {
    assert z[..|x|] == y[..|x|];
  }

  /** A record that does not end the turn and is long enough is sent without
      its last `|sep|` characters. */
  lemma NonFinalFrame(a: Chunk, sep: string)
    requires FrameRecord(a, sep).Emit? && !FrameRecord(a, sep).chunk.endOfContent
    ensures !Contains(a.text, sep) && |sep| <= |a.text|
    ensures FrameRecord(a, sep).chunk.text == a.text[..|a.text| - |sep|]
  {
  }

  /** A prefix of a separator-free text, shorter by `|sep|`, stops before the
      first separator of any extension. */
  lemma StopsBeforeSeparator(a: string, b: string, sep: string, p: nat)
    requires |sep| > 0 && a <= b && !Contains(a, sep) && |sep| <= |a|
    requires OccursAt(b, sep, p)
    ensures a[..|a| - |sep|] <= b[..p]
  {
    assert !OccursAt(a, sep, p);
  }

  /** For cumulative input, an earlier non-final chunk, right-stripped, is a
      prefix of any later chunk sent. */
  lemma FramePairGrows(a: Chunk, b: Chunk, sep: string)
    requires |sep| > 0 && a.text <= b.text
    requires FrameRecord(a, sep).Emit? && !FrameRecord(a, sep).chunk.endOfContent
    requires FrameRecord(b, sep).Emit?
    ensures RStrip(FrameRecord(a, sep).chunk.text) <= FrameRecord(b, sep).chunk.text
  {
    NonFinalFrame(a, sep);
    var p := Find(b.text, sep);
    if p != -1 {
      SeparatorTruncation(b, sep, p);
      CutChunkExtends(a.text, b.text, sep, p);
    } else if b.endOfContent {
      PrefixTrans(a.text[..|a.text| - |sep|], a.text, b.text);
      PrefixTrans(RStrip(a.text[..|a.text| - |sep|]), a.text[..|a.text| - |sep|], b.text);
    } else {
      NonFinalFrame(b, sep);
      TrimmedChunkExtends(a.text, b.text, |sep|);
    }
  }

  /** The cut of a later text, at its first separator, extends the trimmed
      earlier text, right-stripped. */
  lemma CutChunkExtends(a: string, b: string, sep: string, p: nat)
    requires |sep| > 0 && a <= b && !Contains(a, sep) && |sep| <= |a|
    requires OccursAt(b, sep, p)
    ensures RStrip(a[..|a| - |sep|]) <= RStrip(b[..p]) + "\n"
  {
    var ea := a[..|a| - |sep|];
    StopsBeforeSeparator(a, b, sep, p);
    RStripMonotone(ea, b[..p]);
    assert RStrip(b[..p]) <= RStrip(b[..p]) + "\n";
    PrefixTrans(RStrip(ea), RStrip(b[..p]), RStrip(b[..p]) + "\n");
  }

  /** Trimming the same number of characters keeps the prefix order. */
  lemma TrimmedChunkExtends(a: string, b: string, n: nat)
    requires a <= b && n <= |a|
    ensures RStrip(a[..|a| - n]) <= b[..|b| - n]
  {
    assert a[..|a| - n] <= b[..|b| - n];
    PrefixTrans(RStrip(a[..|a| - n]), a[..|a| - n], b[..|b| - n]);
  }

  /** Every chunk sent from records that all extend `a.text` is at least the
      right-stripped chunk `a` gave. */
  lemma {:induction false} LaterChunksExtend(records: seq<Chunk>, sep: string, a: Chunk)
    requires |sep| > 0
    requires FrameRecord(a, sep).Emit? && !FrameRecord(a, sep).chunk.endOfContent
    requires forall k :: 0 <= k < |records| ==> a.text <= records[k].text
    ensures forall j :: 0 <= j < |Emitted(records, sep)| ==>
      RStrip(FrameRecord(a, sep).chunk.text) <= Emitted(records, sep)[j].text
    decreases |records|
  {
    if |records| > 0 {
      var tail := records[1..];
      assert forall k :: 0 <= k < |tail| ==> tail[k] == records[k + 1];
      LaterChunksExtend(tail, sep, a);
      var f := FrameRecord(records[0], sep);
      if f.Emit? {
        FramePairGrows(a, records[0], sep);
      }
      EmittedCons(records, sep);
      AboveCons(RStrip(FrameRecord(a, sep).chunk.text), f, Emitted(tail, sep), Emitted(records, sep));
    }
  }

  /** Putting one chunk in front of a list whose texts all extend `lo`. */
  lemma AboveCons(lo: string, f: Framed, rest: seq<Chunk>, out: seq<Chunk>)
    requires forall j :: 0 <= j < |rest| ==> lo <= rest[j].text
    requires f.Emit? ==> lo <= f.chunk.text
    requires out == if f.Withheld? then rest else if f.chunk.endOfContent then [f.chunk] else [f.chunk] + rest
    ensures forall j :: 0 <= j < |out| ==> lo <= out[j].text
  {
    if f.Emit? && !f.chunk.endOfContent {
      assert forall j :: 1 <= j < |out| ==> out[j] == rest[j - 1];
    }
  }

  /** For cumulative input the text shown only grows: each chunk sent,
      right-stripped, is a prefix of every later chunk. (The final chunk is
      right-stripped before its newline, so a trailing space of an earlier
      chunk may disappear from the display; nothing else does.) */
  lemma {:induction false} DisplayGrows(records: seq<Chunk>, sep: string)
    requires |sep| > 0 && Cumulative(records)
    ensures var out := Emitted(records, sep);
      forall i, j :: 0 <= i < j < |out| ==> RStrip(out[i].text) <= out[j].text
    decreases |records|
  {
    if |records| > 0 {
      var tail := records[1..];
      CumulativeTail(records);
      DisplayGrows(tail, sep);
      EmittedCons(records, sep);
      var f := FrameRecord(records[0], sep);
      if f.Emit? && !f.chunk.endOfContent {
        LaterChunksExtend(tail, sep, records[0]);
        GrowsCons(f.chunk, Emitted(tail, sep));
      }
    }
  }

  lemma CumulativeTail(records: seq<Chunk>)
    requires |records| > 0 && Cumulative(records)
    ensures Cumulative(records[1..])
    ensures forall k :: 0 <= k < |records| - 1 ==> records[0].text <= records[1..][k].text
  {
    var tail := records[1..];
    forall i, j | 0 <= i <= j < |tail|
      ensures tail[i].text <= tail[j].text
    {
      assert tail[i] == records[i + 1] && tail[j] == records[j + 1];
    }
    forall k | 0 <= k < |tail|
      ensures records[0].text <= tail[k].text
    {
      assert tail[k] == records[k + 1];
    }
  }

  /** Growth of the display is kept when a chunk below all later ones is put
      in front. */
  lemma GrowsCons(c: Chunk, rest: seq<Chunk>)
    requires forall j :: 0 <= j < |rest| ==> RStrip(c.text) <= rest[j].text
    requires forall i, j :: 0 <= i < j < |rest| ==> RStrip(rest[i].text) <= rest[j].text
    ensures var out := [c] + rest;
      forall i, j :: 0 <= i < j < |out| ==> RStrip(out[i].text) <= out[j].text
  {
    var out := [c] + rest;
    forall i, j | 0 <= i < j < |out|
      ensures RStrip(out[i].text) <= out[j].text
    {
      assert out[j] == rest[j - 1];
      if i > 0 {
        assert out[i] == rest[i - 1];
      }
    }
  }
}
