/** The chunking loop of generate_audio (mainfunctions.py): the text is split on '\n',
    blank lines are dropped, stripped lines are packed greedily into chunks of at most
    2500 characters joined by '\n', and a line longer than that is cut into 2500-character
    slices that each form a chunk of their own. */
module Chunker {
  import opened Text

  /** ELEVENLABS_CHUNK_TARGET_SIZE: the most characters a chunk may hold. */
  const ChunkTarget := 2500

  /** The loop's two variables: the finished chunks (text_chunks) and the chunk being
      filled (current_chunk, each of its lines followed by '\n'). */
  datatype Packing = Packing(done: seq<string>, current: string)

  /** The slices stripped[i:i+2500] for i in range(0, len(stripped), 2500). */
  function Slices(s: string): seq<string> {
    if s == [] then []
    else if |s| <= ChunkTarget then [s]
    else [s[..ChunkTarget]] + Slices(s[ChunkTarget..])
  }

  /** The slices are non-empty, no longer than a chunk, and spell out the line. */
  lemma {:induction false} SlicesShape(s: string)
    ensures ChunksFit(Slices(s))
    ensures Concat(Slices(s)) == s
    ensures s != [] ==> Slices(s) != []
  {
    if |s| > ChunkTarget {
      var head, tail := s[..ChunkTarget], s[ChunkTarget..];
      SlicesShape(tail);
      ConcatAppend([head], Slices(tail));
      assert Concat([head]) == head by { assert [head][..0] == []; }
      assert s == head + tail;
      FitAppend([head], Slices(tail));
    } else if s != [] {
      assert Concat([s]) == s by { assert [s][..0] == []; }
    }
  }

  /** text_chunks once current_chunk has been flushed into it (if it holds anything). */
  function Flushed(p: Packing): seq<string> {
    if Strip(p.current) != [] then p.done + [Strip(p.current)] else p.done
  }

  /** One pass of the loop body over one paragraph. */
  function Step(p: Packing, paragraph: string): (r: Packing)
    ensures Strip(paragraph) == [] ==> r == p
    ensures Strip(paragraph) != [] ==> r.current == [] || r.current[|r.current| - 1] == '\n'
    ensures Strip(paragraph) != [] ==> (r.current == [] <==> |Strip(paragraph)| > ChunkTarget)
  {
    var stripped := Strip(paragraph);
    if stripped == [] then p
    else if |p.current| + |stripped| + 1 <= ChunkTarget then
      Packing(p.done, p.current + stripped + "\n")
    else if |stripped| > ChunkTarget then
      Packing(Flushed(p) + Slices(stripped), "")
    else
      Packing(Flushed(p), stripped + "\n")
  }

  /** The loop state after the given paragraphs. */
  function Pack(paragraphs: seq<string>): Packing {
    if paragraphs == [] then Packing([], "")
    else Step(Pack(paragraphs[..|paragraphs| - 1]), paragraphs[|paragraphs| - 1])
  }

  /** text_chunks at the end of the chunking code. */
  function Chunks(text: string): seq<string> {
    Flushed(Pack(Split(text)))
  }

  /** The stripped non-blank lines, in order: what the chunks must carry. */
  function NonBlankLines(paragraphs: seq<string>): seq<string> {
    if paragraphs == [] then []
    else
      var rest := NonBlankLines(paragraphs[..|paragraphs| - 1]);
      var s := Strip(paragraphs[|paragraphs| - 1]);
      if s == [] then rest else rest + [s]
  }

  lemma {:induction false} NonBlankLinesEmpty(paragraphs: seq<string>)
    ensures NonBlankLines(paragraphs) == [] <==> AllBlank(paragraphs)
  {
    if paragraphs != [] {
      var init := paragraphs[..|paragraphs| - 1];
      var last := paragraphs[|paragraphs| - 1];
      assert paragraphs == init + [last];
      NonBlankLinesEmpty(init);
      NonBlankLinesStep(init, last);
      AllBlankSnoc(init, last);
    }
  }

  // ---------------------------------------------------------------- the loop invariant

  /** current_chunk is empty, or it is stripped lines each followed by '\n', so it begins
      and ends (before its final '\n') with a non-space, and it holds at most 2501
      characters. */
  predicate CurrentShape(current: string) {
    current == [] ||
    (2 <= |current| <= ChunkTarget + 1 && current[|current| - 1] == '\n'
     && !IsSpace(current[0]) && !IsSpace(current[|current| - 2]))
  }

  predicate ChunksFit(chunks: seq<string>) {
    forall j :: 0 <= j < |chunks| ==> 0 < |chunks[j]| <= ChunkTarget
  }

  lemma FitAppend(a: seq<string>, b: seq<string>)
    requires ChunksFit(a) && ChunksFit(b)
    ensures ChunksFit(a + b)
  {
    forall j | 0 <= j < |a + b| ensures 0 < |(a + b)[j]| <= ChunkTarget {
      if j < |a| { assert (a + b)[j] == a[j]; } else { assert (a + b)[j] == b[j - |a|]; }
    }
  }

  /** What the loop keeps true after the paragraphs seen so far. */
  predicate Good(p: Packing, seen: seq<string>) {
    && ChunksFit(p.done)
    && CurrentShape(p.current)
    && Carried(p) == Concat(NonBlankLines(seen))
    && ((p.done == [] && p.current == []) <==> NonBlankLines(seen) == [])
  }

  /** Flushing the current chunk keeps every chunk within bounds and loses no text. */
  lemma FlushedShape(p: Packing)
    requires ChunksFit(p.done) && CurrentShape(p.current)
    ensures ChunksFit(Flushed(p))
    ensures RemoveNewlines(Concat(Flushed(p))) == Carried(p)
    ensures Flushed(p) == [] <==> (p.done == [] && p.current == [])
  {
    var c := p.current;
    if c != [] {
      var x := c[..|c| - 1];
      assert c == x + "\n";
      StripLineBreak(x);
      var f := p.done + [x];
      assert Flushed(p) == f;
      assert f[..|f| - 1] == p.done;
      RemoveNewlinesAppend(Concat(p.done), x);
      RemoveNewlinesAppend(x, "\n");
      assert RemoveNewlines("\n") == [] by { assert "\n"[..0] == []; }
    } else {
      assert Strip(c) == [];
    }
  }

  /** The text a loop state carries, newlines aside. */
  function Carried(p: Packing): string {
    RemoveNewlines(Concat(p.done)) + RemoveNewlines(p.current)
  }

  /** What a non-blank stripped line looks like. */
  predicate StrippedLine(s: string) {
    s != [] && !IsSpace(s[0]) && !IsSpace(s[|s| - 1]) && NoNewline(s)
  }

  /** The state after a non-blank line: chunks within bounds, a well-formed current
      chunk, nothing empty, and the line's text added to what is carried. */
  predicate Advanced(p: Packing, q: Packing, s: string) {
    && ChunksFit(q.done)
    && CurrentShape(q.current)
    && Carried(q) == Carried(p) + s
    && !(q.done == [] && q.current == [])
  }

  lemma NewlineRemoved()
    ensures RemoveNewlines("\n") == []
  {
    assert "\n"[..0] == [];
  }

  /** The line fits: it is appended to the current chunk. */
  lemma AppendLine(p: Packing, s: string)
    requires ChunksFit(p.done) && CurrentShape(p.current) && StrippedLine(s)
    requires |p.current| + |s| + 1 <= ChunkTarget
    ensures Advanced(p, Packing(p.done, p.current + s + "\n"), s)
  {
    var c := p.current + s + "\n";
    assert c[|c| - 2] == s[|s| - 1];
    assert c[0] == if p.current == [] then s[0] else p.current[0];
    AppendLineCarried(p.current, s);
  }

  lemma AppendLineCarried(current: string, s: string)
    requires NoNewline(s)
    ensures RemoveNewlines(current + s + "\n") == RemoveNewlines(current) + s
  {
    RemoveNewlinesNoop(s);
    RemoveNewlinesAppend(current, s);
    RemoveNewlinesAppend(current + s, "\n");
    NewlineRemoved();
  }

  /** The line is too long: the current chunk is flushed and the line's slices follow. */
  lemma SliceLine(p: Packing, s: string, slices: seq<string>)
    requires ChunksFit(p.done) && CurrentShape(p.current) && StrippedLine(s)
    requires ChunksFit(slices) && Concat(slices) == s && slices != []
    ensures Advanced(p, Packing(Flushed(p) + slices, ""), s)
  {
    FlushedShape(p);
    FitAppend(Flushed(p), slices);
    SlicesCarried(p, s, slices);
  }

  lemma SlicesCarried(p: Packing, s: string, slices: seq<string>)
    requires ChunksFit(p.done) && CurrentShape(p.current) && NoNewline(s) && Concat(slices) == s
    ensures Carried(Packing(Flushed(p) + slices, "")) == Carried(p) + s
  {
    FlushedShape(p);
    var f := Flushed(p);
    RemoveNewlinesNoop(s);
    ConcatAppend(f, slices);
    RemoveNewlinesAppend(Concat(f), s);
    assert RemoveNewlines([]) == [];
  }

  /** The line does not fit but is short: the current chunk is flushed and the line
      starts the next one. */
  lemma StartLine(p: Packing, s: string)
    requires ChunksFit(p.done) && CurrentShape(p.current) && StrippedLine(s)
    requires |s| <= ChunkTarget
    ensures Advanced(p, Packing(Flushed(p), s + "\n"), s)
  {
    FlushedShape(p);
    ShortLine(s);
  }

  /** A line that fits a chunk, with its newline, is a well-formed current chunk. */
  lemma ShortLine(s: string)
    requires StrippedLine(s) && |s| <= ChunkTarget
    ensures CurrentShape(s + "\n")
    ensures RemoveNewlines(s + "\n") == s
  {
    var c := s + "\n";
    assert c[|c| - 2] == s[|s| - 1] && c[0] == s[0];
    LineBreakRemoved(s);
  }

  lemma LineBreakRemoved(s: string)
    requires NoNewline(s)
    ensures RemoveNewlines(s + "\n") == s
  {
    RemoveNewlinesNoop(s);
    RemoveNewlinesAppend(s, "\n");
    NewlineRemoved();
  }

  /** The lines the loop has to carry grow by the stripped paragraph, if it is not blank. */
  lemma NonBlankLinesStep(seen: seq<string>, paragraph: string)
    ensures Strip(paragraph) == [] ==> NonBlankLines(seen + [paragraph]) == NonBlankLines(seen)
    ensures Strip(paragraph) != [] ==>
      Concat(NonBlankLines(seen + [paragraph])) == Concat(NonBlankLines(seen)) + Strip(paragraph)
    ensures Strip(paragraph) != [] ==> NonBlankLines(seen + [paragraph]) != []
  {
    var all := seen + [paragraph];
    assert all[..|all| - 1] == seen;
    var lines := NonBlankLines(seen);
    if Strip(paragraph) != [] {
      assert (lines + [Strip(paragraph)])[..|lines|] == lines;
    }
  }

  lemma AdvancedGood(p: Packing, q: Packing, seen: seq<string>, paragraph: string)
    requires Good(p, seen) && Strip(paragraph) != [] && Advanced(p, q, Strip(paragraph))
    ensures Good(q, seen + [paragraph])
  {
    NonBlankLinesStep(seen, paragraph);
  }

  /** One pass of the loop body keeps the invariant. */
  lemma StepGood(p: Packing, seen: seq<string>, paragraph: string)
    requires Good(p, seen)
    requires NoNewline(paragraph)
    ensures Good(Step(p, paragraph), seen + [paragraph])
  {
    var s := Strip(paragraph);
    if s == [] {
      NonBlankLinesStep(seen, paragraph);
    } else {
      assert StrippedLine(s);
      if |p.current| + |s| + 1 <= ChunkTarget {
        AppendLine(p, s);
      } else if |s| > ChunkTarget {
        SlicesShape(s);
        SliceLine(p, s, Slices(s));
      } else {
        StartLine(p, s);
      }
      AdvancedGood(p, Step(p, paragraph), seen, paragraph);
    }
  }

  lemma {:induction false} PackGood(paragraphs: seq<string>)
    requires forall j :: 0 <= j < |paragraphs| ==> NoNewline(paragraphs[j])
    ensures Good(Pack(paragraphs), paragraphs)
  {
    if paragraphs == [] {
      assert Concat([]) == [] && RemoveNewlines([]) == [];
    } else {
      var init := paragraphs[..|paragraphs| - 1];
      var last := paragraphs[|paragraphs| - 1];
      assert forall j :: 0 <= j < |init| ==> init[j] == paragraphs[j];
      PackGood(init);
      assert Pack(paragraphs) == Step(Pack(init), last);
      InitLast(paragraphs);
      StepGood(Pack(init), init, last);
    }
  }

  // ---------------------------------------------------------------- what the chunker promises

  /** Every chunk holds between 1 and 2500 characters; there are no chunks exactly when
      the text is blank; and deleting the newlines from the chunks, read in order, gives
      the stripped non-blank lines of the text, read in order: nothing is dropped,
      repeated or moved. */
  lemma ChunksProperties(text: string)
    ensures ChunksFit(Chunks(text))
    ensures Chunks(text) == [] <==> Blank(text)
    ensures RemoveNewlines(Concat(Chunks(text))) == Concat(NonBlankLines(Split(text)))
  {
    ChunksCarryLines(text);
    BlankIffNoLines(text);
  }

  lemma ChunksCarryLines(text: string)
    ensures ChunksFit(Chunks(text))
    ensures Chunks(text) == [] <==> NonBlankLines(Split(text)) == []
    ensures RemoveNewlines(Concat(Chunks(text))) == Concat(NonBlankLines(Split(text)))
  {
    var lines := Split(text);
    PackGood(lines);
    FlushedShape(Pack(lines));
  }

  lemma BlankIffNoLines(text: string)
    ensures Blank(text) <==> NonBlankLines(Split(text)) == []
  {
    BlankSplit(text);
    NonBlankLinesEmpty(Split(text));
  }

  /** Text that is not blank always yields at least one chunk, so generate_audio's
      "Text could not be split into processable chunks." can never be returned. */
  lemma NonBlankTextHasChunks(text: string)
    requires !Blank(text)
    ensures |Chunks(text)| >= 1
  {
    ChunksProperties(text);
  }

  /** The loop only ever appends to text_chunks. */
  lemma {:induction false} PackGrows(paragraphs: seq<string>, k: nat)
    requires k <= |paragraphs|
    ensures Pack(paragraphs[..k]).done <= Pack(paragraphs).done
    decreases |paragraphs|
  {
    if k < |paragraphs| {
      var init := paragraphs[..|paragraphs| - 1];
      assert init[..k] == paragraphs[..k];
      PackGrows(init, k);
      StepGrows(Pack(init), paragraphs[|paragraphs| - 1]);
      PrefixTransitive(Pack(paragraphs[..k]).done, Pack(init).done, Pack(paragraphs).done);
    } else {
      assert paragraphs[..k] == paragraphs;
    }
  }

  lemma StepGrows(p: Packing, paragraph: string)
    ensures p.done <= Step(p, paragraph).done
  {
    var f, stripped := Flushed(p), Strip(paragraph);
    if Strip(p.current) != [] {
      PrefixOfAppend(p.done, [Strip(p.current)]);
    }
    assert p.done <= f;
    if stripped == [] {
      assert Step(p, paragraph) == p;
    } else if |p.current| + |stripped| + 1 <= ChunkTarget {
      assert Step(p, paragraph).done == p.done;
    } else if |stripped| > ChunkTarget {
      assert Step(p, paragraph).done == f + Slices(stripped);
      PrefixOfAppend(f, Slices(stripped));
      PrefixTransitive(p.done, f, f + Slices(stripped));
    } else {
      assert Step(p, paragraph).done == f;
    }
  }

  lemma PrefixOfAppend<T>(a: seq<T>, b: seq<T>)
    ensures a <= a + b
  {
    assert (a + b)[..|a|] == a;
  }

  lemma PrefixTransitive(a: seq<string>, b: seq<string>, c: seq<string>)
    requires a <= b && b <= c
    ensures a <= c
  {
    assert c[..|a|] == b[..|a|];
  }

  /** A stripped line longer than 2500 characters turns into its consecutive
      2500-character slices, each a chunk of its own, merged with nothing: the chunks
      are those of the lines before it, then exactly its slices, then the rest. */
  lemma LongLineIsSliced(text: string, j: nat)
    requires j < |Split(text)|
    requires |Strip(Split(text)[j])| > ChunkTarget
    ensures exists before, after ::
      && Chunks(text) == before + Slices(Strip(Split(text)[j])) + after
      && RemoveNewlines(Concat(before)) == Concat(NonBlankLines(Split(text)[..j]))
  {
    var lines := Split(text);
    var before := Flushed(Pack(lines[..j]));
    var sl := Slices(Strip(lines[j]));
    SlicedAfter(lines, j);
    SplitPrefix(Chunks(text), before, sl);
    LinesBefore(lines, j);
  }

  lemma SplitPrefix(chunks: seq<string>, before: seq<string>, slices: seq<string>)
    requires before + slices <= chunks
    ensures chunks == before + slices + chunks[|before + slices|..]
  {
  }

  /** The slices come straight after the chunks flushed before the long line. */
  lemma SlicedAfter(lines: seq<string>, j: nat)
    requires j < |lines|
    requires |Strip(lines[j])| > ChunkTarget
    ensures Flushed(Pack(lines[..j])) + Slices(Strip(lines[j])) <= Flushed(Pack(lines))
  {
    var p := Pack(lines[..j]);
    var q := Pack(lines[..j + 1]);
    PackNext(lines, j);
    StepLong(p, lines[j]);
    assert q.done <= Flushed(Pack(lines)) by {
      PackGrows(lines, j + 1);
      DoneBeforeFlushed(Pack(lines));
      PrefixTransitive(q.done, Pack(lines).done, Flushed(Pack(lines)));
    }
  }

  lemma StepLong(p: Packing, paragraph: string)
    requires |Strip(paragraph)| > ChunkTarget
    ensures Step(p, paragraph).done == Flushed(p) + Slices(Strip(paragraph))
  {
  }

  lemma DoneBeforeFlushed(p: Packing)
    ensures p.done <= Flushed(p)
  {
    if Strip(p.current) != [] { PrefixOfAppend(p.done, [Strip(p.current)]); }
  }

  /** The chunks flushed before line j carry exactly the lines before it. */
  lemma LinesBefore(lines: seq<string>, j: nat)
    requires j <= |lines|
    requires forall i :: 0 <= i < |lines| ==> NoNewline(lines[i])
    ensures RemoveNewlines(Concat(Flushed(Pack(lines[..j])))) == Concat(NonBlankLines(lines[..j]))
  {
    assert forall i :: 0 <= i < |lines[..j]| ==> NoNewline(lines[..j][i]);
    PackGood(lines[..j]);
    FlushedShape(Pack(lines[..j]));
  }

  // ---------------------------------------------------------------- the loop itself

  /** The chunking code of generate_audio. */
  method SplitIntoChunks(text: string) returns (chunks: seq<string>)
    ensures chunks == Chunks(text)
    ensures forall j :: 0 <= j < |chunks| ==> 0 < |chunks[j]| <= ChunkTarget
    ensures chunks == [] <==> Blank(text)
    ensures RemoveNewlines(Concat(chunks)) == Concat(NonBlankLines(Split(text)))
  {
    var paragraphs := Split(text);
    chunks := [];
    var current := "";
    for i := 0 to |paragraphs|
      invariant chunks == Pack(paragraphs[..i]).done
      invariant current == Pack(paragraphs[..i]).current
    {
      PackNext(paragraphs, i);
      var stripped := Strip(paragraphs[i]);
      if stripped != [] {
        if |current| + |stripped| + 1 <= ChunkTarget {
          current := current + stripped + "\n";
        } else {
          if Strip(current) != [] {
            chunks := chunks + [Strip(current)];
          }
          if |stripped| > ChunkTarget {
            chunks := AppendSlices(chunks, stripped);
            current := "";
          } else {
            current := stripped + "\n";
          }
        }
      }
    }
    TakeAll(paragraphs);
    if Strip(current) != [] {
      chunks := chunks + [Strip(current)];
    }
    ChunksProperties(text);
  }

  /** The inner loop of the chunking code: the slices of a long line are appended to
      text_chunks one by one. */
  method AppendSlices(chunks: seq<string>, s: string) returns (r: seq<string>)
    ensures r == chunks + Slices(s)
  {
    r := chunks;
    var k := 0;
    assert Rest(s, 0) == s;
    while k < |s|
      invariant r + Slices(Rest(s, k)) == chunks + Slices(s)
      decreases |s| - k
    {
      var end := if k + ChunkTarget <= |s| then k + ChunkTarget else |s|;
      SliceStep(s, k);
      AppendAssoc(r, [s[k..end]], Slices(Rest(s, k + ChunkTarget)));
      r := r + [s[k..end]];
      k := k + ChunkTarget;
    }
    assert Rest(s, k) == [];
    assert r + [] == r;
  }

  lemma PackNext(paragraphs: seq<string>, i: nat)
    requires i < |paragraphs|
    ensures Pack(paragraphs[..i + 1]) == Step(Pack(paragraphs[..i]), paragraphs[i])
  {
    assert paragraphs[..i + 1][..i] == paragraphs[..i];
  }

  lemma TakeAll(paragraphs: seq<string>)
    ensures paragraphs[..|paragraphs|] == paragraphs
  {
  }

  /** What is left of a long line once its first k characters have been sliced off. */
  function Rest(s: string, k: nat): string {
    if k <= |s| then s[k..] else []
  }

  lemma SliceStep(s: string, k: nat)
    requires k < |s|
    ensures Slices(Rest(s, k)) ==
      [s[k..if k + ChunkTarget <= |s| then k + ChunkTarget else |s|]] + Slices(Rest(s, k + ChunkTarget))
  {
    var r := s[k..];
    if |r| > ChunkTarget {
      assert r[..ChunkTarget] == s[k..k + ChunkTarget];
      assert r[ChunkTarget..] == s[k + ChunkTarget..];
    } else {
      assert Rest(s, k + ChunkTarget) == [];
      assert r == s[k..|s|];
    }
  }
}
