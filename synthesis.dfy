/** generate_audio (mainfunctions.py): blank text is refused; the text is chunked; every
    chunk is spoken by ElevenLabs, and if anything about ElevenLabs fails the whole text
    is spoken again by OpenAI; the chunk files are decoded, joined and exported as one
    .mp3 in AUDIO_DIR; and the temporary chunk files are deleted on every path.
    The providers, the decoder and the encoder are oracles. */
module Synthesis {
  import opened Text
  import opened Filename
  import opened Chunker
  import opened Storage

  /** chunk[:ELEVENLABS_CHUNK_TARGET_SIZE + 500], the text sent to ElevenLabs. */
  const ElevenLabsLimit := ChunkTarget + 500
  /** OPENAI_TTS_MAX_CHARS, the text sent to OpenAI is chunk[:4096]. */
  const OpenAILimit := 4096

  /** What one text-to-speech request gives back: the audio bytes it streams into the
      chunk file, or the message of the exception it raises. */
  datatype TtsReply = Spoken(audio: seq<byte>) | Raised(message: string)

  /** The two providers, as seen from one call of generate_audio. */
  datatype Providers = Providers(
    elevenLabsKey: string,                    // elevenlabs_api_key ("" when missing)
    elevenLabsClient: Option<string>,         // Some(m): creating the client raised m
    elevenLabs: (nat, string) -> TtsReply,    // the reply to chunk i with this text
    openAIClient: Option<string>,             // Some(m): creating the client raised m
    openAI: (nat, string) -> TtsReply)

  /** pydub: decoding one chunk file into samples (None when it raises), the length in
      milliseconds of a run of samples, and exporting the joined samples as mp3 bytes. */
  datatype ExportReply = Exported(audio: seq<byte>) | ExportRaised(message: string)
  datatype Codec = Codec(decode: seq<byte> -> Option<seq<byte>>, millis: seq<byte> -> nat,
                         encode: seq<byte> -> ExportReply)

  /** len(segment): an empty segment lasts no time; a non-empty one lasts whatever its
      frame rate makes of it, which rounds a very short segment down to 0 ms. */
  function Duration(codec: Codec, samples: seq<byte>): (ms: nat)
    ensures samples == [] ==> ms == 0
  {
    if samples == [] then 0 else codec.millis(samples)
  }

  /** The end of a provider pass: the audio of every non-empty chunk in order, or the
      message that ended it. */
  datatype Pass = Done(audios: seq<seq<byte>>) | Abort(message: string)

  /** What generate_audio returns: the final file path, or the error message. */
  datatype AudioResult = Generated(path: string) | Failed(message: string)

  const EmptyText := "Cannot generate audio for empty text."
  const FallbackFailed := "OpenAI TTS fallback failed: "
  const NothingProduced := "Audio generation failed, no chunks were produced."
  const FinalFailure := "Failed during final audio processing: "
  const EmptyConcatenation := "Concatenation resulted in empty audio."
  const EmptyExport := "Final audio file missing or empty after export: "

  /** A reply that yields a usable chunk file: audio with at least one byte. */
  predicate Usable(r: TtsReply) {
    r.Spoken? && |r.audio| > 0
  }

  // ---------------------------------------------------------------- ElevenLabs

  /** The ElevenLabs loop after chunks[..n]: the audio so far, or None once a chunk has
      failed (an exception, or an empty file); empty chunks are skipped. */
  function ElevenLabsUpTo(p: Providers, chunks: seq<string>, n: nat): Option<seq<seq<byte>>>
    requires n <= |chunks|
  {
    if n == 0 then Some([])
    else match ElevenLabsUpTo(p, chunks, n - 1)
      case None => None
      case Some(done) =>
        if chunks[n - 1] == [] then Some(done)
        else
          var reply := p.elevenLabs(n - 1, Cut(chunks[n - 1], ElevenLabsLimit));
          if Usable(reply) then Some(done + [reply.audio]) else None
  }

  /** The ElevenLabs attempt: None when the key is missing, the client cannot be
      created, or any chunk fails. */
  function ElevenLabsPass(p: Providers, chunks: seq<string>): Option<seq<seq<byte>>> {
    if p.elevenLabsKey == [] || p.elevenLabsClient.Some? then None
    else ElevenLabsUpTo(p, chunks, |chunks|)
  }

  /** Once a chunk has failed, the loop stays failed. */
  lemma {:induction false} ElevenLabsStaysFailed(p: Providers, chunks: seq<string>, k: nat, n: nat)
    requires k <= n <= |chunks|
    requires ElevenLabsUpTo(p, chunks, k) == None
    ensures ElevenLabsUpTo(p, chunks, n) == None
    decreases n
  {
    if n > k {
      ElevenLabsStaysFailed(p, chunks, k, n - 1);
    }
  }

  /** When every chunk is spoken, ElevenLabs yields one file per chunk, in chunk order,
      holding the reply to that chunk's text; and conversely. */
  lemma {:induction false} ElevenLabsAllSpoken(p: Providers, chunks: seq<string>, n: nat)
    requires n <= |chunks|
    requires forall k :: 0 <= k < |chunks| ==> chunks[k] != []
    ensures ElevenLabsUpTo(p, chunks, n).Some? <==>
      forall k :: 0 <= k < n ==> Usable(p.elevenLabs(k, Cut(chunks[k], ElevenLabsLimit)))
    ensures ElevenLabsUpTo(p, chunks, n).Some? ==>
      && |ElevenLabsUpTo(p, chunks, n).value| == n
      && forall k :: 0 <= k < n ==>
           ElevenLabsUpTo(p, chunks, n).value[k] == p.elevenLabs(k, Cut(chunks[k], ElevenLabsLimit)).audio
  {
    if n > 0 {
      ElevenLabsAllSpoken(p, chunks, n - 1);
      if ElevenLabsUpTo(p, chunks, n - 1).None? {
        assert !Usable(p.elevenLabs(n - 1, Cut(chunks[n - 1], ElevenLabsLimit))) ||
          exists k :: 0 <= k < n - 1 && !Usable(p.elevenLabs(k, Cut(chunks[k], ElevenLabsLimit)));
      }
    }
  }

  // ---------------------------------------------------------------- OpenAI

  /** The message of the IOError raised when OpenAI leaves chunk `number` (1-based) empty. */
  function EmptyOpenAIChunk(number: nat): string {
    "OpenAI failed to generate valid audio for chunk " + NatToString(number)
  }

  /** What a failing OpenAI reply to chunk i aborts the pass with. */
  function OpenAIFailure(reply: TtsReply, i: nat): string
    requires !Usable(reply)
  {
    if reply.Raised? then reply.message else EmptyOpenAIChunk(i + 1)
  }

  /** The OpenAI loop after chunks[..n]: the audio so far, or the message of the first
      failure, which ends the pass; empty chunks are skipped. */
  function OpenAIUpTo(p: Providers, chunks: seq<string>, n: nat): Pass
    requires n <= |chunks|
  {
    if n == 0 then Done([])
    else match OpenAIUpTo(p, chunks, n - 1)
      case Abort(m) => Abort(m)
      case Done(done) =>
        if chunks[n - 1] == [] then Done(done)
        else
          var reply := p.openAI(n - 1, Cut(chunks[n - 1], OpenAILimit));
          if Usable(reply) then Done(done + [reply.audio]) else Abort(OpenAIFailure(reply, n - 1))
  }

  /** The OpenAI fallback, from chunk 1. */
  function OpenAIPass(p: Providers, chunks: seq<string>): Pass {
    if p.openAIClient.Some? then Abort(p.openAIClient.value)
    else OpenAIUpTo(p, chunks, |chunks|)
  }

  lemma {:induction false} OpenAIStaysAborted(p: Providers, chunks: seq<string>, k: nat, n: nat, m: string)
    requires k <= n <= |chunks|
    requires OpenAIUpTo(p, chunks, k) == Abort(m)
    ensures OpenAIUpTo(p, chunks, n) == Abort(m)
    decreases n
  {
    if n > k {
      OpenAIStaysAborted(p, chunks, k, n - 1, m);
    }
  }

  /** The first chunk OpenAI fails on decides the message, whatever it would have
      answered for the chunks after it. */
  lemma OpenAIFirstFailure(p: Providers, chunks: seq<string>, i: nat)
    requires i < |chunks| && chunks[i] != []
    requires OpenAIUpTo(p, chunks, i).Done?
    requires !Usable(p.openAI(i, Cut(chunks[i], OpenAILimit)))
    ensures OpenAIUpTo(p, chunks, |chunks|) ==
      Abort(OpenAIFailure(p.openAI(i, Cut(chunks[i], OpenAILimit)), i))
  {
    OpenAIStaysAborted(p, chunks, i + 1, |chunks|,
      OpenAIFailure(p.openAI(i, Cut(chunks[i], OpenAILimit)), i));
  }

  /** When OpenAI speaks every chunk, it yields one file per chunk, in chunk order,
      holding the reply to that chunk's text. */
  lemma {:induction false} OpenAIAllSpoken(p: Providers, chunks: seq<string>, n: nat)
    requires n <= |chunks|
    requires forall k :: 0 <= k < |chunks| ==> chunks[k] != []
    requires forall k :: 0 <= k < n ==> Usable(p.openAI(k, Cut(chunks[k], OpenAILimit)))
    ensures OpenAIUpTo(p, chunks, n).Done?
    ensures |OpenAIUpTo(p, chunks, n).audios| == n
    ensures forall k :: 0 <= k < n ==>
      p.openAI(k, Cut(chunks[k], OpenAILimit)) == Spoken(OpenAIUpTo(p, chunks, n).audios[k])
  {
    if n > 0 {
      OpenAIAllSpoken(p, chunks, n - 1);
    }
  }

  /** A finished pass holds one file per chunk when no chunk is empty. */
  lemma {:induction false} OpenAIDoneCount(p: Providers, chunks: seq<string>, n: nat)
    requires n <= |chunks|
    requires forall k :: 0 <= k < |chunks| ==> chunks[k] != []
    requires OpenAIUpTo(p, chunks, n).Done?
    ensures |OpenAIUpTo(p, chunks, n).audios| == n
  {
    if n > 0 {
      OpenAIDoneCount(p, chunks, n - 1);
    }
  }

  // ---------------------------------------------------------------- provider selection

  /** The chunk audio generate_audio goes on to join, or why it gave up: ElevenLabs for
      every chunk, or else OpenAI for every chunk. */
  function Synthesised(p: Providers, chunks: seq<string>): (r: Pass)
    ensures ElevenLabsPass(p, chunks).Some? ==> r == Done(ElevenLabsPass(p, chunks).value)
    ensures ElevenLabsPass(p, chunks).None? && OpenAIPass(p, chunks).Done? ==> r == OpenAIPass(p, chunks)
    ensures r.Abort? <==> ElevenLabsPass(p, chunks).None? && OpenAIPass(p, chunks).Abort?
    ensures r.Abort? ==> HasPrefix(r.message, FallbackFailed)
  {
    match ElevenLabsPass(p, chunks)
      case Some(audios) => Done(audios)
      case None =>
        match OpenAIPass(p, chunks)
          case Done(audios) => Done(audios)
          case Abort(m) => Abort(FallbackFailed + m)
  }

  /** Two provider set-ups that behave alike on the ElevenLabs side. */
  ghost predicate SameElevenLabs(p: Providers, q: Providers) {
    && p.elevenLabsKey == q.elevenLabsKey && p.elevenLabsClient == q.elevenLabsClient
    && forall i, s :: p.elevenLabs(i, s) == q.elevenLabs(i, s)
  }

  /** Two provider set-ups that behave alike on the OpenAI side. */
  ghost predicate SameOpenAI(p: Providers, q: Providers) {
    && p.openAIClient == q.openAIClient
    && forall i, s :: p.openAI(i, s) == q.openAI(i, s)
  }

  lemma {:induction false} ElevenLabsUpToDependsOnElevenLabs(p: Providers, q: Providers, chunks: seq<string>, n: nat)
    requires n <= |chunks| && SameElevenLabs(p, q)
    ensures ElevenLabsUpTo(p, chunks, n) == ElevenLabsUpTo(q, chunks, n)
  {
    if n > 0 {
      ElevenLabsUpToDependsOnElevenLabs(p, q, chunks, n - 1);
    }
  }

  lemma {:induction false} OpenAIUpToDependsOnOpenAI(p: Providers, q: Providers, chunks: seq<string>, n: nat)
    requires n <= |chunks| && SameOpenAI(p, q)
    ensures OpenAIUpTo(p, chunks, n) == OpenAIUpTo(q, chunks, n)
  {
    if n > 0 {
      OpenAIUpToDependsOnOpenAI(p, q, chunks, n - 1);
    }
  }

  /** When ElevenLabs succeeds on every chunk, OpenAI is never consulted: how it would
      have answered makes no difference. */
  lemma OpenAINotConsulted(p: Providers, q: Providers, chunks: seq<string>)
    requires SameElevenLabs(p, q)
    requires ElevenLabsPass(p, chunks).Some?
    ensures Synthesised(p, chunks) == Synthesised(q, chunks) == Done(ElevenLabsPass(p, chunks).value)
  {
    ElevenLabsUpToDependsOnElevenLabs(p, q, chunks, |chunks|);
  }

  /** When ElevenLabs fails anywhere, everything it produced is discarded and the
      outcome is OpenAI's alone, from chunk 1: how far ElevenLabs got makes no
      difference. */
  lemma ElevenLabsDiscarded(p: Providers, q: Providers, chunks: seq<string>)
    requires SameOpenAI(p, q)
    requires ElevenLabsPass(p, chunks).None? && ElevenLabsPass(q, chunks).None?
    ensures Synthesised(p, chunks) == Synthesised(q, chunks)
  {
    OpenAIUpToDependsOnOpenAI(p, q, chunks, |chunks|);
  }

  /** Chunks from the chunker are never cut before being sent to either provider. */
  lemma ChunksSentWhole(text: string)
    ensures forall k :: 0 <= k < |Chunks(text)| ==>
      Cut(Chunks(text)[k], ElevenLabsLimit) == Chunks(text)[k] && Cut(Chunks(text)[k], OpenAILimit) == Chunks(text)[k]
  {
    ChunksProperties(text);
  }

  /** Whichever provider speaks the chunker's chunks, there is one audio file per chunk,
      so the "no chunks were produced" error cannot follow a successful pass. */
  lemma SynthesisedCount(p: Providers, text: string)
    requires Synthesised(p, Chunks(text)).Done?
    ensures |Synthesised(p, Chunks(text)).audios| == |Chunks(text)|
  {
    var chunks := Chunks(text);
    ChunksProperties(text);
    if ElevenLabsPass(p, chunks).Some? {
      ElevenLabsAllSpoken(p, chunks, |chunks|);
    } else {
      OpenAIDoneCount(p, chunks, |chunks|);
    }
  }

  // ---------------------------------------------------------------- assembling

  /** The samples of the chunk files that decode, joined in order; the others are
      skipped. */
  function Combined(codec: Codec, audios: seq<seq<byte>>): seq<byte> {
    if audios == [] then []
    else
      var last := codec.decode(audios[|audios| - 1]);
      Combined(codec, audios[..|audios| - 1]) + (if last.Some? then last.value else [])
  }

  /** concatenation_errors: how many chunk files did not decode. */
  function Skipped(codec: Codec, audios: seq<seq<byte>>): nat {
    if audios == [] then 0
    else Skipped(codec, audios[..|audios| - 1]) + (if codec.decode(audios[|audios| - 1]).None? then 1 else 0)
  }

  lemma {:induction false} CombinedAppend(codec: Codec, a: seq<seq<byte>>, b: seq<seq<byte>>)
    ensures Combined(codec, a + b) == Combined(codec, a) + Combined(codec, b)
    ensures Skipped(codec, a + b) == Skipped(codec, a) + Skipped(codec, b)
    decreases |b|
  {
    if b == [] {
      assert a + b == a;
    } else {
      assert (a + b)[..|a + b| - 1] == a + b[..|b| - 1];
      CombinedAppend(codec, a, b[..|b| - 1]);
    }
  }

  /** A chunk file that does not decode contributes nothing but one to the error count. */
  lemma UndecodableSkipped(codec: Codec, before: seq<seq<byte>>, audio: seq<byte>, after: seq<seq<byte>>)
    requires codec.decode(audio).None?
    ensures Combined(codec, before + [audio] + after) == Combined(codec, before + after)
    ensures Skipped(codec, before + [audio] + after) == Skipped(codec, before + after) + 1
  {
    CombinedAppend(codec, before + [audio], after);
    CombinedAppend(codec, before, [audio]);
    CombinedAppend(codec, before, after);
    assert [audio][..0] == [];
  }

  /** When no chunk file decodes, nothing is joined and every file counts as an error. */
  lemma {:induction false} NoneDecodes(codec: Codec, audios: seq<seq<byte>>)
    requires forall i :: 0 <= i < |audios| ==> codec.decode(audios[i]).None?
    ensures Combined(codec, audios) == []
    ensures Skipped(codec, audios) == |audios|
  {
    if audios != [] {
      var init := audios[..|audios| - 1];
      assert forall i :: 0 <= i < |init| ==> init[i] == audios[i];
      NoneDecodes(codec, init);
    }
  }

  /** The outcome of the concatenation and export stage for the chunk audio, the final
      file being `path`. */
  function Assembled(codec: Codec, audios: seq<seq<byte>>, path: string): AudioResult {
    if audios == [] then Failed(NothingProduced)
    else
      var joined := Combined(codec, audios);
      if Duration(codec, joined) == 0 then Failed(FinalFailure + EmptyConcatenation)
      else match codec.encode(joined)
        case ExportRaised(m) => Failed(FinalFailure + m)
        case Exported(bytes) => if |bytes| == 0 then Failed(FinalFailure + EmptyExport + path) else Generated(path)
  }

  /** Chunk files none of which decode end in the empty-concatenation failure. */
  lemma NothingJoined(codec: Codec, audios: seq<seq<byte>>, path: string)
    requires audios != []
    requires forall i :: 0 <= i < |audios| ==> codec.decode(audios[i]).None?
    ensures Assembled(codec, audios, path) == Failed(FinalFailure + EmptyConcatenation)
  {
    NoneDecodes(codec, audios);
  }

  /** The files once that stage is over and the chunk files are gone: the final file
      is written on success and removed on any failure. */
  function AssembledFiles(files: map<string, seq<byte>>, codec: Codec, audios: seq<seq<byte>>, path: string)
    : map<string, seq<byte>>
  {
    if audios == [] then files
    else
      var joined := Combined(codec, audios);
      if Duration(codec, joined) == 0 then files - {path}
      else match codec.encode(joined)
        case ExportRaised(_) => files - {path}
        case Exported(bytes) => if |bytes| == 0 then files - {path} else files[path := bytes]
  }

  // ---------------------------------------------------------------- the whole call

  /** final_filepath: AUDIO_DIR/<safe base>_<identifier>_<timestamp>.mp3. The safe base
      uses the corrected trim; Filename.ValidFilenameAsWritten states the only inputs on
      which the name as written differs (a cut base id ending in a newline). */
  function FinalPath(baseId: string, identifier: string, now: nat): (path: string)
    ensures HasPrefix(path, AudioDir + "/") && HasSuffix(path, ".mp3")
    ensures HasPrefix(path[|AudioDir| + 1..], ValidFilename(baseId, now) + "_" + identifier + "_")
    ensures HasSuffix(path, NatToString(now) + ".mp3")
    ensures |path| == |AudioDir| + 1 + |ValidFilename(baseId, now) + "_" + identifier + "_"| + |NatToString(now) + ".mp3"|
  {
    var stem := ValidFilename(baseId, now) + "_" + identifier + "_";
    var name := stem + NatToString(now) + ".mp3";
    Affixes(stem, NatToString(now), ".mp3");
    StampedName(stem, NatToString(now));
    Affixes(AudioDir + "/", name, "");
    SuffixOfAppend(AudioDir + "/", name, ".mp3");
    Join(name)
  }

  /** A name made of a stem, a stamp and ".mp3" ends, once joined, with the stamp and
      ".mp3", and is exactly as long as its three parts. */
  lemma StampedName(stem: string, stamp: string)
    ensures HasSuffix(Join(stem + stamp + ".mp3"), stamp + ".mp3")
    ensures |Join(stem + stamp + ".mp3")| == |AudioDir| + 1 + |stem| + |stamp + ".mp3"|
  {
    var name := stem + stamp + ".mp3";
    assert name == stem + (stamp + ".mp3");
    assert name[|name| - |stamp + ".mp3"|..] == stamp + ".mp3";
    SuffixOfAppend(AudioDir + "/", name, stamp + ".mp3");
  }

  /** What generate_audio returns. */
  function Generate(text: string, p: Providers, codec: Codec, baseId: string, identifier: string, now: nat)
    : AudioResult
  {
    if Blank(text) then Failed(EmptyText)
    else match Synthesised(p, Chunks(text))
      case Abort(m) => Failed(m)
      case Done(audios) => Assembled(codec, audios, FinalPath(baseId, identifier, now))
  }

  /** The files generate_audio leaves behind. */
  function GeneratedFiles(files: map<string, seq<byte>>, text: string, p: Providers, codec: Codec,
                          baseId: string, identifier: string, now: nat): map<string, seq<byte>>
  {
    if Blank(text) then files
    else match Synthesised(p, Chunks(text))
      case Abort(_) => files
      case Done(audios) => AssembledFiles(files, codec, audios, FinalPath(baseId, identifier, now))
  }

  /** No temporary chunk file outlives the call: the only path whose file can differ
      afterwards is the final one. */
  lemma OnlyFinalFileChanges(files: map<string, seq<byte>>, text: string, p: Providers, codec: Codec,
                             baseId: string, identifier: string, now: nat, q: string)
    requires q != FinalPath(baseId, identifier, now)
    ensures q in GeneratedFiles(files, text, p, codec, baseId, identifier, now) <==> q in files
    ensures q in files ==> GeneratedFiles(files, text, p, codec, baseId, identifier, now)[q] == files[q]
  {
    if !Blank(text) && Synthesised(p, Chunks(text)).Done? {
      AssembledOnlyFinal(files, codec, Synthesised(p, Chunks(text)).audios, FinalPath(baseId, identifier, now), q);
    }
  }

  lemma AssembledOnlyFinal(files: map<string, seq<byte>>, codec: Codec, audios: seq<seq<byte>>,
                           path: string, q: string)
    requires q != path
    ensures q in AssembledFiles(files, codec, audios, path) <==> q in files
    ensures q in files ==> AssembledFiles(files, codec, audios, path)[q] == files[q]
  {
  }

  /** A returned path names a non-empty file; on any error the final file is absent,
      unless the request never got as far as assembling. */
  lemma ResultMatchesFiles(files: map<string, seq<byte>>, text: string, p: Providers, codec: Codec,
                           baseId: string, identifier: string, now: nat)
    ensures var r := Generate(text, p, codec, baseId, identifier, now);
            var after := GeneratedFiles(files, text, p, codec, baseId, identifier, now);
            var path := FinalPath(baseId, identifier, now);
            && (r.Generated? ==> r.path == path && path in after && |after[path]| > 0)
            && (r.Failed? && !Blank(text) && Synthesised(p, Chunks(text)).Done? ==> path !in after)
            && (Blank(text) || Synthesised(p, Chunks(text)).Abort? ==> r.Failed? && after == files)
  {
    if !Blank(text) && Synthesised(p, Chunks(text)).Done? {
      NonBlankTextHasChunks(text);
      SynthesisedCount(p, text);
      AssembledMatchesFiles(files, codec, Synthesised(p, Chunks(text)).audios, FinalPath(baseId, identifier, now));
    }
  }

  lemma AssembledMatchesFiles(files: map<string, seq<byte>>, codec: Codec, audios: seq<seq<byte>>, path: string)
    requires audios != []
    ensures var r := Assembled(codec, audios, path);
            var after := AssembledFiles(files, codec, audios, path);
            && (r.Generated? ==> r.path == path && path in after && |after[path]| > 0)
            && (r.Failed? ==> path !in after)
  {
  }

  /** The "no chunks were produced" error is never returned: a provider pass over
      non-blank text that succeeds always leaves chunk audio to assemble, and a failed
      pass or blank text ends the call before that check. */
  lemma NothingProducedUnreachable(text: string, p: Providers)
    requires !Blank(text) && Synthesised(p, Chunks(text)).Done?
    ensures Synthesised(p, Chunks(text)).audios != []
  {
    NonBlankTextHasChunks(text);
    SynthesisedCount(p, text);
  }

  /** A failed provider pass reports "OpenAI TTS fallback failed: " and the reason. */
  lemma FallbackMessage(p: Providers, chunks: seq<string>)
    requires Synthesised(p, chunks).Abort?
    ensures HasPrefix(Synthesised(p, chunks).message, FallbackFailed)
    ensures OpenAIPass(p, chunks).Abort? &&
      Synthesised(p, chunks).message == FallbackFailed + OpenAIPass(p, chunks).message
  {
  }

  /** Once there is chunk audio, every failure reads "Failed during final audio
      processing: " and the reason. */
  lemma AssembledMessage(codec: Codec, audios: seq<seq<byte>>, path: string)
    requires audios != []
    ensures Assembled(codec, audios, path).Failed? ==>
      HasPrefix(Assembled(codec, audios, path).message, FinalFailure)
  {
  }

  /** The final file is an .mp3 entry of AUDIO_DIR (when the identifier holds no '/'),
      so a later cleanup_audio_files deletes it unless an article keeps it. */
  lemma FinalPathInAudioDir(baseId: string, identifier: string, now: nat)
    requires NoSlash(identifier)
    ensures InAudioDir(FinalPath(baseId, identifier, now))
    ensures IsMp3Name(EntryName(FinalPath(baseId, identifier, now)))
  {
    var safe := ValidFilename(baseId, now);
    var digits := NatToString(now);
    assert NoSlash(safe) by {
      forall k | 0 <= k < |safe| ensures safe[k] != '/' { assert SafeChar(safe[k]); }
    }
    assert NoSlash(digits) by {
      forall k | 0 <= k < |digits| ensures digits[k] != '/' { assert '0' <= digits[k] <= '9'; }
    }
    StemNoSlash(safe, identifier, digits);
    Mp3Entry(safe + "_" + identifier + "_" + digits);
  }

  lemma StemNoSlash(safe: string, identifier: string, digits: string)
    requires NoSlash(safe) && NoSlash(identifier) && NoSlash(digits)
    ensures NoSlash(safe + "_" + identifier + "_" + digits)
  {
    assert NoSlash("_");
    NoSlashConcat(safe, "_");
    NoSlashConcat(safe + "_", identifier);
    NoSlashConcat(safe + "_" + identifier, "_");
    NoSlashConcat(safe + "_" + identifier + "_", digits);
  }

  /** AUDIO_DIR/<stem>.mp3 is an .mp3 entry of AUDIO_DIR when the stem holds no '/'. */
  lemma Mp3Entry(stem: string)
    requires NoSlash(stem)
    ensures InAudioDir(Join(stem + ".mp3")) && IsMp3Name(EntryName(Join(stem + ".mp3")))
  {
    assert NoSlash(".mp3");
    NoSlashConcat(stem, ".mp3");
    NoSlashJoin(stem + ".mp3");
    Mp3Suffix(stem);
  }

  /** A string holding no '/'. */
  predicate NoSlash(s: string) {
    forall k :: 0 <= k < |s| ==> s[k] != '/'
  }

  lemma NoSlashConcat(a: string, b: string)
    requires NoSlash(a) && NoSlash(b)
    ensures NoSlash(a + b)
  {
    forall k | 0 <= k < |a + b| ensures (a + b)[k] != '/' {
      if k < |a| { assert (a + b)[k] == a[k]; } else { assert (a + b)[k] == b[k - |a|]; }
    }
  }

  // ---------------------------------------------------------------- the code

  /** The paths listed in chunk_temp_files. */
  function Members(temps: seq<string>): set<string> {
    set t | t in temps
  }

  /** chunk_temp_files and the disk agree: each listed path is a fresh file (not there
      before the call, not the final path, listed once) holding the listed audio, and
      the disk is the starting disk plus these files. */
  ghost predicate Tracked(files: map<string, seq<byte>>, start: map<string, seq<byte>>,
                          temps: seq<string>, audios: seq<seq<byte>>, final: string)
  {
    && |temps| == |audios|
    && (forall j, k :: 0 <= j < k < |temps| ==> temps[j] != temps[k])
    && (forall k :: 0 <= k < |temps| ==>
          temps[k] !in start && temps[k] != final && temps[k] in files && files[temps[k]] == audios[k])
    && files - Members(temps) == start
  }

  lemma TrackedNone(files: map<string, seq<byte>>, final: string)
    ensures Tracked(files, files, [], [], final)
  {
    assert Members([]) == {};
    assert files - {} == files;
  }

  lemma TrackedAppend(files: map<string, seq<byte>>, start: map<string, seq<byte>>,
                      temps: seq<string>, audios: seq<seq<byte>>, final: string, t: string, a: seq<byte>)
    requires Tracked(files, start, temps, audios, final)
    requires t !in files && t != final
    ensures Tracked(files[t := a], start, temps + [t], audios + [a], final)
  {
    var after := files[t := a];
    assert Members(temps + [t]) == Members(temps) + {t};
    assert t !in files - Members(temps);
    assert after - Members(temps + [t]) == files - Members(temps);
    forall k | 0 <= k < |temps| ensures temps[k] != t {
    }
  }

  /** Deletes every file in chunk_temp_files that exists; removal never fails here. */
  method RemoveAll(disk: Disk, temps: seq<string>)
    modifies disk
    ensures disk.files == old(disk.files) - Members(temps)
    ensures disk.dirExists == old(disk.dirExists)
  {
    for k := 0 to |temps|
      invariant disk.files == old(disk.files) - Members(temps[..k])
      invariant disk.dirExists == old(disk.dirExists)
    {
      MembersStep(temps, k);
      disk.RemoveIfExists(temps[k]);
    }
    assert temps[..|temps|] == temps;
  }

  lemma MembersStep(temps: seq<string>, k: nat)
    requires k < |temps|
    ensures Members(temps[..k + 1]) == Members(temps[..k]) + {temps[k]}
    ensures forall m: map<string, seq<byte>> :: m - Members(temps[..k]) - {temps[k]} == m - Members(temps[..k + 1])
  {
    assert temps[..k + 1] == temps[..k] + [temps[k]];
  }

  /** One chunk of either provider loop: a fresh temporary .mp3 is created, the
      provider is asked for the chunk, and its audio is written to the file; the file
      is kept when it holds audio, and removed again when the request raised or left
      it empty. */
  method SpeakChunk(disk: Disk, speak: (nat, string) -> TtsReply, i: nat, send: string, final: string)
    returns (tmp: string, reply: TtsReply)
    requires disk.Valid() && disk.dirExists
    modifies disk
    ensures reply == speak(i, send)
    ensures tmp !in old(disk.files) && tmp != final
    ensures InAudioDir(tmp) && IsMp3Name(EntryName(tmp))
    ensures Usable(reply) ==> disk.files == old(disk.files)[tmp := reply.audio]
    ensures !Usable(reply) ==> disk.files == old(disk.files)
    ensures disk.dirExists && disk.Valid()
  {
    tmp := disk.CreateTemp(final);
    reply := speak(i, send);
    if reply.Spoken? {
      disk.Write(tmp, reply.audio);
    }
    if !Usable(reply) {
      disk.RemoveIfExists(tmp);
    }
  }

  /** The ElevenLabs attempt (mainfunctions.py:189-240). Stops at the first failing
      chunk; the failed chunk's own file is removed, the earlier ones stay listed. */
  method RunElevenLabs(disk: Disk, p: Providers, chunks: seq<string>, final: string)
    returns (failed: bool, temps: seq<string>, ghost audios: seq<seq<byte>>)
    requires disk.Valid() && disk.dirExists
    modifies disk
    ensures failed <==> ElevenLabsPass(p, chunks).None?
    ensures !failed ==> audios == ElevenLabsPass(p, chunks).value
    ensures Tracked(disk.files, old(disk.files), temps, audios, final)
    ensures disk.dirExists && disk.Valid()
  {
    temps, audios := [], [];
    TrackedNone(disk.files, final);
    if p.elevenLabsKey == [] || p.elevenLabsClient.Some? {
      return true, temps, audios;
    }
    failed := false;
    for i := 0 to |chunks|
      invariant !failed && ElevenLabsUpTo(p, chunks, i) == Some(audios)
      invariant Tracked(disk.files, old(disk.files), temps, audios, final)
      invariant disk.dirExists && disk.Valid()
    {
      if chunks[i] != [] {
        ghost var before := disk.files;
        var tmp, reply := SpeakChunk(disk, p.elevenLabs, i, Cut(chunks[i], ElevenLabsLimit), final);
        if !Usable(reply) {
          ElevenLabsStaysFailed(p, chunks, i + 1, |chunks|);
          return true, temps, audios;
        }
        TrackedAppend(before, old(disk.files), temps, audios, final, tmp, reply.audio);
        temps, audios := temps + [tmp], audios + [reply.audio];
      }
    }
  }

  /** The OpenAI fallback (mainfunctions.py:253-286). Returns the message of the first
      failure, if any; the failing chunk's own file is removed, the earlier ones stay
      listed for the caller to delete. */
  method RunOpenAI(disk: Disk, p: Providers, chunks: seq<string>, final: string)
    returns (abort: Option<string>, temps: seq<string>, ghost audios: seq<seq<byte>>)
    requires disk.Valid() && disk.dirExists
    modifies disk
    ensures abort.None? <==> OpenAIPass(p, chunks).Done?
    ensures abort.None? ==> audios == OpenAIPass(p, chunks).audios
    ensures abort.Some? ==> OpenAIPass(p, chunks) == Abort(abort.value)
    ensures Tracked(disk.files, old(disk.files), temps, audios, final)
    ensures disk.dirExists && disk.Valid()
  {
    temps, audios := [], [];
    TrackedNone(disk.files, final);
    if p.openAIClient.Some? {
      return p.openAIClient, temps, audios;
    }
    abort := None;
    for i := 0 to |chunks|
      invariant abort == None && OpenAIUpTo(p, chunks, i) == Done(audios)
      invariant Tracked(disk.files, old(disk.files), temps, audios, final)
      invariant disk.dirExists && disk.Valid()
    {
      if chunks[i] != [] {
        ghost var before := disk.files;
        var tmp, reply := SpeakChunk(disk, p.openAI, i, Cut(chunks[i], OpenAILimit), final);
        if !Usable(reply) {
          var message := if reply.Raised? then reply.message else EmptyOpenAIChunk(i + 1);
          OpenAIStaysAborted(p, chunks, i + 1, |chunks|, message);
          return Some(message), temps, audios;
        }
        TrackedAppend(before, old(disk.files), temps, audios, final, tmp, reply.audio);
        temps, audios := temps + [tmp], audios + [reply.audio];
      }
    }
  }

  /** Concatenation, export and the final clean-up of the chunk files
      (mainfunctions.py:293-344). */
  method Assemble(disk: Disk, codec: Codec, temps: seq<string>, ghost audios: seq<seq<byte>>,
                  ghost start: map<string, seq<byte>>, final: string)
    returns (result: AudioResult)
    requires Tracked(disk.files, start, temps, audios, final)
    requires disk.dirExists
    modifies disk
    ensures result == Assembled(codec, audios, final)
    ensures disk.files == AssembledFiles(start, codec, audios, final)
    ensures disk.dirExists == old(disk.dirExists)
  {
    if temps == [] {
      assert disk.files == start by { assert Members(temps) == {}; assert disk.files - {} == disk.files; }
      return Failed(NothingProduced);
    }
    var files := disk.files;
    ghost var chunkFiles := Members(temps);
    assert final !in chunkFiles;
    var joined, errors := Concatenate(codec, files, temps, audios);
    if Duration(codec, joined) == 0 {
      result := Failed(FinalFailure + EmptyConcatenation);
      disk.RemoveIfExists(final);
      RemovedCommutes(files, chunkFiles, final);
    } else {
      var exported := codec.encode(joined);
      if exported.ExportRaised? {
        result := Failed(FinalFailure + exported.message);
        disk.RemoveIfExists(final);
        RemovedCommutes(files, chunkFiles, final);
      } else {
        disk.Write(final, exported.audio);
        if |exported.audio| == 0 {
          result := Failed(FinalFailure + EmptyExport + final);
          disk.RemoveIfExists(final);
          OverwrittenRemoved(files, final, exported.audio);
          RemovedCommutes(files, chunkFiles, final);
        } else {
          result := Generated(final);
          WrittenCommutes(files, chunkFiles, final, exported.audio);
        }
      }
    }
    RemoveAll(disk, temps);
  }

  /** The concatenation loop: every chunk file is decoded and appended in order, and
      the ones that do not decode are counted. */
  method Concatenate(codec: Codec, files: map<string, seq<byte>>, temps: seq<string>,
                     ghost audios: seq<seq<byte>>)
    returns (joined: seq<byte>, errors: nat)
    requires |temps| == |audios|
    requires forall k :: 0 <= k < |temps| ==> temps[k] in files && files[temps[k]] == audios[k]
    ensures joined == Combined(codec, audios)
    ensures errors == Skipped(codec, audios)
  {
    joined, errors := [], 0;
    for k := 0 to |temps|
      invariant joined == Combined(codec, audios[..k])
      invariant errors == Skipped(codec, audios[..k])
    {
      assert audios[..k + 1][..k] == audios[..k];
      var segment := codec.decode(files[temps[k]]);
      if segment.Some? {
        joined := joined + segment.value;
      } else {
        errors := errors + 1;
      }
    }
    assert audios[..|temps|] == audios;
  }

  /** Writing a file and then removing it is removing it. */
  lemma OverwrittenRemoved(files: map<string, seq<byte>>, final: string, b: seq<byte>)
    ensures files[final := b] - {final} == files - {final}
  {
  }

  /** Removing the final file commutes with removing the chunk files. */
  lemma RemovedCommutes(files: map<string, seq<byte>>, temps: set<string>, final: string)
    requires final !in temps
    ensures (files - {final}) - temps == (files - temps) - {final}
  {
  }

  /** Writing the final file commutes with removing the chunk files. */
  lemma WrittenCommutes(files: map<string, seq<byte>>, temps: set<string>, final: string, b: seq<byte>)
    requires final !in temps
    ensures files[final := b] - temps == (files - temps)[final := b]
  {
  }

  /** generate_audio(text, ...) of mainfunctions.py:127-344, with `now` for both
      readings of the clock and the final name built with the corrected trim (see
      FinalPath). */
  method GenerateAudio(disk: Disk, text: string, p: Providers, codec: Codec,
                       baseId: string, identifier: string, now: nat)
    returns (result: AudioResult)
    requires disk.Valid() && disk.dirExists
    modifies disk
    ensures result == Generate(text, p, codec, baseId, identifier, now)
    ensures disk.files == GeneratedFiles(old(disk.files), text, p, codec, baseId, identifier, now)
    ensures disk.dirExists && disk.Valid()
  {
    if Blank(text) {
      return Failed(EmptyText);
    }
    var final := FinalPath(baseId, identifier, now);
    var chunks := SplitIntoChunks(text);
    var failed, temps, audios := RunElevenLabs(disk, p, chunks, final);
    if failed {
      RemoveAll(disk, temps);
      var abort;
      abort, temps, audios := RunOpenAI(disk, p, chunks, final);
      if abort.Some? {
        RemoveAll(disk, temps);
        return Failed(FallbackFailed + abort.value);
      }
    }
    result := Assemble(disk, codec, temps, audios, old(disk.files), final);
  }
}
