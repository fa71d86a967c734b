# Article-to-audio pipeline: a Dafny model

This project models the core of a small Streamlit application. The application
reads articles from a URL or from pasted text and summarises them. It then turns
the text into speech, using ElevenLabs first and OpenAI as the fallback. The
model covers two parts.

* The audio pipeline in `mainfunctions.py`:
  * `get_valid_filename` (module `Filename`);
  * the chunking of text into pieces of at most 2500 characters (module `Chunker`);
  * `generate_audio`, with the ElevenLabs pass, the whole-request switch to OpenAI,
    the concatenation and export, and the removal of every temporary chunk file
    (module `Synthesis`);
  * `cleanup_audio_files`, and the files of the audio directory `temp_audio`
    (module `Storage`).
* The article list kept in the session state of `app.py` (module `Articles`):
  * `get_article_index`, `get_active_audio_paths` and `create_manual_id`;
  * the two "add" buttons and their guards;
  * the processing block that appends and selects the new article and cleans up
    unused audio;
  * the delete button.

Module `Text` holds the parts of Python string behaviour the code relies on:
`str.strip`, `str.split('\n')`, `str.lower`, and `str(n)` for a non-negative int.

Functions such as `Chunks`, `ElevenLabsPass`, `OpenAIPass`, `Generate`, `AfterCleanup`
and `Decide` specify what each step produces. The imperative code is modelled by
methods with loops: `SplitIntoChunks`, `RunElevenLabs`, `RunOpenAI`, `Concatenate`,
`Sweep`, `FirstFree`, `RemoveAudio` and `GetActiveAudioPaths`. Each of those methods
is proved equal to its specification function. The file system is a class `Disk`
whose map from path to bytes the methods update. The session state is a class
`Session` whose fields the button handlers update. The providers, the audio decoder,
the article fetcher, the summariser and the clock are parameters.

## Model

| member | source | states |
|---|---|---|
| Filename.ValidFilename | mainfunctions.py:47-59 | The name is never empty. It has no forbidden character, no space, no `_./` at either end, and is not an http(s) URL. It is the `article_<time>` fallback or at most 100 characters long. Otherwise it is the trimmed, cut, substituted input. |
| Filename.ValidFilenameIdempotent | mainfunctions.py:47-59 | Sanitising a sanitised name again, at any later time, returns it unchanged. This uses the corrected trim. |
| Filename.CleanIsFixpoint | mainfunctions.py:52-58 | A clean name of at most 100 characters is its own sanitised form. |
| Filename.FallbackClean | mainfunctions.py:58 | The `article_<time>` fallback is itself a clean name and not a URL. |
| Filename.CleanNotUrl | mainfunctions.py:49 | A clean name never starts with `http://` or `https://`, so it is not parsed again. |
| Filename.UrlReducedToHostAndPath | mainfunctions.py:49-51 | For `http://host/path?query#fragment` and `https://host/path?query#fragment`, urlparse's netloc followed by its path is exactly host followed by path. |
| Filename.SplitAfterScheme | mainfunctions.py:50-51 | After the scheme, the network location ends at the first `/`, `?` or `#`, and the path ends at the first `?` or `#`. |
| Filename.NetlocPath | mainfunctions.py:49-51 | For an http(s) URL, the netloc followed by the path is shorter than the URL and holds no tab, carriage return or line feed. `UrlReducedToHostAndPath` and `SplitAfterScheme` say which characters it keeps. |
| Filename.RemoveUnsafe | mainfunctions.py:50 | urlparse first deletes every tab, carriage return and line feed. No such character is left, and a single other character is kept. |
| Filename.RemoveUnsafeAppend | mainfunctions.py:50 | The deletion works piece by piece. With the one-character cases, every other character is kept, in order. |
| Filename.RemoveUnsafeNoop | mainfunctions.py:50 | A string without tabs, carriage returns or line feeds is unchanged. |
| Filename.DropParams | mainfunctions.py:50 | urlparse's `_splitparams` keeps a prefix of the path. The cut is at the first `;` after the last `/` (or after the start when there is no `/`), and there is no cut when no such `;` exists. |
| Filename.DropForbidden | mainfunctions.py:54 | No backslash, slash, `*`, `?`, `:`, double quote, `<`, `>` or vertical bar is left. No space appears that was not there. A string without such characters is unchanged, and a single other character is kept. |
| Filename.DropForbiddenAppend | mainfunctions.py:54 | The deletion works piece by piece. With the one-character cases, every other character is kept, in order. |
| Filename.Underscores | mainfunctions.py:55 | Length is kept. Each space, `/` and `:` becomes `_`. Every other character stays. |
| Filename.Prepared | mainfunctions.py:54-57 | Before trimming, the cut name has at most 100 characters. None of them is forbidden or a space. |
| Filename.PreparedNoop | mainfunctions.py:54-56 | Substituting and cutting leaves a safe, short, non-URL name unchanged. |
| Filename.DropLeadingEdge | mainfunctions.py:57 | `^[_./]+` leaves a suffix that does not start with `_./`, and leaves a string that does not start with one unchanged. |
| Filename.DropLeadingEdgeRun | mainfunctions.py:57 | Every character that `^[_./]+` removes is one of `_./`. |
| Filename.DropTrailingEdge | mainfunctions.py:57 | `[_./]+$` (without the newline rule) leaves a prefix that does not end with `_./`, and leaves a string that does not end with one unchanged. |
| Filename.DropTrailingEdgeRun | mainfunctions.py:57 | Every character that the trailing trim removes is one of `_./`. |
| Filename.TrimEdges | mainfunctions.py:57 | The intended trim is no longer than the input, leaves no `_./` at either end, and keeps only safe characters. |
| Filename.TrimEdgesMiddle | mainfunctions.py:57 | The intended trim is one contiguous middle slice of the input, and everything outside it is `_./`. |
| Filename.TrimEdgesAsWritten | mainfunctions.py:57 | Python's trim, where `$` also matches before a final newline, keeps only safe characters. |
| Filename.TrimEdgesAsWrittenCases | mainfunctions.py:57 | The trim as written equals the intended trim on every string that does not end with a newline. On a string that does, it is the intended trim of the rest followed by the newline. |
| Filename.ValidFilenameAsWritten | mainfunctions.py:47-59 | The name as written is never empty and has only safe characters. It equals `ValidFilename` unless the cut name ends with a newline. |
| Filename.AsWrittenNotIdempotent | mainfunctions.py:57 | As written, `a_\n_` becomes `a_\n`, and `a_\n` becomes `a\n`. |
| Chunker.SplitIntoChunks | mainfunctions.py:165-182 | The loop's result equals `Chunks(text)`. Every chunk holds 1 to 2500 characters. There are no chunks exactly when the text is blank. Without their newlines, the chunks concatenate to the stripped non-blank lines in order. |
| Chunker.AppendSlices | mainfunctions.py:179 | The inner loop appends the 2500-character slices of a long line, in order. |
| Chunker.SlicesShape | mainfunctions.py:179 | The slices are non-empty and at most 2500 characters long, and together they spell the line. |
| Chunker.ChunksProperties | mainfunctions.py:165-182 | Bounds, empty exactly for blank text, and no text lost or reordered. |
| Chunker.NonBlankTextHasChunks | mainfunctions.py:184-186 | Text that is not blank always yields a chunk. |
| Chunker.LongLineIsSliced | mainfunctions.py:176-180 | A stripped line longer than 2500 characters appears as consecutive chunks equal to its slices. |
| Chunker.PackGrows | mainfunctions.py:170-181 | The loop only ever appends to `text_chunks`. |
| Chunker.StepGood | mainfunctions.py:170-181 | One pass of the loop body keeps every chunk within bounds and carries the new line. |
| Chunker.Step | mainfunctions.py:170-182 | A blank line leaves both loop variables as they were. After any other line, `current_chunk` is empty or ends with a newline. It is empty exactly when the stripped line was longer than 2500 characters and went out as slices. |
| Chunker.PackGood | mainfunctions.py:170-181 | The loop invariant holds after any prefix of the paragraphs. |
| Chunker.FlushedShape | mainfunctions.py:176-182 | Flushing the current chunk keeps the bounds and loses no text. |
| Chunker.NonBlankLinesEmpty | mainfunctions.py:171-172 | No non-blank line remains exactly when every paragraph is blank. |
| Chunker.BlankIffNoLines | mainfunctions.py:166-172 | Text is blank exactly when it has no non-blank line. |
| Text.Strip | mainfunctions.py:171 | `str.strip()` returns empty exactly for blank text, and otherwise has no whitespace at either end. It adds no newline, and leaves text without whitespace at its ends unchanged. |
| Text.StripLeftSpaces | mainfunctions.py:171 | Every character removed in front is whitespace. |
| Text.StripRightSpaces | mainfunctions.py:171 | Every character removed at the end is whitespace. |
| Text.StripMiddle | mainfunctions.py:171 | `str.strip()` returns one contiguous middle slice of the text, and everything outside it is whitespace. |
| Text.SplitJoin | mainfunctions.py:166 | Joining the pieces of `split('\n')` with newlines gives back the text. |
| Text.BlankSplit | mainfunctions.py:146-148 | Text is blank exactly when every one of its lines is. |
| Text.Cut | mainfunctions.py:57 | `s[:n]` is the first `n` characters of `s`, or all of `s` when it is shorter. |
| Text.Lower | app.py:124 | `str.lower()` keeps the length, and lowers each character on its own. |
| Synthesis.SpeakChunk | mainfunctions.py:209-228 | A fresh temporary `.mp3` gets the provider's reply when that reply is non-empty. Otherwise the disk is left as before. |
| Synthesis.RunElevenLabs | mainfunctions.py:189-243 | The loop fails exactly when `ElevenLabsPass` does. On success it returns that pass's audio. Its temporary files are new and hold that audio, and nothing else changed. |
| Synthesis.ElevenLabsStaysFailed | mainfunctions.py:230-239 | After a failure the loop stays failed (`break`). |
| Synthesis.ElevenLabsAllSpoken | mainfunctions.py:202-222 | The pass succeeds exactly when every chunk gets a non-empty reply. It then yields those replies in chunk order. |
| Synthesis.RunOpenAI | mainfunctions.py:253-291 | The loop aborts exactly when `OpenAIPass` does, with the same message. Otherwise it returns that pass's audio. Its temporary files are tracked. |
| Synthesis.OpenAIStaysAborted | mainfunctions.py:281-284 | After an abort the pass stays aborted with the same message. |
| Synthesis.OpenAIFirstFailure | mainfunctions.py:273-291 | The first failing chunk decides the message, whatever later chunks would do. |
| Synthesis.OpenAIAllSpoken | mainfunctions.py:256-279 | When every chunk gets a non-empty reply, the pass yields one file per chunk, in order. |
| Synthesis.OpenAIDoneCount | mainfunctions.py:256-279 | A finished pass over non-empty chunks holds one file per chunk. |
| Synthesis.OpenAINotConsulted | mainfunctions.py:245-246 | When ElevenLabs speaks every chunk, what OpenAI would do has no effect on the result. |
| Synthesis.ElevenLabsDiscarded | mainfunctions.py:246-251 | When ElevenLabs fails, what it produced before failing has no effect on the result. |
| Synthesis.ChunksSentWhole | mainfunctions.py:206-259 | The cuts at 3000 and 4096 characters never shorten a chunk from the chunker. |
| Synthesis.Synthesised | mainfunctions.py:189-291 | When every ElevenLabs chunk succeeds, the result is ElevenLabs' audio. Otherwise it is OpenAI's audio when that pass finishes. The result is an abort exactly when both passes fail, and the abort message starts with "OpenAI TTS fallback failed: ". |
| Synthesis.SynthesisedCount | mainfunctions.py:189-291 | Whichever provider succeeds yields exactly one audio file per chunk. |
| Synthesis.RemoveAll | mainfunctions.py:336-344 | Every tracked temporary file is gone and nothing else changes. |
| Synthesis.Concatenate | mainfunctions.py:302-313 | The joined samples are those of the files that decode, in order. The error count is the number of files that do not decode. |
| Synthesis.CombinedAppend | mainfunctions.py:303-313 | Joining and error counting distribute over consecutive groups of chunk files. |
| Synthesis.UndecodableSkipped | mainfunctions.py:308-313 | A file that does not decode contributes nothing, and adds one to the error count. |
| Synthesis.NoneDecodes | mainfunctions.py:302-313 | When no chunk file decodes, nothing is joined and every file counts as an error. |
| Synthesis.NothingJoined | mainfunctions.py:302-319 | When no chunk file decodes, the call fails with "Concatenation resulted in empty audio.". |
| Synthesis.Assemble | mainfunctions.py:293-344 | The result equals `Assembled` and the files equal `AssembledFiles`. That is: the final path when the joined audio lasts more than 0 ms and the export is non-empty, and an error otherwise. The temporary files are removed either way. |
| Synthesis.AssembledOnlyFinal | mainfunctions.py:336-344 | After assembly, every path other than the final file is as it was before synthesis began. |
| Synthesis.AssembledMatchesFiles | mainfunctions.py:315-334 | A returned path names a non-empty file. On failure the final file is absent. |
| Synthesis.AssembledMessage | mainfunctions.py:330-334 | Once there is chunk audio, every failure reads "Failed during final audio processing: ...". |
| Synthesis.GenerateAudio | mainfunctions.py:127-344 | The result and the disk afterwards equal `Generate` and `GeneratedFiles`. |
| Synthesis.OnlyFinalFileChanges | mainfunctions.py:336-344 | No temporary chunk file outlives `generate_audio`. Only the final path can differ from before. |
| Synthesis.ResultMatchesFiles | mainfunctions.py:146-344 | A returned path names an existing non-empty file. An error raised after a provider pass that produced audio leaves no final file. After blank text or a failed provider pass, the disk is as it was. |
| Synthesis.FallbackMessage | mainfunctions.py:286-291 | A failed provider pass reports "OpenAI TTS fallback failed: " and the reason from the OpenAI pass. |
| Synthesis.NothingProducedUnreachable | mainfunctions.py:294-296 | For non-blank text, a successful pass has at least one chunk file, so the "no chunks were produced" branch is never taken. |
| Synthesis.FinalPath | mainfunctions.py:159-162 | The path is `temp_audio/`, then the sanitised base id, `_`, the identifier and `_`, then the timestamp and `.mp3`, with nothing else in between. |
| Synthesis.FinalPathInAudioDir | mainfunctions.py:159-162 | The final path is an `.mp3` entry directly inside `temp_audio`. |
| Storage.Join | mainfunctions.py:359 | `os.path.join(AUDIO_DIR, name)` is `temp_audio/` followed by the name. |
| Storage.EntryName | mainfunctions.py:357-359 | The name `os.listdir` reports joins back to the path. |
| Storage.Disk.FreshTempPath | mainfunctions.py:209-210 | The temporary name is new, is not the final path, and is an `.mp3` entry of `temp_audio`. |
| Storage.Disk.CreateTemp | mainfunctions.py:209-210 | A new empty file under such a name. Nothing else changes. |
| Storage.Disk.Write | mainfunctions.py:219 | The file holds exactly the written bytes. Nothing else changes. |
| Storage.Disk.RemoveIfExists | mainfunctions.py:226-238 | The path is absent. Nothing else changes. |
| Storage.Disk.Cleanup | mainfunctions.py:350-367 | The files equal `AfterCleanup` (unchanged when the directory is missing). The counts are the removed unused `.mp3` files and the kept `.mp3` files. |
| Storage.Sweep | mainfunctions.py:355-366 | The scan over the listing removes exactly the unused `.mp3` entries that can be removed, and counts both kinds. |
| Storage.AfterCleanupExactly | mainfunctions.py:357-362 | A file survives, with its content, exactly when it is outside `temp_audio`, is not `.mp3` (any case), is kept, or refuses removal. |
| Storage.CleanupIdempotent | mainfunctions.py:350-367 | Cleaning up twice with the same keep set removes nothing more. |
| Storage.NothingToClean | mainfunctions.py:353 | Without entries in `temp_audio`, the clean-up changes nothing and counts nothing. |
| Articles.Session.constructor | app.py:77-87 | The defaults: no articles, no selection, not processing, no target, no pending manual data. |
| Articles.IndexOf | app.py:103-108 | The position is -1 exactly when no article has the id. Otherwise it is the first position holding the id. |
| Articles.Session.GetArticleIndex | app.py:103-108 | The loop returns `IndexOf`. |
| Articles.Session.GetActiveAudioPaths | app.py:110-119 | The loop returns `ActiveAudioPaths`. |
| Articles.ActiveAudioPathsExactly | app.py:110-119 | A path is active exactly when it exists and some article refers to it. |
| Articles.AudioPathsExactly | app.py:114-115 | An article refers to exactly its non-empty full and summary audio paths. |
| Articles.CleanupKeepsArticleAudio | app.py:273 | The clean-up after adding never deletes or changes an existing audio file of any article. |
| Articles.ActiveWithoutAudio | app.py:271-273 | The appended article, having no audio yet, adds nothing to the kept paths. |
| Articles.Squash | app.py:124 | `re.sub(r'\W+', '_', s)` is no longer than its input and leaves only word characters. |
| Articles.SquashKeepsWords | app.py:124 | A string of word characters only is unchanged. |
| Articles.SquashSnoc | app.py:124 | Read left to right, a word character is kept, a non-word character after another one adds nothing, and any other non-word character adds one `_`. |
| Articles.SquashRun | app.py:124 | A non-empty run of non-word characters becomes a single `_`. |
| Articles.SquashAppend | app.py:124 | Squashing two pieces joined where a word character meets the cut is squashing each piece on its own. |
| Articles.SquashBetween | app.py:124 | A run of non-word characters between word characters (or the ends) becomes exactly one `_`, and the two sides are squashed on their own. |
| Articles.TitleSlug | app.py:124-125 | The slug of a non-blank title has 1 to 50 word characters. |
| Articles.BaseId | app.py:123-136 | The base id starts with `manual_` followed by word characters. For a non-blank title it is 1 to 50 characters past the prefix. |
| Articles.CandidateInjective | app.py:131 | Different attempts try different ids. |
| Articles.CandidatesBounded | app.py:130-132 | At most as many attempts collide as there are ids, so the loop ends. |
| Articles.FreeCandidateIsFirst | app.py:127-132 | The settled id is free, and every candidate before it was taken. |
| Articles.FirstFree | app.py:127-142 | The collision loop returns the first free candidate, which starts with `manual_`. |
| Articles.Session.CreateManualId | app.py:121-143 | The new id is not an article's id, starts with `manual_`, and is the first free candidate from the title's base. |
| Articles.Session.NewManualData | app.py:214-218 | The pending manual data holds the typed title and text. Its id is `create_manual_id(title)`, the first free candidate from the title's base id. |
| Articles.Session.Enqueue | app.py:218-220 | `manual_data` holds the pending article, and `processing` is set with its id as the target. The article list, the selection and the messages are unchanged, and the session stays consistent. |
| Articles.Session.RequestUrl | app.py:180-187 | At five articles: "Maximum" warning. For a URL already added: duplicate warning. Otherwise the URL becomes the processing target. Nothing else changes. |
| Articles.Session.RequestManual | app.py:210-221 | At five articles: warning, and nothing else changes. Otherwise the pasted title and text wait under `create_manual_id(title)`, the first free candidate from the title's base id. That id is new, starts with `manual_`, and becomes the target. The articles, the selection and the messages are unchanged. |
| Articles.PendingKeepsConsistent | app.py:210-221 | A new request made with room left and a free id keeps the session consistent. |
| Articles.DecideTarget | app.py:225-267 | The branches compute `Decide`. |
| Articles.DecideReportsOnce | app.py:229-267 | Each run reports exactly one of a success and an error. An article that is not added always comes with an error. |
| Articles.DecideAddsTarget | app.py:235-259 | The added article is the pending pasted article, or the URL itself. It is marked manual accordingly, has no audio yet, and keeps what the summariser said. |
| Articles.FailedFetchAddsNothing | app.py:250-252 | A failed fetch adds nothing and reports an error. |
| Articles.ProcessingKeepsConsistent | app.py:180-273 | At most five articles, and ids stay distinct after processing. |
| Articles.AddKeepsUnique | app.py:271 | Appending an article with a new id keeps ids distinct. |
| Articles.Session.Add | app.py:270-273 | The article is appended and selected. The disk equals the clean-up keeping the audio of the earlier articles. The processing flag, the target, the pending manual data and the success and error messages keep their values. |
| Articles.Session.Process | app.py:225-287 | Nothing happens unless processing. Otherwise the article from `Decide` (if any) is appended and selected and the audio is cleaned up. The flags are reset and the messages set. |
| Articles.Session.Delete | app.py:470-499 | Deletes exactly when the id is found. Then it removes the article at that index, clears the selection, and removes that article's audio files. Otherwise it reports the index mismatch and changes nothing. |
| Articles.Session.Pop | app.py:474-493 | The found branch: pop, success message, audio removal, selection cleared. |
| Articles.RemoveAudio | app.py:479-490 | Every set, non-empty, existing path is removed unless removal is refused. |
| Articles.RemoveAtKeepsUnique | app.py:475 | Popping an article keeps ids distinct and drops exactly its id. |

## Left out

- The Streamlit user interface is not modelled. That covers widgets, reruns, spinners, audio players, the clear-input callbacks and the `disabled=` conditions of the buttons. The handlers are modelled as if their button was pressed.
- `fetch_article_content` and `summarize_text` are parameters whose results the model takes as given. They call the network and OpenAI.
- `is_valid_url` is not modelled. It does not guard any of the modelled handlers.
- The ElevenLabs and OpenAI clients are functions from chunk index and text to a reply. The reply is audio bytes, or an error. Quota errors and other errors are not told apart, because the code treats them the same.
- pydub is a codec parameter. An audio segment is its sequence of samples. `len(segment)` is the codec's `millis` of those samples, which is 0 for no samples (`Synthesis.Duration`). The length of an export is not modelled beyond being empty or not.
- Language detection and all logging are left out. They have no effect on the results.
- The clock is a parameter `now`. `generate_audio` reads `time.time()` once for the final name. The model uses the same reading for the name fallback in `get_valid_filename`.
- `tempfile` names are any `.mp3` entry of `temp_audio` that does not exist yet and is not the final path.
- File existence is modelled as membership in the disk map. Directories other than `temp_audio` are not modelled. `temp_audio` is assumed to exist during `generate_audio`, because the module creates it when it is imported.
- Failed removals are not modelled inside `generate_audio`. There, removal always succeeds. A set of paths that refuse removal is modelled for `cleanup_audio_files` and for the delete button.
- The `except Exception` handler of the processing block is not modelled. The code paths modelled here raise nothing.
- Text.Lower: only ASCII capitals are lowered. Python's `str.lower` also lowers other alphabets, which only matters for a title's slug in `create_manual_id`.
- `Articles.Squash`: `\W` is approximated. ASCII letters, digits and `_` count as word characters, and so does every non-ASCII character. `str.lower` is modelled on ASCII letters only.
- urlparse's `ValueError` on malformed brackets and its NFKC checks are not modelled. `Filename.UrlReducedToHostAndPath` states the reduction for host, path and suffix characters without brackets.
- `app.py` calls `generate_audio` with a different parameter list at line 405. Lines 250, 290 and 333 of `mainfunctions.py` use a one-line `try` that Python would reject. The model follows what each function evidently does.
- The branch `elif fetch_error` at app.py:264 is dead: a fetch error has already taken the branch at line 251. It is not modelled separately.
- Synthesis.GenerateAudio does not model the "could not be split into processable chunks" branch (mainfunctions.py:184-186). `Chunker.NonBlankTextHasChunks` proves it cannot be taken after the blank-text check.
- Synthesis.NothingProducedUnreachable: the model keeps the "no chunks were produced" branch in `Assemble`. The lemma proves that non-blank text never reaches it, instead of stating the message.
- Filename.ValidFilename: it uses the corrected trim, so it differs from the code only when the substituted, cut name ends with a newline. `Filename.ValidFilenameAsWritten` models the code and states exactly that difference.
- Synthesis.GenerateAudio: its final file name uses `Filename.ValidFilename`, so it differs from the code only for a base id whose cut form ends with a newline (for example `a_\n`). A `manual_` id is made of word characters and never does. An http(s) URL never does either, because urlparse deletes its line feeds first, and a URL is typed into a one-line text input.
- Filename.ValidFilenameIdempotent: it requires the `article_<time>` fallback to fit in 100 characters, which holds for any realistic clock value.
- The model does not surface the text of ElevenLabs' exception, because the code only logs it. OpenAI's exception text is abstracted to a string carried by its reply.
- There is no per-chunk fallback. The switch to OpenAI is for the whole request: any ElevenLabs failure discards all ElevenLabs audio and restarts with OpenAI from chunk 1, and the first OpenAI failure aborts the whole call.

## Findings

| source | as written | input that shows it | evidently intended | confidence | as-written member | corrected member |
|---|---|---|---|---|---|---|
| mainfunctions.py:57 | In `re.sub(r'^[_./]+\|[_./]+$', '', ...)`, `$` also matches just before a final `\n`. A run of `_./` in front of a trailing newline survives the first pass but is removed by the next one. | `get_valid_filename("a_\n_")` is `"a_\n"`, and `get_valid_filename("a_\n")` is `"a\n"` | The trim removes `_./` runs at both ends, so sanitising an already sanitised name changes nothing | not executed | Filename.AsWrittenNotIdempotent | Filename.ValidFilenameIdempotent |
