/** The session's article list (app.py): looking an article up by id, the audio files
    the articles still refer to, ids for pasted articles, the two ways of asking for a
    new article, the processing step that adds it, and deleting an article.
    Fetching and summarising are oracles passed in by the caller. */
module Articles {
  import opened Text
  import opened Storage

  /** MAX_ARTICLES. */
  const MaxArticles := 5

  const ManualPrefix := "manual_"
  /** Pasted-article titles are cut to this many characters in their id. */
  const TitleLimit := 50

  const TooMany := "Maximum 5 articles allowed."
  const Duplicate := "This URL has already been added."
  const ManualDataMissing := "Error retrieving valid manual data for processing."
  const NoTarget := "Error: No URL target found for processing."
  const NotRetrieved := "Could not retrieve content."
  const IndexMismatch := "Could not find the article to delete (index mismatch). Please refresh."

  /** One entry of st.session_state.articles. */
  datatype Article = Article(
    id: string,
    title: string,
    fullText: string,
    summary: Option<string>,
    error: Option<string>,
    isManual: bool,
    fullAudioPath: Option<string>,
    summaryAudioPath: Option<string>)

  /** st.session_state.manual_data: a pasted article waiting to be processed. */
  datatype ManualData = ManualData(title: string, text: string, id: string)

  /** What fetch_article_content returns: the title and text, or the error. */
  datatype Content = Content(title: string, text: string)
  datatype Fetched = Fetched(content: Option<Content>, error: Option<string>)

  /** What summarize_text returns: the summary, or the error. */
  datatype Summarized = Summarized(summary: Option<string>, error: Option<string>)

  /** Python truthiness of an optional string: present and non-empty. */
  predicate Truthy(o: Option<string>) {
    o.Some? && o.value != []
  }

  // ---------------------------------------------------------------- ids

  /** The ids of the articles. */
  function Ids(articles: seq<Article>): set<string> {
    set k | 0 <= k < |articles| :: articles[k].id
  }

  /** No two articles share an id. */
  predicate UniqueIds(articles: seq<Article>) {
    forall j, k :: 0 <= j < k < |articles| ==> articles[j].id != articles[k].id
  }

  /** get_article_index: the first position holding the id, or -1. */
  function IndexOf(articles: seq<Article>, id: string): (i: int)
    ensures -1 <= i < |articles|
    ensures i == -1 <==> id !in Ids(articles)
    ensures i != -1 ==> articles[i].id == id && forall k :: 0 <= k < i ==> articles[k].id != id
  {
    if articles == [] then -1
    else if articles[0].id == id then 0
    else
      var r := IndexOf(articles[1..], id);
      assert forall k :: 1 <= k < |articles| ==> articles[k] == articles[1..][k - 1];
      if r == -1 then -1 else r + 1
  }

  // ---------------------------------------------------------------- audio paths

  /** The value of an optional string, if it is truthy. */
  function Value(o: Option<string>): set<string> {
    if Truthy(o) then {o.value} else {}
  }

  /** The values among `opts` that are set and non-empty. */
  function Present(opts: seq<Option<string>>): set<string> {
    if opts == [] then {}
    else Present(opts[..|opts| - 1]) + Value(opts[|opts| - 1])
  }

  /** The audio paths an article refers to. */
  function AudioPaths(a: Article): set<string> {
    Present([a.fullAudioPath, a.summaryAudioPath])
  }

  lemma AudioPathsExactly(a: Article, p: string)
    ensures p in AudioPaths(a) <==>
      (Truthy(a.fullAudioPath) && p == a.fullAudioPath.value)
      || (Truthy(a.summaryAudioPath) && p == a.summaryAudioPath.value)
  {
    PresentPair(a.fullAudioPath, a.summaryAudioPath);
  }

  lemma PresentPair(x: Option<string>, y: Option<string>)
    ensures Present([x, y]) == Value(x) + Value(y)
  {
    var opts := [x, y];
    assert opts[..1] == [x];
    assert Present([x]) == Value(x) by { assert [x][..0] == []; }
  }

  /** get_active_audio_paths: the audio paths of the articles that exist on disk. */
  function ActiveAudioPaths(articles: seq<Article>, files: map<string, seq<byte>>): set<string> {
    if articles == [] then {}
    else
      ActiveAudioPaths(articles[..|articles| - 1], files)
        + (AudioPaths(articles[|articles| - 1]) * files.Keys)
  }

  /** A path is active exactly when some article refers to it and it exists. */
  lemma {:induction false} ActiveAudioPathsExactly(articles: seq<Article>, files: map<string, seq<byte>>, p: string)
    ensures p in ActiveAudioPaths(articles, files) <==>
      p in files && exists k :: 0 <= k < |articles| && p in AudioPaths(articles[k])
  {
    if articles != [] {
      var init := articles[..|articles| - 1];
      ActiveAudioPathsExactly(init, files, p);
      if p in files && exists k :: 0 <= k < |articles| && p in AudioPaths(articles[k]) {
        var k :| 0 <= k < |articles| && p in AudioPaths(articles[k]);
        if k < |init| {
          assert init[k] == articles[k];
        }
      }
      if p in ActiveAudioPaths(init, files) {
        var k :| 0 <= k < |init| && p in AudioPaths(init[k]);
        assert articles[k] == init[k];
      }
    }
  }

  /** The clean-up after adding an article never deletes a file an article refers to:
      every existing audio file of every article is still there, unchanged. */
  lemma CleanupKeepsArticleAudio(articles: seq<Article>, files: map<string, seq<byte>>,
                                 refused: set<string>, k: nat, p: string)
    requires k < |articles| && p in AudioPaths(articles[k]) && p in files
    ensures p in AfterCleanup(files, ActiveAudioPaths(articles, files), refused)
    ensures AfterCleanup(files, ActiveAudioPaths(articles, files), refused)[p] == files[p]
  {
    ActiveAudioPathsExactly(articles, files, p);
    AfterCleanupExactly(files, ActiveAudioPaths(articles, files), refused, p);
  }

  /** An article without audio adds nothing to the active paths. */
  lemma {:induction false} ActiveWithoutAudio(articles: seq<Article>, a: Article, files: map<string, seq<byte>>)
    requires a.fullAudioPath.None? && a.summaryAudioPath.None?
    ensures ActiveAudioPaths(articles + [a], files) == ActiveAudioPaths(articles, files)
  {
    assert (articles + [a])[..|articles|] == articles;
    PresentPair(a.fullAudioPath, a.summaryAudioPath);
  }

  // ---------------------------------------------------------------- manual ids

  /** A character the pattern \w matches: an ASCII letter, digit or underscore, or any
      non-ASCII character. */
  predicate WordChar(c: char) {
    ('a' <= c <= 'z') || ('A' <= c <= 'Z') || ('0' <= c <= '9') || c == '_' || c as int >= 128
  }

  predicate AllWord(s: string) {
    forall k :: 0 <= k < |s| ==> WordChar(s[k])
  }

  /** re.sub(r'\W+', '_', s): every run of non-word characters becomes one '_'. */
  function Squash(s: string): (r: string)
    ensures |r| <= |s|
    ensures AllWord(r)
  {
    if s == [] then []
    else if WordChar(s[|s| - 1]) then Squash(s[..|s| - 1]) + [s[|s| - 1]]
    else if |s| >= 2 && !WordChar(s[|s| - 2]) then Squash(s[..|s| - 1])
    else Squash(s[..|s| - 1]) + "_"
  }

  /** A string of word characters only is left as it is. */
  lemma {:induction false} SquashKeepsWords(s: string)
    requires AllWord(s)
    ensures Squash(s) == s
  {
    if s != [] {
      SquashKeepsWords(s[..|s| - 1]);
    }
  }

  /** Squashing works piece by piece wherever the cut does not split a run of
      non-word characters. */
  lemma {:induction false} SquashAppend(a: string, b: string)
    requires a == [] || b == [] || WordChar(a[|a| - 1]) || WordChar(b[0])
    ensures Squash(a + b) == Squash(a) + Squash(b)
    decreases |b|
  {
    if b == [] {
      assert a + b == a;
    } else {
      var init, c := b[..|b| - 1], b[|b| - 1];
      InitLast(b);
      AppendAssoc(a, init, [c]);
      if init != [] {
        assert init[0] == b[0];
        assert (a + init)[|a + init| - 1] == init[|init| - 1];
      } else {
        assert a + init == a;
      }
      SquashAppend(a, init);
      SquashSnoc(a + init, c);
      SquashSnoc(init, c);
      var sa, si := Squash(a), Squash(init);
      if WordChar(c) {
        AppendAssoc(sa, si, [c]);
      } else if init != [] && !WordChar(init[|init| - 1]) {
      } else if init != [] {
        AppendAssoc(sa, si, "_");
      } else {
        assert si == [];
      }
    }
  }

  /** Squash reads the string left to right: the next character extends a run of word
      characters, joins a run of others, or starts one. */
  lemma SquashSnoc(s: string, c: char)
    ensures Squash(s + [c]) ==
      if WordChar(c) then Squash(s) + [c]
      else if s != [] && !WordChar(s[|s| - 1]) then Squash(s)
      else Squash(s) + "_"
  {
    var t := s + [c];
    assert t[..|t| - 1] == s;
    assert t[|t| - 1] == c;
    if |t| >= 2 { assert t[|t| - 2] == s[|s| - 1]; }
    if WordChar(c) {
      assert Squash(t) == Squash(s) + [c];
    } else if s != [] && !WordChar(s[|s| - 1]) {
      assert Squash(t) == Squash(s);
    } else {
      assert Squash(t) == Squash(s) + "_";
    }
  }

  /** A run of non-word characters squashes to a single '_'. */
  lemma {:induction false} SquashRun(run: string)
    requires run != []
    requires forall k :: 0 <= k < |run| ==> !WordChar(run[k])
    ensures Squash(run) == "_"
  {
    if |run| > 1 {
      SquashRun(run[..|run| - 1]);
    }
  }

  /** Between word characters (or the ends of the string), a run of non-word
      characters becomes exactly one '_', and the two sides are squashed on their own. */
  lemma SquashBetween(a: string, run: string, b: string)
    requires a == [] || WordChar(a[|a| - 1])
    requires run != [] && forall k :: 0 <= k < |run| ==> !WordChar(run[k])
    requires b == [] || WordChar(b[0])
    ensures Squash(a + run + b) == Squash(a) + "_" + Squash(b)
  {
    SquashRun(run);
    SquashAppend(a, run);
    SquashAppend(a + run, b);
  }

  /** The first 50 characters of the squashed, lower-cased, stripped title. */
  function TitleSlug(title: string): (r: string)
    requires !Blank(title)
    ensures 0 < |r| <= TitleLimit
    ensures forall k :: 0 <= k < |r| ==> WordChar(r[k])
  {
    var squashed := Squash(Lower(Strip(title)));
    SquashNonEmpty(Lower(Strip(title)));
    var r := Cut(squashed, TitleLimit);
    assert forall k :: 0 <= k < |r| ==> r[k] == squashed[k];
    assert |r| == if |squashed| <= TitleLimit then |squashed| else TitleLimit;
    r
  }

  lemma SquashNonEmpty(s: string)
    requires s != []
    ensures Squash(s) != []
  {
  }

  /** The id a title asks for before collisions are resolved: manual_ and the title's
      slug, or manual_ and the timestamp when the title is blank. */
  function BaseId(title: string, now: nat): (b: string)
    ensures HasPrefix(b, ManualPrefix)
    ensures forall k :: |ManualPrefix| <= k < |b| ==> WordChar(b[k])
    ensures !Blank(title) ==> |ManualPrefix| < |b| <= |ManualPrefix| + TitleLimit
  {
    var tail := if !Blank(title) then TitleSlug(title) else NatToString(now);
    WordTail(tail);
    ManualPrefix + tail
  }

  lemma WordTail(tail: string)
    requires forall k :: 0 <= k < |tail| ==> WordChar(tail[k])
    ensures HasPrefix(ManualPrefix + tail, ManualPrefix)
    ensures forall k :: |ManualPrefix| <= k < |ManualPrefix + tail| ==> WordChar((ManualPrefix + tail)[k])
  {
    var b := ManualPrefix + tail;
    assert b[..|ManualPrefix|] == ManualPrefix;
    forall k | |ManualPrefix| <= k < |b| ensures WordChar(b[k]) {
      assert b[k] == tail[k - |ManualPrefix|];
    }
  }

  /** The k-th id tried: the base itself, then base_1, base_2, ... */
  function Candidate(base: string, k: nat): string {
    if k == 0 then base else base + "_" + NatToString(k)
  }

  /** Different attempts try different ids. */
  lemma CandidateInjective(base: string, j: nat, k: nat)
    requires Candidate(base, j) == Candidate(base, k)
    ensures j == k
  {
    if j != 0 && k != 0 {
      var cj, ck := Candidate(base, j), Candidate(base, k);
      assert cj[|base| + 1..] == NatToString(j);
      assert ck[|base| + 1..] == NatToString(k);
      NatToStringInjective(j, k);
    }
  }

  /** At most |existing| attempts can collide, since they are all different. */
  lemma {:induction false} CandidatesBounded(base: string, existing: set<string>, n: nat)
    requires forall j :: 0 <= j < n ==> Candidate(base, j) in existing
    ensures n <= |existing|
  {
    if n > 0 {
      var last := Candidate(base, n - 1);
      var rest := existing - {last};
      forall j | 0 <= j < n - 1 ensures Candidate(base, j) in rest {
        if Candidate(base, j) == last {
          CandidateInjective(base, j, n - 1);
        }
      }
      CandidatesBounded(base, rest, n - 1);
    }
  }

  lemma CandidatePrefix(base: string, k: nat)
    requires HasPrefix(base, ManualPrefix)
    ensures HasPrefix(Candidate(base, k), ManualPrefix)
  {
    if k > 0 {
      assert Candidate(base, k)[..|ManualPrefix|] == base[..|ManualPrefix|];
    }
  }

  /** The id the collision loop settles on when it starts at the k-th candidate: the
      first candidate from there on that is not taken. */
  function FreeCandidate(base: string, taken: set<string>, k: nat): string
    requires forall j :: 0 <= j < k ==> Candidate(base, j) in taken
    decreases |taken| - k
  {
    CandidatesBounded(base, taken, k);
    if Candidate(base, k) !in taken then Candidate(base, k)
    else
      CandidatesBounded(base, taken, k + 1);
      FreeCandidate(base, taken, k + 1)
  }

  /** The loop ends on a free id, and every candidate tried before it was taken. */
  lemma {:induction false} FreeCandidateIsFirst(base: string, taken: set<string>, k: nat)
    requires forall j :: 0 <= j < k ==> Candidate(base, j) in taken
    ensures FreeCandidate(base, taken, k) !in taken
    ensures exists m: nat :: (k <= m && FreeCandidate(base, taken, k) == Candidate(base, m) &&
      forall j :: 0 <= j < m ==> Candidate(base, j) in taken)
    decreases |taken| - k
  {
    CandidatesBounded(base, taken, k);
    if Candidate(base, k) in taken {
      CandidatesBounded(base, taken, k + 1);
      FreeCandidateIsFirst(base, taken, k + 1);
    }
  }

  /** The collision loop of create_manual_id: `base`, then `base_1`, `base_2`, ... until
      an id nobody has. */
  method FirstFree(base: string, existing: set<string>) returns (id: string)
    requires HasPrefix(base, ManualPrefix)
    ensures id == FreeCandidate(base, existing, 0)
    ensures id !in existing && HasPrefix(id, ManualPrefix)
  {
    id := base;
    var count := 1;
    while id in existing
      invariant id == Candidate(base, count - 1) && 1 <= count <= |existing| + 1
      invariant forall j :: 0 <= j < count - 1 ==> Candidate(base, j) in existing
      invariant FreeCandidate(base, existing, count - 1) == FreeCandidate(base, existing, 0)
      decreases |existing| + 1 - count
    {
      CandidatesBounded(base, existing, count);
      id := base + "_" + NatToString(count);
      count := count + 1;
    }
    CandidatePrefix(base, count - 1);
  }

  // ---------------------------------------------------------------- processing

  /** What the processing block decides: the article to add (if any), and the success
      or error message it shows afterwards. */
  datatype Outcome = Outcome(added: Option<Article>, success: Option<string>, error: Option<string>)

  /** `target_id and target_id.startswith("manual_")`. */
  predicate IsManualTarget(target: Option<string>) {
    Truthy(target) && HasPrefix(target.value, ManualPrefix)
  }

  /** The outcome of a summarised article: an error when summarising failed, the given
      success message otherwise; the article is added either way. */
  function Summarised(a: Article, s: Summarized, success: string): Outcome {
    if Truthy(s.error) then Outcome(Some(a), None, Some("Summarization error: " + s.error.value))
    else Outcome(Some(a), Some(success), None)
  }

  /** The processing block (app.py:225-287) for the given target and pending pasted
      article, as a value; the method `DecideTarget` is its imperative form. */
  function Decide(target: Option<string>, manual: Option<ManualData>,
                  fetch: string -> Fetched, summarize: string -> Summarized): Outcome
  {
    if IsManualTarget(target) then
      if manual.Some? && manual.value.text != [] then
        var m := manual.value;
        var s := summarize(m.text);
        Summarised(Article(m.id, m.title, m.text, s.summary, s.error, true, None, None), s,
                   "Manual article '" + m.title + "' processed.")
      else Outcome(None, None, Some(ManualDataMissing))
    else if Truthy(target) then
      var f := fetch(target.value);
      if Truthy(f.error) || f.content.None? then
        Outcome(None, None, Some("URL Processing Error: " + (if Truthy(f.error) then f.error.value else NotRetrieved)))
      else
        var c := f.content.value;
        var s := summarize(c.text);
        Summarised(Article(target.value, c.title, c.text, s.summary, s.error, false, None, None), s,
                   "Article '" + c.title + "' processed.")
    else Outcome(None, None, Some(NoTarget))
  }

  /** Every run reports exactly one of a success and an error, and an article that is
      not added always comes with an error. */
  lemma DecideReportsOnce(target: Option<string>, manual: Option<ManualData>,
                          fetch: string -> Fetched, summarize: string -> Summarized)
    ensures var o := Decide(target, manual, fetch, summarize);
      && (o.success.Some? <==> o.error.None?)
      && (o.added.None? ==> o.error.Some?)
  {
  }

  /** The article added is the pending pasted article (for a manual_ target) or the
      URL itself; it is marked manual accordingly, has no audio yet, and keeps what the
      summariser said. */
  lemma DecideAddsTarget(target: Option<string>, manual: Option<ManualData>,
                         fetch: string -> Fetched, summarize: string -> Summarized)
    ensures var o := Decide(target, manual, fetch, summarize);
      o.added.Some? ==>
        && target.Some?
        && o.added.value.isManual == IsManualTarget(target)
        && o.added.value.id == (if IsManualTarget(target) then manual.value.id else target.value)
        && o.added.value.fullAudioPath.None? && o.added.value.summaryAudioPath.None?
        && Summarized(o.added.value.summary, o.added.value.error) == summarize(o.added.value.fullText)
  {
  }

  /** A fetch that fails adds nothing, whatever the summariser would have said. */
  lemma FailedFetchAddsNothing(url: string, manual: Option<ManualData>,
                               fetch: string -> Fetched, summarize: string -> Summarized)
    requires url != [] && !HasPrefix(url, ManualPrefix)
    requires Truthy(fetch(url).error) || fetch(url).content.None?
    ensures Decide(Some(url), manual, fetch, summarize).added.None?
    ensures Decide(Some(url), manual, fetch, summarize).error.Some?
  {
  }

  // ---------------------------------------------------------------- the session

  /** At most five articles with distinct ids; a pending id is not taken yet, and a
      pending request leaves room for one more article. */
  predicate Consistent(articles: seq<Article>, target: Option<string>, manual: Option<ManualData>) {
    && |articles| <= MaxArticles
    && UniqueIds(articles)
    && (target.Some? ==> target.value !in Ids(articles))
    && (manual.Some? ==> manual.value.id !in Ids(articles))
    && ((target.Some? || manual.Some?) ==> |articles| < MaxArticles)
  }

  /** A new request whose id is not taken, made while there is room, keeps the list
      consistent. */
  lemma PendingKeepsConsistent(articles: seq<Article>, id: string, manual: ManualData)
    requires |articles| < MaxArticles && UniqueIds(articles)
    requires id !in Ids(articles) && manual.id == id
    ensures Consistent(articles, Some(id), Some(manual))
  {
  }

  /** Processing a pending request keeps the list consistent: the article it adds (if
      any) has an id not yet taken, and there is room for it. */
  lemma ProcessingKeepsConsistent(articles: seq<Article>, target: Option<string>, manual: Option<ManualData>,
                                  fetch: string -> Fetched, summarize: string -> Summarized)
    requires Consistent(articles, target, manual)
    ensures var o := Decide(target, manual, fetch, summarize);
      o.added.Some? ==> Consistent(articles + [o.added.value], None, None)
    ensures Consistent(articles, None, None)
  {
    var o := Decide(target, manual, fetch, summarize);
    if o.added.Some? {
      DecideAddsTarget(target, manual, fetch, summarize);
      AddKeepsUnique(articles, o.added.value);
    }
  }

  /** st.session_state, as far as the article list goes. */
  class Session {
    var articles: seq<Article>
    var selectedId: Option<string>
    var processing: bool
    var processingTarget: Option<string>
    var manualData: Option<ManualData>
    var lastSuccess: Option<string>
    var lastError: Option<string>

    /** The article list is consistent with the pending request. */
    ghost predicate Valid()
      reads this
    {
      Consistent(articles, processingTarget, manualData)
    }

    /** The defaults st.session_state.setdefault installs. */
    constructor ()
      ensures articles == [] && selectedId == None && !processing
      ensures processingTarget == None && manualData == None
      ensures lastSuccess == None && lastError == None
      ensures Valid()
    {
      articles := [];
      selectedId := None;
      processing := false;
      processingTarget := None;
      manualData := None;
      lastSuccess := None;
      lastError := None;
    }

    /** get_article_index(id). */
    method GetArticleIndex(id: string) returns (i: int)
      ensures i == IndexOf(articles, id)
    {
      for k := 0 to |articles|
        invariant forall j :: 0 <= j < k ==> articles[j].id != id
      {
        if articles[k].id == id {
          return k;
        }
      }
      return -1;
    }

    /** get_active_audio_paths(). */
    method GetActiveAudioPaths(disk: Disk) returns (paths: set<string>)
      ensures paths == ActiveAudioPaths(articles, disk.files)
    {
      paths := {};
      for i := 0 to |articles|
        invariant paths == ActiveAudioPaths(articles[..i], disk.files)
      {
        var keys := [articles[i].fullAudioPath, articles[i].summaryAudioPath];
        ghost var before := paths;
        for j := 0 to |keys|
          invariant paths == before + (Present(keys[..j]) * disk.files.Keys)
        {
          var path := keys[j];
          assert keys[..j + 1][..j] == keys[..j];
          if path.Some? && path.value != [] && path.value in disk.files {
            paths := paths + {path.value};
          }
        }
        assert keys[..|keys|] == keys;
        assert articles[..i + 1][..i] == articles[..i];
      }
      assert articles[..|articles|] == articles;
    }

    /** create_manual_id(title), `now` being int(time.time()). */
    method CreateManualId(title: string, now: nat) returns (id: string)
      ensures id !in Ids(articles)
      ensures HasPrefix(id, ManualPrefix)
      ensures id == FreeCandidate(BaseId(title, now), Ids(articles), 0)
    {
      var base := if !Blank(title) then ManualPrefix + Cut(Squash(Lower(Strip(title))), TitleLimit)
                  else ManualPrefix + NatToString(now);
      assert base == BaseId(title, now);
      var existing := set k | 0 <= k < |articles| :: articles[k].id;
      id := FirstFree(base, existing);
    }

    /** The pasted article under a fresh manual id. */
    method NewManualData(title: string, text: string, now: nat) returns (pending: ManualData)
      ensures pending.title == title && pending.text == text
      ensures pending.id !in Ids(articles) && HasPrefix(pending.id, ManualPrefix)
      ensures pending.id == FreeCandidate(BaseId(title, now), Ids(articles), 0)
    {
      var id := CreateManualId(title, now);
      pending := ManualData(title, text, id);
    }

    /** The "Add Article from URL" button with `url` typed in (app.py:180-187): refused
        at five articles or when the URL is already an article's id; otherwise the URL
        becomes the processing target. */
    method RequestUrl(url: string) returns (warning: Option<string>)
      requires Valid()
      modifies this
      ensures articles == old(articles) && manualData == old(manualData)
      ensures selectedId == old(selectedId)
      ensures lastSuccess == old(lastSuccess) && lastError == old(lastError)
      ensures |articles| >= MaxArticles ==>
        warning == Some(TooMany) && processing == old(processing) && processingTarget == old(processingTarget)
      ensures |articles| < MaxArticles && url in Ids(articles) ==>
        warning == Some(Duplicate) && processing == old(processing) && processingTarget == old(processingTarget)
      ensures |articles| < MaxArticles && url !in Ids(articles) ==>
        warning == None && processing && processingTarget == Some(url)
      ensures Valid()
    {
      if |articles| >= MaxArticles {
        return Some(TooMany);
      }
      var taken := exists k :: 0 <= k < |articles| && articles[k].id == url;
      if taken {
        return Some(Duplicate);
      }
      processing := true;
      processingTarget := Some(url);
      return None;
    }

    /** The "Add Manual Article" button (app.py:210-221): refused at five articles;
        otherwise the pasted article gets a fresh id and waits as manual_data. */
    method RequestManual(title: string, text: string, now: nat) returns (warning: Option<string>)
      requires Valid()
      modifies this
      ensures articles == old(articles) && selectedId == old(selectedId)
      ensures lastSuccess == old(lastSuccess) && lastError == old(lastError)
      ensures |articles| >= MaxArticles ==>
        && warning == Some(TooMany) && processing == old(processing)
        && processingTarget == old(processingTarget) && manualData == old(manualData)
      ensures |articles| < MaxArticles ==>
        && warning == None && processing && manualData.Some?
        && manualData.value.title == title && manualData.value.text == text
        && processingTarget == Some(manualData.value.id)
        && manualData.value.id !in Ids(articles) && HasPrefix(manualData.value.id, ManualPrefix)
      ensures |articles| < MaxArticles ==>
        manualData.value.id == FreeCandidate(BaseId(title, now), Ids(articles), 0)
      ensures Valid()
    {
      if |articles| >= MaxArticles {
        return Some(TooMany);
      }
      var pending := NewManualData(title, text, now);
      Enqueue(pending);
      return None;
    }

    /** st.session_state.manual_data, processing and processing_target set for a
        pasted article whose id is not taken yet. */
    method Enqueue(pending: ManualData)
      requires Valid() && |articles| < MaxArticles && pending.id !in Ids(articles)
      modifies this
      ensures articles == old(articles) && selectedId == old(selectedId)
      ensures lastSuccess == old(lastSuccess) && lastError == old(lastError)
      ensures manualData == Some(pending) && processing && processingTarget == Some(pending.id)
      ensures Valid()
    {
      PendingKeepsConsistent(articles, pending.id, pending);
      manualData := Some(pending);
      processing := true;
      processingTarget := Some(pending.id);
    }

    /** The processing block (app.py:225-287): when a request is pending, the target is
        processed, the article (if any) is appended and selected, unused audio files are
        cleaned up, and the flags are reset with the messages to show. */
    method Process(disk: Disk, fetch: string -> Fetched, summarize: string -> Summarized,
                   refused: set<string>)
      requires Valid() && disk.Valid()
      modifies this, disk
      ensures !old(processing) ==>
        && articles == old(articles) && selectedId == old(selectedId)
        && processingTarget == old(processingTarget) && manualData == old(manualData)
        && lastSuccess == old(lastSuccess) && lastError == old(lastError)
        && disk.files == old(disk.files)
      ensures old(processing) ==>
        var o := Decide(old(processingTarget), old(manualData), fetch, summarize);
        && (o.added.None? ==>
              articles == old(articles) && selectedId == old(selectedId) && disk.files == old(disk.files))
        && (o.added.Some? ==>
              && articles == old(articles) + [o.added.value]
              && selectedId == Some(o.added.value.id)
              && disk.files == AfterCleanup(old(disk.files), ActiveAudioPaths(old(articles), old(disk.files)), refused))
        && !processing && processingTarget == None && manualData == None
        && lastSuccess == o.success && lastError == o.error
      ensures disk.dirExists == old(disk.dirExists)
      ensures Valid() && disk.Valid()
    {
      assert this as object != disk as object;
      if !processing {
        return;
      }
      var o := DecideTarget(processingTarget, manualData, fetch, summarize);
      var added, success, error := o.added, o.success, o.error;
      ProcessingKeepsConsistent(articles, processingTarget, manualData, fetch, summarize);
      if added.Some? {
        DecideAddsTarget(old(processingTarget), old(manualData), fetch, summarize);
        Add(disk, added.value, refused);
      }
      processing := false;
      processingTarget := None;
      manualData := None;
      lastSuccess := success;
      lastError := error;
    }

    /** Appending a new article without audio, selecting it, and cleaning up the audio
        files no article refers to. */
    method Add(disk: Disk, a: Article, refused: set<string>)
      requires a.fullAudioPath.None? && a.summaryAudioPath.None?
      requires disk.Valid()
      modifies this, disk
      ensures articles == old(articles) + [a] && selectedId == Some(a.id)
      ensures disk.files == AfterCleanup(old(disk.files), ActiveAudioPaths(old(articles), old(disk.files)), refused)
      ensures processing == old(processing) && processingTarget == old(processingTarget)
      ensures manualData == old(manualData)
      ensures lastSuccess == old(lastSuccess) && lastError == old(lastError)
      ensures disk.dirExists == old(disk.dirExists) && disk.Valid()
    {
      assert this as object != disk as object;
      ghost var before := articles;
      articles := articles + [a];
      selectedId := Some(a.id);
      var keep := GetActiveAudioPaths(disk);
      ActiveWithoutAudio(before, a, disk.files);
      assert keep == ActiveAudioPaths(old(articles), old(disk.files));
      // The clean-up touches the disk only.
      ghost var state := (articles, selectedId, processing, processingTarget, manualData, lastSuccess, lastError);
      assert state == (old(articles) + [a], Some(a.id), old(processing), old(processingTarget), old(manualData),
                       old(lastSuccess), old(lastError));
      var removed, kept := disk.Cleanup(keep, refused);
      assert state == (articles, selectedId, processing, processingTarget, manualData, lastSuccess, lastError);
    }

    /** The delete button of the article with this id (app.py:470-499): the article is
        popped from its position, its existing audio files are removed (those whose
        removal raises stay), and the selection is cleared; an unknown id changes
        nothing. */
    method Delete(disk: Disk, id: string, refused: set<string>) returns (deleted: bool, message: string)
      requires Valid() && disk.Valid()
      modifies this, disk
      ensures var i := IndexOf(old(articles), id);
        && (deleted <==> i != -1)
        && (deleted ==>
              && articles == old(articles)[..i] + old(articles)[i + 1..]
              && selectedId == None
              && disk.files == old(disk.files) - (AudioPaths(old(articles)[i]) - refused)
              && message == "Article '" + old(articles)[i].title + "' deleted.")
        && (!deleted ==>
              && articles == old(articles) && selectedId == old(selectedId)
              && disk.files == old(disk.files) && message == IndexMismatch)
      ensures processing == old(processing) && processingTarget == old(processingTarget)
      ensures manualData == old(manualData)
      ensures lastSuccess == old(lastSuccess) && lastError == old(lastError)
      ensures disk.dirExists == old(disk.dirExists)
      ensures Valid() && disk.Valid()
    {
      var i := GetArticleIndex(id);
      if i == -1 {
        return false, IndexMismatch;
      }
      message := Pop(disk, i, refused);
      deleted := true;
    }

    /** The found branch of the delete button: the article at `i` is popped, its
        existing audio files are removed, and the selection is cleared. */
    method Pop(disk: Disk, i: nat, refused: set<string>) returns (message: string)
      requires Valid() && disk.Valid() && i < |articles|
      modifies this, disk
      ensures articles == old(articles)[..i] + old(articles)[i + 1..]
      ensures selectedId == None
      ensures disk.files == old(disk.files) - (AudioPaths(old(articles)[i]) - refused)
      ensures message == "Article '" + old(articles)[i].title + "' deleted."
      ensures processing == old(processing) && processingTarget == old(processingTarget)
      ensures manualData == old(manualData)
      ensures lastSuccess == old(lastSuccess) && lastError == old(lastError)
      ensures disk.dirExists == old(disk.dirExists)
      ensures Valid() && disk.Valid()
    {
      assert this as object != disk as object;
      var a := articles[i];
      RemoveAtKeepsUnique(articles, i);
      articles := articles[..i] + articles[i + 1..];
      // Removing the files touches the disk only.
      ghost var state := (articles, processing, processingTarget, manualData, lastSuccess, lastError);
      RemoveAudio(disk, [a.fullAudioPath, a.summaryAudioPath], refused);
      assert state == (articles, processing, processingTarget, manualData, lastSuccess, lastError);
      selectedId := None;
      message := "Article '" + a.title + "' deleted.";
    }
  }

  /** The imperative form of `Decide`: the same branches of the processing block
      (app.py:225-267), written with the flags and messages the source assigns, and
      proved to compute `Decide`. The lemmas about the outcome are stated on `Decide`. */
  method DecideTarget(target: Option<string>, manualData: Option<ManualData>,
                      fetch: string -> Fetched, summarize: string -> Summarized)
    returns (o: Outcome)
    ensures o == Decide(target, manualData, fetch, summarize)
  {
    var added: Option<Article> := None;
    var success: Option<string> := None;
    var error: Option<string> := None;
    if target.Some? && target.value != [] && HasPrefix(target.value, ManualPrefix) {
      var manual := manualData;
      if manual.Some? && manual.value.text != [] {
        var s := summarize(manual.value.text);
        added := Some(Article(manual.value.id, manual.value.title, manual.value.text, s.summary, s.error,
                              true, None, None));
        if s.error.Some? && s.error.value != [] {
          error := Some("Summarization error: " + s.error.value);
        } else {
          success := Some("Manual article '" + manual.value.title + "' processed.");
        }
      } else {
        error := Some(ManualDataMissing);
      }
    } else if target.Some? && target.value != [] {
      var url := target.value;
      var f := fetch(url);
      if (f.error.Some? && f.error.value != []) || f.content.None? {
        var reason := if f.error.Some? && f.error.value != [] then f.error.value else NotRetrieved;
        error := Some("URL Processing Error: " + reason);
      } else {
        var c := f.content.value;
        var s := summarize(c.text);
        added := Some(Article(url, c.title, c.text, s.summary, s.error, false, None, None));
        if s.error.Some? && s.error.value != [] {
          error := Some("Summarization error: " + s.error.value);
        } else {
          success := Some("Article '" + c.title + "' processed.");
        }
      }
    } else {
      error := Some(NoTarget);
    }
    o := Outcome(added, success, error);
  }

  /** The loop over paths_to_delete: each set, non-empty path that exists is removed,
      unless removing it raises. */
  method RemoveAudio(disk: Disk, paths: seq<Option<string>>, refused: set<string>)
    requires disk.Valid()
    modifies disk
    ensures disk.files == old(disk.files) - (Present(paths) - refused)
    ensures disk.dirExists == old(disk.dirExists) && disk.Valid()
  {
    for j := 0 to |paths|
      invariant disk.files == old(disk.files) - (Present(paths[..j]) - refused)
      invariant disk.dirExists == old(disk.dirExists) && disk.Valid()
    {
      var path := paths[j];
      assert paths[..j + 1][..j] == paths[..j];
      if path.Some? && path.value != [] && path.value in disk.files && path.value !in refused {
        disk.RemoveIfExists(path.value);
      }
      RemoveOneMore(old(disk.files), Present(paths[..j]) - refused, path, refused);
    }
    assert paths[..|paths|] == paths;
  }

  lemma RemoveOneMore(files: map<string, seq<byte>>, gone: set<string>, path: Option<string>, refused: set<string>)
    ensures Truthy(path) && path.value !in refused ==> (files - gone) - {path.value} == files - (gone + {path.value})
  {
  }

  /** Appending an article whose id is new keeps the ids distinct. */
  lemma AddKeepsUnique(articles: seq<Article>, a: Article)
    requires UniqueIds(articles) && a.id !in Ids(articles)
    ensures UniqueIds(articles + [a])
    ensures Ids(articles + [a]) == Ids(articles) + {a.id}
  {
    var after := articles + [a];
    forall j, k | 0 <= j < k < |after| ensures after[j].id != after[k].id {
      if k == |articles| {
        assert after[j] == articles[j];
      }
    }
    forall x | x in Ids(articles) ensures x in Ids(after) {
      var k :| 0 <= k < |articles| && articles[k].id == x;
      assert after[k] == articles[k];
    }
    assert after[|articles|].id == a.id;
    forall x | x in Ids(after) ensures x in Ids(articles) + {a.id} {
      var k :| 0 <= k < |after| && after[k].id == x;
      if k < |articles| {
        assert after[k] == articles[k];
      }
    }
  }

  /** Popping one article keeps the others in order and the ids distinct, removes the
      article's id, and removes exactly that one article. */
  lemma RemoveAtKeepsUnique(articles: seq<Article>, i: nat)
    requires i < |articles| && UniqueIds(articles)
    ensures var after := articles[..i] + articles[i + 1..];
      && UniqueIds(after)
      && Ids(after) == Ids(articles) - {articles[i].id}
      && multiset(after) + multiset{articles[i]} == multiset(articles)
  {
    RemoveAtShifts(articles, i);
    RemoveAtUnique(articles, i);
    RemoveAtIds(articles, i);
    assert articles == articles[..i] + [articles[i]] + articles[i + 1..];
  }

  /** After popping position i, position m holds what position m or m + 1 held. */
  lemma RemoveAtShifts(articles: seq<Article>, i: nat)
    requires i < |articles|
    ensures var after := articles[..i] + articles[i + 1..];
      |after| == |articles| - 1 &&
      forall m :: 0 <= m < |after| ==> after[m] == articles[if m < i then m else m + 1]
  {
  }

  lemma RemoveAtUnique(articles: seq<Article>, i: nat)
    requires i < |articles| && UniqueIds(articles)
    ensures UniqueIds(articles[..i] + articles[i + 1..])
  {
    RemoveAtShifts(articles, i);
  }

  lemma RemoveAtIds(articles: seq<Article>, i: nat)
    requires i < |articles| && UniqueIds(articles)
    ensures Ids(articles[..i] + articles[i + 1..]) == Ids(articles) - {articles[i].id}
  {
    var after := articles[..i] + articles[i + 1..];
    RemoveAtShifts(articles, i);
    forall x | x in Ids(articles) - {articles[i].id} ensures x in Ids(after) {
      var k :| 0 <= k < |articles| && articles[k].id == x;
      var m := if k < i then k else k - 1;
      assert after[m] == articles[k];
    }
    forall x | x in Ids(after) ensures x in Ids(articles) - {articles[i].id} {
      var m :| 0 <= m < |after| && after[m].id == x;
      var k := if m < i then m else m + 1;
      assert after[m] == articles[k] && k != i;
    }
  }
}
