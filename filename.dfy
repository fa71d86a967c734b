/** get_valid_filename (mainfunctions.py): a safe file name from a URL, an article id
    or a title. The clock reading used by its empty-result fallback is a parameter. */
module Filename {
  import opened Text

  /** Names are cut to this many characters before their edges are trimmed. */
  const MaxLen := 100

  /** The characters the first substitution deletes: \ / * ? : " < > | */
  predicate Forbidden(c: char) {
    c == '\\' || c == '/' || c == '*' || c == '?' || c == ':' || c == '"' || c == '<'
    || c == '>' || c == '|'
  }

  /** The characters trimmed from both ends of the name: _ . / */
  predicate Edge(c: char) {
    c == '_' || c == '.' || c == '/'
  }

  /** What the function promises of every name it returns: no forbidden character,
      no space, and no `_`, `.` or `/` at either end. */
  predicate Clean(r: string) {
    && AllSafe(r)
    && (r != [] ==> !Edge(r[0]) && !Edge(r[|r| - 1]))
  }

  /** A character a sanitised name may hold anywhere: not forbidden and not a space. */
  predicate SafeChar(c: char) {
    !Forbidden(c) && c != ' '
  }

  predicate AllSafe(s: string) {
    forall k :: 0 <= k < |s| ==> SafeChar(s[k])
  }

  predicate IsHttpUrl(s: string) {
    HasPrefix(s, "http://") || HasPrefix(s, "https://")
  }

  // ---------------------------------------------------------------- urlparse

  /** urlsplit first deletes every tab, carriage return and line feed. */
  predicate Unsafe(c: char) {
    c == '\t' || c == '\r' || c == '\n'
  }

  function RemoveUnsafe(s: string): (r: string)
    ensures |r| <= |s|
    ensures forall k :: 0 <= k < |r| ==> !Unsafe(r[k])
    ensures |s| == 1 ==> r == (if Unsafe(s[0]) then [] else s)
  {
    if s == [] then []
    else if Unsafe(s[0]) then RemoveUnsafe(s[1..])
    else [s[0]] + RemoveUnsafe(s[1..])
  }

  lemma {:induction false} RemoveUnsafeNoop(s: string)
    requires forall k :: 0 <= k < |s| ==> !Unsafe(s[k])
    ensures RemoveUnsafe(s) == s
  {
    if s != [] {
      RemoveUnsafeNoop(s[1..]);
    }
  }

  /** Deleting works piece by piece: with the one-character cases above, every other
      character is kept, in order. */
  lemma {:induction false} RemoveUnsafeAppend(a: string, b: string)
    ensures RemoveUnsafe(a + b) == RemoveUnsafe(a) + RemoveUnsafe(b)
  {
    if a != [] {
      assert (a + b)[0] == a[0];
      assert (a + b)[1..] == a[1..] + b;
      RemoveUnsafeAppend(a[1..], b);
      assert RemoveUnsafe(a) == RemoveUnsafe([a[0]]) + RemoveUnsafe(a[1..]);
    } else {
      assert a + b == b;
    }
  }

  /** Index of the first character of `s` that is in `stops`, or |s| if none is. */
  function IndexOfAny(s: string, stops: string): (i: nat)
    ensures i <= |s|
    ensures forall k :: 0 <= k < i ==> s[k] !in stops
    ensures i < |s| ==> s[i] in stops
  {
    if s == [] then 0
    else if s[0] in stops then 0
    else 1 + IndexOfAny(s[1..], stops)
  }

  /** Python's s.find(c, start): first index >= start holding c, or -1. */
  function Find(s: string, c: char, start: nat): (i: int)
    ensures i == -1 || start <= i < |s|
    ensures i != -1 ==> s[i] == c && forall k :: start <= k < i ==> s[k] != c
    ensures i == -1 ==> forall k :: start <= k < |s| ==> s[k] != c
    decreases |s| - start
  {
    if start >= |s| then -1
    else if s[start] == c then start
    else Find(s, c, start + 1)
  }

  /** Python's s.rfind(c): last index holding c, or -1. */
  function RFind(s: string, c: char): (i: int)
    ensures -1 <= i < |s|
    ensures i != -1 ==> s[i] == c
    ensures forall k :: i < k < |s| ==> s[k] != c
  {
    if s == [] then -1
    else if s[|s| - 1] == c then |s| - 1
    else RFind(s[..|s| - 1], c)
  }

  /** Where _splitparams starts looking for ';': the last '/', or the start of the
      path when it has none. */
  function ParamsFrom(path: string): nat {
    var j := RFind(path, '/');
    if j < 0 then 0 else j
  }

  /** urlparse's _splitparams, keeping only the part before the parameters: the path
      is cut at the first ';' from the last '/' on, if there is one. */
  function DropParams(path: string): (r: string)
    ensures |r| <= |path| && r == path[..|r|]
    ensures ParamsFrom(path) <= |r|
    ensures forall k :: ParamsFrom(path) <= k < |r| ==> path[k] != ';'
    ensures |r| < |path| ==> path[|r|] == ';'
  {
    if ';' !in path then path
    else if '/' in path then
      var i := Find(path, ';', RFind(path, '/'));
      if i < 0 then path else path[..i]
    else
      var i := Find(path, ';', 0);
      path[..i]
  }

  /** f"{parsed.netloc}{parsed.path}" for a string that starts with http:// or https://. */
  function NetlocPath(url: string): (r: string)
    requires IsHttpUrl(url)
    ensures |r| < |url|
    ensures forall k :: 0 <= k < |r| ==> !Unsafe(r[k])
  {
    AfterScheme(RemoveUnsafe(if HasPrefix(url, "https://") then url[8..] else url[7..]))
  }

  /** Netloc and path of what follows "scheme://": the netloc runs up to the first
      '/', '?' or '#', the path from there up to the first '?' or '#'. */
  function AfterScheme(rest: string): (r: string)
    ensures |r| <= |rest| && r == rest[..|r|]
    ensures forall k :: 0 <= k < |r| ==> r[k] in rest
  {
    var n := IndexOfAny(rest, "/?#");
    var tail := rest[n..];
    var m := IndexOfAny(tail, "?#");
    var path := DropParams(tail[..m]);
    PrefixAfterPrefix(rest, n, m, path);
    PrefixChars(rest, rest[..n] + path);
    rest[..n] + path
  }

  /** A prefix of a prefix of rest[n..], put after rest[..n], is a prefix of rest. */
  lemma PrefixAfterPrefix(rest: string, n: nat, m: nat, path: string)
    requires n <= |rest| && m <= |rest| - n
    requires |path| <= m && path == rest[n..][..m][..|path|]
    ensures rest[..n] + path == rest[..n + |path|]
  {
    assert path == rest[n..n + |path|];
  }

  /** Every character of a prefix of `s` occurs in `s`. */
  lemma PrefixChars(s: string, r: string)
    requires |r| <= |s| && r == s[..|r|]
    ensures forall k :: 0 <= k < |r| ==> r[k] in s
  {
    forall k | 0 <= k < |r| ensures r[k] in s {
      assert s[k] == r[k];
    }
  }

  predicate HostChar(c: char) {
    c != '/' && c != '?' && c != '#' && !Unsafe(c)
  }

  predicate PathChar(c: char) {
    c != '?' && c != '#' && c != ';' && !Unsafe(c)
  }

  /** IndexOfAny finds the first stop and nothing earlier. */
  lemma FirstStop(s: string, stops: string, i: nat)
    requires i <= |s|
    requires forall k :: 0 <= k < i ==> s[k] !in stops
    requires i < |s| ==> s[i] in stops
    ensures IndexOfAny(s, stops) == i
  {
  }

  /** An http or https URL is reduced to its host followed by its path: scheme, query,
      fragment and path parameters are dropped. */
  lemma UrlReducedToHostAndPath(scheme: string, host: string, path: string, suffix: string)
    requires scheme == "https://" || scheme == "http://"
    requires forall k :: 0 <= k < |host| ==> HostChar(host[k])
    requires path == [] || path[0] == '/'
    requires forall k :: 0 <= k < |path| ==> PathChar(path[k])
    requires suffix == [] || suffix[0] == '?' || suffix[0] == '#'
    requires forall k :: 0 <= k < |suffix| ==> !Unsafe(suffix[k])
    ensures NetlocPath(scheme + host + path + suffix) == host + path
  {
    var after := host + path + suffix;
    assert scheme + host + path + suffix == scheme + after;
    AfterEitherScheme(scheme, after);
    UnsafeFree(host, path, suffix);
    RemoveUnsafeNoop(after);
    SplitAfterScheme(host, path, suffix);
  }

  /** Both schemes are dropped whole before the rest is split. */
  lemma AfterEitherScheme(scheme: string, after: string)
    requires scheme == "https://" || scheme == "http://"
    ensures IsHttpUrl(scheme + after)
    ensures NetlocPath(scheme + after) == AfterScheme(RemoveUnsafe(after))
  {
    var url := scheme + after;
    assert url[..|scheme|] == scheme && url[|scheme|..] == after;
    if scheme == "http://" {
      assert url[4] == ':';
      assert !HasPrefix(url, "https://");
    }
  }

  lemma UnsafeFree(host: string, path: string, suffix: string)
    requires forall k :: 0 <= k < |host| ==> HostChar(host[k])
    requires forall k :: 0 <= k < |path| ==> PathChar(path[k])
    requires forall k :: 0 <= k < |suffix| ==> !Unsafe(suffix[k])
    ensures forall k :: 0 <= k < |host + path + suffix| ==> !Unsafe((host + path + suffix)[k])
  {
    var after := host + path + suffix;
    forall k | 0 <= k < |after| ensures !Unsafe(after[k]) {
      if k < |host| { assert after[k] == host[k]; }
      else if k < |host| + |path| { assert after[k] == path[k - |host|]; }
      else { assert after[k] == suffix[k - |host| - |path|]; }
    }
  }

  lemma SplitAfterScheme(host: string, path: string, suffix: string)
    requires forall k :: 0 <= k < |host| ==> HostChar(host[k])
    requires path == [] || path[0] == '/'
    requires forall k :: 0 <= k < |path| ==> PathChar(path[k])
    requires suffix == [] || suffix[0] == '?' || suffix[0] == '#'
    ensures AfterScheme(host + path + suffix) == host + path
  {
    HostEnds(host, path + suffix);
    assert host + path + suffix == host + (path + suffix);
    PathEnds(path, suffix);
  }

  /** The network location runs up to the first '/', '?' or '#'. */
  lemma HostEnds(host: string, tail: string)
    requires forall k :: 0 <= k < |host| ==> HostChar(host[k])
    requires tail == [] || tail[0] == '/' || tail[0] == '?' || tail[0] == '#'
    ensures IndexOfAny(host + tail, "/?#") == |host|
    ensures (host + tail)[..|host|] == host && (host + tail)[|host|..] == tail
  {
    var after := host + tail;
    assert forall k :: 0 <= k < |host| ==> after[k] == host[k];
    FirstStop(after, "/?#", |host|);
  }

  /** The path runs up to the first '?' or '#', and has no parameters to drop. */
  lemma PathEnds(path: string, suffix: string)
    requires forall k :: 0 <= k < |path| ==> PathChar(path[k])
    requires suffix == [] || suffix[0] == '?' || suffix[0] == '#'
    ensures IndexOfAny(path + suffix, "?#") == |path|
    ensures (path + suffix)[..|path|] == path
    ensures DropParams(path) == path
  {
    var tail := path + suffix;
    assert forall k :: 0 <= k < |path| ==> tail[k] == path[k];
    FirstStop(tail, "?#", |path|);
    assert ';' !in path by {
      forall k | 0 <= k < |path| ensures path[k] != ';' { assert PathChar(path[k]); }
    }
  }

  // ---------------------------------------------------------------- the substitutions

  /** Deletes every forbidden character (the first re.sub). */
  function DropForbidden(s: string): (r: string)
    ensures |r| <= |s|
    ensures forall k :: 0 <= k < |r| ==> !Forbidden(r[k])
    ensures forall k :: 0 <= k < |r| ==> (r[k] == ' ' ==> ' ' in s)
    ensures (forall k :: 0 <= k < |s| ==> !Forbidden(s[k])) ==> r == s
    ensures |s| == 1 ==> r == (if Forbidden(s[0]) then [] else s)
  {
    if s == [] then []
    else if Forbidden(s[0]) then DropForbidden(s[1..])
    else [s[0]] + DropForbidden(s[1..])
  }

  /** Deleting works piece by piece: with the one-character cases above, every other
      character is kept, in order. */
  lemma {:induction false} DropForbiddenAppend(a: string, b: string)
    ensures DropForbidden(a + b) == DropForbidden(a) + DropForbidden(b)
  {
    if a != [] {
      assert (a + b)[0] == a[0];
      assert (a + b)[1..] == a[1..] + b;
      DropForbiddenAppend(a[1..], b);
      assert DropForbidden(a) == DropForbidden([a[0]]) + DropForbidden(a[1..]);
    } else {
      assert a + b == b;
    }
  }

  /** .replace(' ', '_').replace('/', '_').replace(':', '_') */
  function Underscores(s: string): (r: string)
    ensures |r| == |s|
    ensures forall k :: 0 <= k < |s| ==>
      r[k] == (if s[k] == ' ' || s[k] == '/' || s[k] == ':' then '_' else s[k])
  {
    if s == [] then [] else
      [if s[0] == ' ' || s[0] == '/' || s[0] == ':' then '_' else s[0]] + Underscores(s[1..])
  }

  /** The `^[_./]+` half of the trim: the leading run of `_./` is removed
      (DropLeadingEdgeRun: and nothing else). */
  function DropLeadingEdge(s: string): (r: string)
    ensures |r| <= |s| && r == s[|s| - |r|..]
    ensures r != [] ==> !Edge(r[0])
    ensures |s| > 0 && !Edge(s[0]) ==> r == s
  {
    if |s| > 0 && Edge(s[0]) then DropLeadingEdge(s[1..]) else s
  }

  /** Only `_./` is removed in front. */
  lemma {:induction false} DropLeadingEdgeRun(s: string)
    ensures forall k :: 0 <= k < |s| - |DropLeadingEdge(s)| ==> Edge(s[k])
  {
    if |s| > 0 && Edge(s[0]) {
      DropLeadingEdgeRun(s[1..]);
      assert forall k :: 1 <= k < |s| ==> s[k] == s[1..][k - 1];
    }
  }

  /** The `[_./]+$` half of the trim: the trailing run of `_./` is removed
      (DropTrailingEdgeRun: and nothing else). */
  function DropTrailingEdge(s: string): (r: string)
    ensures |r| <= |s| && r == s[..|r|]
    ensures r != [] ==> !Edge(r[|r| - 1])
    ensures |s| > 0 && !Edge(s[|s| - 1]) ==> r == s
  {
    if |s| > 0 && Edge(s[|s| - 1]) then DropTrailingEdge(s[..|s| - 1]) else s
  }

  /** Only `_./` is removed at the end. */
  lemma {:induction false} DropTrailingEdgeRun(s: string)
    ensures forall k :: |DropTrailingEdge(s)| <= k < |s| ==> Edge(s[k])
  {
    if |s| > 0 && Edge(s[|s| - 1]) {
      DropTrailingEdgeRun(s[..|s| - 1]);
    }
  }

  /** re.sub(r'^[_./]+|[_./]+$', '', s) exactly as Python runs it: `$` also matches just
      before a newline that ends the string, so a run of `_./` in front of such a final
      newline is deleted too. */
  function TrimEdgesAsWritten(s: string): (r: string)
    ensures AllSafe(s) ==> AllSafe(r)
  {
    var m := DropLeadingEdge(s);
    if m == [] then []
    else if Edge(m[|m| - 1]) then DropTrailingEdge(m)
    else if m[|m| - 1] == '\n' then DropTrailingEdge(m[..|m| - 1]) + "\n"
    else m
  }

  /** The trim as written agrees with the intended one, except that a final newline is
      kept and the run of `_./` in front of it is removed. */
  lemma TrimEdgesAsWrittenCases(s: string)
    ensures s == [] || s[|s| - 1] != '\n' ==> TrimEdgesAsWritten(s) == TrimEdges(s)
    ensures s != [] && s[|s| - 1] == '\n' ==>
      TrimEdgesAsWritten(s) == TrimEdges(s[..|s| - 1]) + "\n"
  {
    if s != [] && s[|s| - 1] == '\n' {
      TrimNewlineCase(s);
    } else {
      TrimOtherCase(s);
    }
  }

  lemma TrimOtherCase(s: string)
    requires s == [] || s[|s| - 1] != '\n'
    ensures TrimEdgesAsWritten(s) == TrimEdges(s)
  {
    var m := DropLeadingEdge(s);
    assert TrimEdges(s) == DropTrailingEdge(m);
    if m == [] {
      assert TrimEdgesAsWritten(s) == [];
    } else {
      assert m[|m| - 1] == s[|s| - 1];
    }
  }

  lemma TrimNewlineCase(s: string)
    requires s != [] && s[|s| - 1] == '\n'
    ensures TrimEdgesAsWritten(s) == TrimEdges(s[..|s| - 1]) + "\n"
  {
    var m := DropLeadingEdge(s);
    LeadingEdgeBeforeNewline(s);
    assert m[|m| - 1] == '\n' by {
      assert m[|m| - 1] == s[|s| - 1];
    }
    assert TrimEdgesAsWritten(s) == DropTrailingEdge(m[..|m| - 1]) + "\n";
    assert TrimEdges(s[..|s| - 1]) == DropTrailingEdge(DropLeadingEdge(s[..|s| - 1]));
  }

  /** The leading trim is fixed by where the run of `_./` ends. */
  lemma {:induction false} DropLeadingEdgeAt(t: string, j: nat)
    requires j <= |t|
    requires forall k :: 0 <= k < j ==> Edge(t[k])
    requires j < |t| ==> !Edge(t[j])
    ensures DropLeadingEdge(t) == t[j..]
  {
    if j > 0 {
      assert Edge(t[0]);
      forall k | 0 <= k < j - 1 ensures Edge(t[1..][k]) {
        assert t[1..][k] == t[k + 1];
      }
      if j < |t| { assert t[1..][j - 1] == t[j]; }
      DropLeadingEdgeAt(t[1..], j - 1);
      assert t[1..][j - 1..] == t[j..];
    }
  }

  /** Removing the leading run before a final newline is removing it and then the
      newline: the run cannot reach the newline. */
  lemma LeadingEdgeBeforeNewline(s: string)
    requires s != [] && s[|s| - 1] == '\n'
    ensures DropLeadingEdge(s) != []
    ensures DropLeadingEdge(s)[..|DropLeadingEdge(s)| - 1] == DropLeadingEdge(s[..|s| - 1])
  {
    LeadingRunStops(s);
    var m := DropLeadingEdge(s);
    var t, i := s[..|s| - 1], |s| - |m|;
    LeadingEdgeOfInit(s, i);
    assert DropLeadingEdge(t) == t[i..];
    SuffixDropLast(s, m);
    assert m[..|m| - 1] == t[i..];
  }

  /** The run of `_./` in front of a string that ends with a newline stops before it. */
  lemma LeadingRunStops(s: string)
    requires s != [] && s[|s| - 1] == '\n'
    ensures var m := DropLeadingEdge(s);
      && m != [] && !Edge(s[|s| - |m|])
      && forall k :: 0 <= k < |s| - |m| ==> Edge(s[k])
  {
    DropLeadingEdgeRun(s);
    assert !Edge(s[|s| - 1]);
  }

  /** If the run of `_./` in front of `s` ends at `i`, it ends there in `s` without its
      last character too. */
  lemma LeadingEdgeOfInit(s: string, i: nat)
    requires i < |s| && !Edge(s[i])
    requires forall k :: 0 <= k < i ==> Edge(s[k])
    ensures DropLeadingEdge(s[..|s| - 1]) == s[..|s| - 1][i..]
  {
    var t := s[..|s| - 1];
    forall k | 0 <= k < i ensures Edge(t[k]) {
      assert t[k] == s[k];
    }
    if i < |t| { assert t[i] == s[i]; }
    DropLeadingEdgeAt(t, i);
  }

  /** The intended trim keeps a middle piece of `s`, with only `_./` outside it. */
  lemma TrimEdgesMiddle(s: string)
    ensures MiddleOf(s, |s| - |DropLeadingEdge(s)|, TrimEdges(s), Edge)
  {
    var m := DropLeadingEdge(s);
    var r := DropTrailingEdge(m);
    DropLeadingEdgeRun(s);
    DropTrailingEdgeRun(m);
    PrefixOfSuffix(s, m, r, Edge);
    assert TrimEdges(s) == r;
  }

  /** The evidently intended trim: delete the runs of `_./` at the two ends, so that the
      result neither starts nor ends with one of them (TrimEdgesMiddle: and nothing
      else is removed). */
  function TrimEdges(s: string): (r: string)
    ensures |r| <= |s|
    ensures r != [] ==> !Edge(r[0]) && !Edge(r[|r| - 1])
    ensures AllSafe(s) ==> AllSafe(r)
  {
    var m := DropLeadingEdge(s);
    var r := DropTrailingEdge(m);
    assert r != [] ==> r[0] == m[0];
    r
  }

  // ---------------------------------------------------------------- get_valid_filename

  /** The name used when nothing is left: article_<int(time.time())>. */
  function Fallback(now: nat): string {
    "article_" + NatToString(now)
  }

  /** The netloc and path of an http(s) URL, otherwise the input itself. */
  function FilenameBase(s: string): string {
    if IsHttpUrl(s) then NetlocPath(s) else s
  }

  /** filename[:max_len] after the two substitutions: before trimming, the name
      already holds only safe characters and fits the limit. */
  function Prepared(s: string): (r: string)
    ensures |r| <= MaxLen
    ensures AllSafe(r)
  {
    var u := Underscores(DropForbidden(FilenameBase(s)));
    assert forall k :: 0 <= k < |u| ==> SafeChar(u[k]);
    var c := Cut(u, MaxLen);
    assert forall k :: 0 <= k < |c| ==> c[k] == u[k];
    c
  }

  /** A name with only safe characters, within the limit and not a URL passes the
      substitutions and the cut unchanged. */
  lemma PreparedNoop(s: string)
    requires |s| <= MaxLen && !IsHttpUrl(s)
    requires AllSafe(s)
    ensures Prepared(s) == s
  {
    assert DropForbidden(s) == s;
    var u := Underscores(s);
    assert forall k :: 0 <= k < |s| ==> u[k] == s[k];
    assert u == s;
  }

  lemma CleanNotUrl(r: string)
    requires Clean(r)
    ensures !IsHttpUrl(r)
  {
    if |r| >= 7 { assert r[..7][4] == r[4] && SafeChar(r[4]); }
    if |r| >= 8 { assert r[..8][5] == r[5] && SafeChar(r[5]); }
  }

  /** get_valid_filename as written (with the newline quirk of its trim). It differs
      from ValidFilename only when the substituted, cut name ends with a newline. */
  function ValidFilenameAsWritten(s: string, now: nat): (r: string)
    ensures r != []
    ensures AllSafe(r)
    ensures var p := Prepared(s); p == [] || p[|p| - 1] != '\n' ==> r == ValidFilename(s, now)
  {
    var p := Prepared(s);
    var f := TrimEdgesAsWritten(p);
    var r := if f == [] then Fallback(now) else f;
    assert AllSafe(r) by {
      FallbackClean(now);
    }
    assert p == [] || p[|p| - 1] != '\n' ==> r == ValidFilename(s, now) by {
      if p == [] || p[|p| - 1] != '\n' {
        TrimOtherCase(p);
      }
    }
    r
  }

  /** get_valid_filename with the trim it evidently intends; the model uses this one. */
  function ValidFilename(s: string, now: nat): (r: string)
    ensures r != []
    ensures Clean(r) && !IsHttpUrl(r)
    ensures r == Fallback(now) || |r| <= MaxLen
    ensures r != Fallback(now) ==> r == TrimEdges(Prepared(s))
    ensures TrimEdges(Prepared(s)) != [] ==> r == TrimEdges(Prepared(s))
    ensures TrimEdges(Prepared(s)) == [] ==> r == Fallback(now)
  {
    FallbackClean(now);
    var f := TrimEdges(Prepared(s));
    if f == [] then Fallback(now) else CleanNotUrl(f); f
  }

  lemma FallbackClean(now: nat)
    ensures Clean(Fallback(now))
    ensures !IsHttpUrl(Fallback(now))
  {
    var f := Fallback(now);
    var d := NatToString(now);
    assert forall k :: 8 <= k < |f| ==> f[k] == d[k - 8];
    assert forall k :: 0 <= k < |f| ==> SafeChar(f[k]) by {
      forall k | 0 <= k < |f| ensures SafeChar(f[k]) {
        if k >= 8 { assert f[k] == d[k - 8]; }
      }
    }
    assert f[|f| - 1] == d[|d| - 1];
    assert f[0] == 'a';
    CleanNotUrl(f);
  }

  /** A clean name of at most 100 characters is its own sanitised form. */
  lemma CleanIsFixpoint(r: string, now: nat)
    requires r != [] && |r| <= MaxLen && Clean(r)
    ensures ValidFilename(r, now) == r
  {
    CleanNotUrl(r);
    PreparedNoop(r);
  }

  /** Sanitising twice is sanitising once (whatever the clock says the second time),
      as long as the fallback name fits in 100 characters. */
  lemma ValidFilenameIdempotent(s: string, now: nat, later: nat)
    requires |Fallback(now)| <= MaxLen
    ensures ValidFilename(ValidFilename(s, now), later) == ValidFilename(s, now)
  {
    CleanIsFixpoint(ValidFilename(s, now), later);
  }

  /** The trim as written breaks idempotence: "a_\n_" becomes "a_\n", which becomes
      "a\n" when sanitised again. */
  lemma AsWrittenNotIdempotent()
    ensures ValidFilenameAsWritten("a_\n_", 0) == "a_\n"
    ensures ValidFilenameAsWritten("a_\n", 0) == "a\n"
  {
    AsWrittenFirstPass();
    AsWrittenSecondPass();
  }

  lemma AsWrittenFirstPass()
    ensures ValidFilenameAsWritten("a_\n_", 0) == "a_\n"
  {
    var s := "a_\n_";
    assert !IsHttpUrl(s) by { assert s[0] == 'a'; }
    assert forall k :: 0 <= k < |s| ==> SafeChar(s[k]);
    PreparedNoop(s);
    TrimTrailingUnderscore();
  }

  lemma TrimTrailingUnderscore()
    ensures TrimEdgesAsWritten("a_\n_") == "a_\n"
  {
    var m := "a_\n_";
    assert DropLeadingEdge(m) == m;
    assert Edge(m[|m| - 1]);
    DropUnderscoreAfterNewline();
  }

  lemma DropUnderscoreAfterNewline()
    ensures DropTrailingEdge("a_\n_") == "a_\n"
  {
    var t := "a_\n_";
    assert Edge(t[|t| - 1]);
    assert t[..3] == "a_\n";
    assert !Edge('\n');
    assert DropTrailingEdge(t) == DropTrailingEdge("a_\n");
  }

  lemma AsWrittenSecondPass()
    ensures ValidFilenameAsWritten("a_\n", 0) == "a\n"
  {
    var s := "a_\n";
    assert !IsHttpUrl(s) by { assert s[0] == 'a'; }
    assert forall k :: 0 <= k < |s| ==> SafeChar(s[k]);
    PreparedNoop(s);
    TrimBeforeFinalNewline();
  }

  lemma TrimBeforeFinalNewline()
    ensures TrimEdgesAsWritten("a_\n") == "a\n"
  {
    var m := "a_\n";
    assert DropLeadingEdge(m) == m;
    assert m[|m| - 1] == '\n' && !Edge(m[|m| - 1]);
    assert m[..2] == "a_";
    TrailingRunOfOne();
  }

  lemma TrailingRunOfOne()
    ensures DropTrailingEdge("a_") == "a"
  {
    var t := "a_";
    assert Edge(t[|t| - 1]);
    assert t[..1] == "a";
    assert DropTrailingEdge(t) == DropTrailingEdge("a");
  }
}
