/** The files the program sees: the audio directory AUDIO_DIR ("temp_audio") and the
    audio files in it, and cleanup_audio_files, which deletes every .mp3 in the
    directory that no article still refers to. */
module Storage {
  import opened Text

  /** AUDIO_DIR. */
  const AudioDir := "temp_audio"

  /** os.path.join(AUDIO_DIR, name) on a POSIX system. */
  function Join(name: string): (path: string)
    ensures HasPrefix(path, AudioDir + "/") && path[|AudioDir| + 1..] == name
  {
    AudioDir + "/" + name
  }

  /** A path that names an entry directly inside AUDIO_DIR, i.e. Join(name) for a
      non-empty name holding no '/'. */
  predicate InAudioDir(path: string) {
    && |path| > |AudioDir| + 1
    && HasPrefix(path, AudioDir + "/")
    && forall k :: |AudioDir| + 1 <= k < |path| ==> path[k] != '/'
  }

  /** The entry name os.listdir reports for such a path. */
  function EntryName(path: string): (name: string)
    requires InAudioDir(path)
    ensures name != [] && Join(name) == path
  {
    var name := path[|AudioDir| + 1..];
    assert Join(name) == path[..|AudioDir| + 1] + name;
    name
  }

  /** filename.lower().endswith(".mp3") (ASCII case folding). */
  predicate IsMp3Name(name: string) {
    |name| >= 4 && Lower(name[|name| - 4..]) == ".mp3"
  }

  /** The .mp3 entries of AUDIO_DIR that are not kept: what cleanup_audio_files tries to
      delete. */
  function Unused(files: map<string, seq<byte>>, keep: set<string>): set<string> {
    set p | p in files && InAudioDir(p) && IsMp3Name(EntryName(p)) && p !in keep
  }

  /** The kept .mp3 entries of AUDIO_DIR: what cleanup_audio_files counts as kept. */
  function KeptMp3(files: map<string, seq<byte>>, keep: set<string>): set<string> {
    set p | p in files && InAudioDir(p) && IsMp3Name(EntryName(p)) && p in keep
  }

  /** The files left by cleanup_audio_files(keep) when removing the paths in `refused`
      raises an OSError (which is logged and skipped). */
  function AfterCleanup(files: map<string, seq<byte>>, keep: set<string>, refused: set<string>)
    : map<string, seq<byte>>
  {
    files - (Unused(files, keep) - refused)
  }

  /** A file survives the cleanup exactly when it is outside AUDIO_DIR, is not an .mp3,
      is kept, or could not be removed; survivors keep their contents. */
  lemma AfterCleanupExactly(files: map<string, seq<byte>>, keep: set<string>, refused: set<string>,
                            p: string)
    ensures p in AfterCleanup(files, keep, refused) <==>
      p in files && (!InAudioDir(p) || !IsMp3Name(EntryName(p)) || p in keep || p in refused)
    ensures p in AfterCleanup(files, keep, refused) ==> AfterCleanup(files, keep, refused)[p] == files[p]
  {
  }

  /** Cleaning up twice with the same keep set removes nothing more. */
  lemma CleanupIdempotent(files: map<string, seq<byte>>, keep: set<string>, refused: set<string>)
    ensures AfterCleanup(AfterCleanup(files, keep, refused), keep, refused) == AfterCleanup(files, keep, refused)
  {
    var once := AfterCleanup(files, keep, refused);
    assert Unused(once, keep) - refused == {} by {
      forall p | p in Unused(once, keep) ensures p in refused {
        AfterCleanupExactly(files, keep, refused, p);
      }
    }
    assert once - {} == once;
  }

  /** The file system as the program uses it: whether AUDIO_DIR exists, and the
      contents of every file by path. */
  class Disk {
    var dirExists: bool
    var files: map<string, seq<byte>>

    /** Nothing lies inside a directory that does not exist. */
    ghost predicate Valid()
      reads this
    {
      !dirExists ==> forall p :: p in files ==> !InAudioDir(p)
    }

    /** A name tempfile.NamedTemporaryFile(suffix=".mp3", dir=AUDIO_DIR) may pick: an
        .mp3 entry of AUDIO_DIR that does not exist yet, and is not `avoid`. */
    method FreshTempPath(avoid: string) returns (path: string)
      ensures path !in files && path != avoid
      ensures InAudioDir(path) && IsMp3Name(EntryName(path))
    {
      var longest := |avoid|;
      var todo := files.Keys;
      while todo != {}
        invariant todo <= files.Keys
        invariant forall q :: q in files && q !in todo ==> |q| <= longest
        invariant |avoid| <= longest
        decreases todo
      {
        var q :| q in todo;
        if |q| > longest {
          longest := |q|;
        }
        todo := todo - {q};
      }
      path := TempPath(longest);
      assert forall q :: q in files ==> |q| <= longest;
    }

    /** NamedTemporaryFile(delete=False, ...): a new empty file under a fresh name. */
    method CreateTemp(avoid: string) returns (path: string)
      requires Valid() && dirExists
      modifies this
      ensures path !in old(files) && path != avoid
      ensures InAudioDir(path) && IsMp3Name(EntryName(path))
      ensures files == old(files)[path := []]
      ensures dirExists && Valid()
    {
      path := FreshTempPath(avoid);
      files := files[path := []];
    }

    /** open(path, "wb").write(data); opening a file inside a missing AUDIO_DIR would
        raise, so the directory is there whenever the file goes into it. */
    method Write(path: string, data: seq<byte>)
      requires dirExists || !InAudioDir(path)
      modifies this
      ensures files == old(files)[path := data]
      ensures dirExists == old(dirExists)
      ensures old(Valid()) ==> Valid()
    {
      files := files[path := data];
    }

    /** `if os.path.exists(path): os.remove(path)`. */
    method RemoveIfExists(path: string)
      modifies this
      ensures files == old(files) - {path}
      ensures dirExists == old(dirExists)
      ensures old(Valid()) ==> Valid()
    {
      if path in files {
        files := files - {path};
      }
    }

    /** cleanup_audio_files(keep): every .mp3 entry of AUDIO_DIR (any case) whose path
        is not in `keep` is removed, unless removing it raises (the paths in `refused`);
        it does nothing when AUDIO_DIR is missing. Returns the two counts it logs. */
    method Cleanup(keep: set<string>, refused: set<string>) returns (removed: nat, kept: nat)
      requires Valid()
      modifies this
      ensures files == AfterCleanup(old(files), keep, refused)
      ensures !old(dirExists) ==> files == old(files)
      ensures removed == |Unused(old(files), keep) - refused|
      ensures kept == |KeptMp3(old(files), keep)|
      ensures dirExists == old(dirExists)
      ensures Valid()
    {
      removed, kept := 0, 0;
      if !dirExists {
        NothingToClean(files, keep, refused);
        return;
      }
      var left;
      left, removed, kept := Sweep(files, keep, refused);
      files := left;
    }
  }

  /** The scan of os.listdir(AUDIO_DIR) inside cleanup_audio_files. */
  method Sweep(start: map<string, seq<byte>>, keep: set<string>, refused: set<string>)
    returns (left: map<string, seq<byte>>, removed: nat, kept: nat)
    ensures left == AfterCleanup(start, keep, refused)
    ensures removed == |Unused(start, keep) - refused|
    ensures kept == |KeptMp3(start, keep)|
  {
    left := start;
    removed, kept := 0, 0;
    var listing := set p | p in start && InAudioDir(p);
    var todo := listing;
    ghost var gone: set<string> := {};
    ghost var held: set<string> := {};
    ghost var doomed := Unused(start, keep) - refused;
    ghost var counted := KeptMp3(start, keep);
    ListingCovers(start, keep, refused, listing);
    while todo != {}
      invariant todo <= listing
      invariant forall p :: p in listing ==> p in start && InAudioDir(p)
      invariant gone == doomed - todo
      invariant held == counted - todo
      invariant left == start - gone
      invariant removed == |gone| && kept == |held|
      decreases todo
    {
      var p :| p in todo;
      Classify(start, keep, refused, p);
      VisitOne(doomed, todo, gone, p);
      VisitOne(counted, todo, held, p);
      if IsMp3Name(EntryName(p)) {
        if p !in keep {
          if p !in refused {
            MapRemoveOneMore(start, gone, p);
            left := left - {p};
            removed := removed + 1;
            gone := gone + {p};
          }
        } else if p in left {
          kept := kept + 1;
          held := held + {p};
        }
      }
      todo := todo - {p};
    }
    NothingLeftToVisit(doomed, todo);
    NothingLeftToVisit(counted, todo);
  }

  lemma NothingToClean(files: map<string, seq<byte>>, keep: set<string>, refused: set<string>)
    requires forall p :: p in files ==> !InAudioDir(p)
    ensures AfterCleanup(files, keep, refused) == files
    ensures Unused(files, keep) - refused == {} && KeptMp3(files, keep) == {}
  {
    assert Unused(files, keep) == {};
    assert files - {} == files;
  }

  lemma ListingCovers(files: map<string, seq<byte>>, keep: set<string>, refused: set<string>,
                      listing: set<string>)
    requires listing == set p | p in files && InAudioDir(p)
    ensures (Unused(files, keep) - refused) - listing == {}
    ensures KeptMp3(files, keep) - listing == {}
  {
  }

  lemma Classify(files: map<string, seq<byte>>, keep: set<string>, refused: set<string>, p: string)
    requires p in files && InAudioDir(p)
    ensures p in Unused(files, keep) - refused <==> IsMp3Name(EntryName(p)) && p !in keep && p !in refused
    ensures p in KeptMp3(files, keep) <==> IsMp3Name(EntryName(p)) && p in keep
  {
  }

  /** Visiting p moves it from the unvisited part of `target` to the visited part. */
  lemma VisitOne(target: set<string>, todo: set<string>, visited: set<string>, p: string)
    requires visited == target - todo && p in todo
    ensures p in target ==> visited + {p} == target - (todo - {p}) && |visited + {p}| == |visited| + 1
    ensures p !in target ==> visited == target - (todo - {p})
  {
  }

  lemma NothingLeftToVisit(target: set<string>, todo: set<string>)
    requires todo == {}
    ensures target - todo == target
  {
  }

  lemma MapRemoveOneMore(m: map<string, seq<byte>>, gone: set<string>, p: string)
    ensures (m - gone) - {p} == m - (gone + {p})
  {
  }

  /** An .mp3 entry of AUDIO_DIR longer than n characters. */
  function TempPath(n: nat): (path: string)
    ensures |path| > n && InAudioDir(path) && IsMp3Name(EntryName(path))
  {
    var name := Zeros(n) + ".mp3";
    Mp3Suffix(Zeros(n));
    NoSlashJoin(name);
    Join(name)
  }

  lemma Mp3Suffix(z: string)
    ensures IsMp3Name(z + ".mp3")
  {
    var name := z + ".mp3";
    assert name[|name| - 4..] == ".mp3";
    var low := Lower(".mp3");
    assert forall k :: 0 <= k < 4 ==> low[k] == ".mp3"[k];
  }

  lemma NoSlashJoin(name: string)
    requires name != [] && forall k :: 0 <= k < |name| ==> name[k] != '/'
    ensures InAudioDir(Join(name)) && EntryName(Join(name)) == name
  {
    var path := Join(name);
    assert forall k :: |AudioDir| + 1 <= k < |path| ==> path[k] == name[k - |AudioDir| - 1];
  }

  function Zeros(n: nat): (s: string)
    ensures |s| == n && forall k :: 0 <= k < n ==> s[k] == '0'
  {
    if n == 0 then [] else Zeros(n - 1) + "0"
  }
}
