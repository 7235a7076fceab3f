/** The body of `main`: choose the playlist URLs, scan the local folder,
    fold the playlists into one download queue, ask before downloading,
    download, and report. The playlist resolver, the user's answer and the
    downloader's codes are inputs. */
module Driver {
  import opened PyBase
  import opened LocalLibrary
  import opened Reconcile
  import opened Downloader

  /** The script's configuration constants that affect its logic. */
  datatype Config = Config(defaultUrls: seq<string>, askBeforeDownloading: bool)

  /** How a run of `main` ends. `queue` is the download list and `unique`
      the de-duplicated union of the playlists ("Need to download
      |queue| of |unique| songs"). */
  datatype Report =
    | Crashed(error: PyError)        // an uncaught exception
    | NoUrl                          // "No URL specified!", returns 1
    | NothingToDo                    // "All songs already downloaded.", returns 0
    | Declined(queue: seq<string>, unique: seq<string>)
    | Finished(queue: seq<string>, unique: seq<string>, attempted: nat, errored: seq<string>)

  // ---------------------------------------------------------------------
  // Choosing the playlist URLs

  /** Lines 191-192 as written: `playlist_urls[i-1] = sys_argv[i]` for each
      argument, into the list `start`. Index assignment never grows a Python
      list, so with the empty list the source starts from, the first
      argument raises IndexError. */
  method AssignArgsAsWritten(start: seq<string>, argv: seq<string>) returns (r: Result<seq<string>>)
    requires |argv| > 1
    ensures r.Failure? <==> |argv| - 1 > |start|
    ensures r.Failure? ==> r.error == IndexError
    ensures r.Success? ==> r.value == argv[1..] + start[|argv| - 1..]
  {
    var urls := start;
    for i := 1 to |argv|
      invariant i - 1 <= |start| && |urls| == |start|
      invariant urls == argv[1..i] + start[i - 1..]
    {
      if i - 1 >= |urls| {
        return Failure(IndexError);
      }
      AssignShifts(argv[1..i], argv[i], start[i - 1..]);
      assert start[i - 1..][1..] == start[i..];
      urls := urls[i - 1 := argv[i]];
      assert argv[1..i + 1] == argv[1..i] + [argv[i]];
    }
    r := Success(urls);
  }

  /** Assigning slot `|done|` of `done + rest` moves the boundary one slot on. */
  lemma AssignShifts(done: seq<string>, x: string, rest: seq<string>)
    requires rest != []
    ensures (done + rest)[|done| := x] == done + [x] + rest[1..]
  {
  }

  /** Lines 188-192 as written: any command-line argument makes the copy fail. */
  method PlaylistUrlsAsWritten(argv: seq<string>, defaults: seq<string>) returns (r: Result<seq<string>>)
    ensures |argv| > 1 ==> r == Failure(IndexError)
    ensures |argv| <= 1 ==> r == Success(defaults)
  {
    r := Success(defaults);
    if |argv| > 1 {
      r := AssignArgsAsWritten([], argv);
    }
  }

  /** Lines 188-192 as intended: the arguments after the program name, in
      order, or the configured defaults when there are none. */
  method PlaylistUrls(argv: seq<string>, defaults: seq<string>) returns (urls: seq<string>)
    ensures |argv| > 1 ==> urls == argv[1..]
    ensures |argv| <= 1 ==> urls == defaults
  {
    urls := defaults;
    if |argv| > 1 {
      urls := [];
      for i := 1 to |argv|
        invariant urls == argv[1..i]
      {
        urls := urls + [argv[i]];
      }
    }
  }

  // ---------------------------------------------------------------------
  // Folding the playlists into one download queue

  /** The download list after the loop has processed `playlists`: each
      playlist is reconciled against the local slugs extended by everything
      queued so far. */
  function DownloadQueue(local: seq<string>, playlists: seq<seq<string>>): seq<string>
  {
    if playlists == [] then []
    else
      var before := DownloadQueue(local, playlists[..|playlists| - 1]);
      before + Needed(local + before, playlists[|playlists| - 1])
  }

  /** The slugs the loop queues for playlist `i`. */
  function QueuedFor(local: seq<string>, playlists: seq<seq<string>>, i: nat): seq<string>
    requires i < |playlists|
  {
    Needed(local + DownloadQueue(local, playlists[..i]), playlists[i])
  }

  /** `unique_pl_list` after the loop has processed `playlists`. */
  function UniqueSongs(playlists: seq<seq<string>>): seq<string>
  {
    if playlists == [] then []
    else DedupAppend(UniqueSongs(playlists[..|playlists| - 1]), playlists[|playlists| - 1])
  }

  /** The loop of lines 199-207 over the resolved playlists, in URL order. */
  method Accumulate(local: seq<string>, playlists: seq<seq<string>>)
    returns (downloadList: seq<string>, foundSongs: seq<string>, unique: seq<string>)
    ensures downloadList == DownloadQueue(local, playlists)
    ensures foundSongs == local + downloadList
    ensures unique == UniqueSongs(playlists)
  {
    downloadList := [];
    foundSongs := local;
    var uniqueList := new SlugList();
    for i := 0 to |playlists|
      invariant fresh(uniqueList)
      invariant foundSongs == local + downloadList
      invariant downloadList == DownloadQueue(local, playlists[..i])
      invariant uniqueList.items == UniqueSongs(playlists[..i])
    {
      assert playlists[..i + 1][..i] == playlists[..i];
      var playlistSongs := playlists[i];
      var newSongs := GetSongsNeeded(foundSongs, playlistSongs);
      uniqueList := Deduplicate(uniqueList, playlistSongs);
      downloadList := downloadList + newSongs;
      foundSongs := foundSongs + newSongs;
    }
    assert playlists[..|playlists|] == playlists;
    unique := uniqueList.items;
  }

  /** Nothing local is queued, and a slug is queued exactly when some
      playlist lists it. */
  lemma {:induction false} QueueMembers(local: seq<string>, playlists: seq<seq<string>>, x: string)
    ensures x in DownloadQueue(local, playlists) <==>
      x !in local && exists k :: 0 <= k < |playlists| && x in playlists[k]
  {
    if playlists != [] {
      var n := |playlists| - 1;
      var init := playlists[..n];
      var before := DownloadQueue(local, init);
      QueueMembers(local, init, x);
      NeededMembers(local + before, playlists[n], x);
      assert DownloadQueue(local, playlists) == before + Needed(local + before, playlists[n]);
      if x in before {
        var k :| 0 <= k < n && x in init[k];
        assert x in playlists[k];
      }
      if x !in local && x in playlists[n] && x !in before {
        assert x in Needed(local + before, playlists[n]);
      }
      if x !in local && exists k :: 0 <= k < n && x in playlists[k] {
        var k :| 0 <= k < n && x in playlists[k];
        assert x in init[k];
      }
    }
  }

  /** The queue only grows: the queue after the first `i` playlists is a
      prefix of the final queue. */
  lemma {:induction false} QueuePrefix(local: seq<string>, playlists: seq<seq<string>>, i: nat)
    requires i <= |playlists|
    ensures var q := DownloadQueue(local, playlists[..i]);
      |q| <= |DownloadQueue(local, playlists)| && DownloadQueue(local, playlists)[..|q|] == q
  {
    if i < |playlists| {
      var n := |playlists| - 1;
      QueuePrefix(local, playlists[..n], i);
      assert playlists[..n][..i] == playlists[..i];
    } else {
      assert playlists[..i] == playlists;
    }
  }

  /** A slug queued for one playlist is never queued again for a later one. */
  lemma NotRequeued(local: seq<string>, playlists: seq<seq<string>>, i: nat, j: nat, x: string)
    requires i < j < |playlists|
    requires x in QueuedFor(local, playlists, i)
    ensures x !in QueuedFor(local, playlists, j)
  {
    var upToJ := playlists[..j];
    assert upToJ[..i + 1][..i] == playlists[..i] && upToJ[..i + 1][i] == playlists[i];
    QueuePrefix(local, upToJ, i + 1);
    var q := DownloadQueue(local, upToJ[..i + 1]);
    assert x in q;
    assert x in DownloadQueue(local, upToJ);
    NeededMembers(local + DownloadQueue(local, upToJ), playlists[j], x);
  }

  /** The queue holds a slug missing locally as many times as the first
      playlist that lists it does, however many later playlists list it too. */
  lemma {:induction false} QueueCount(local: seq<string>, playlists: seq<seq<string>>, x: string, i: nat)
    requires i < |playlists| && x in playlists[i] && x !in local
    requires forall k :: 0 <= k < i ==> x !in playlists[k]
    ensures multiset(DownloadQueue(local, playlists))[x] == multiset(playlists[i])[x]
  {
    var n := |playlists| - 1;
    var init := playlists[..n];
    var before := DownloadQueue(local, init);
    NeededCount(local + before, playlists[n], x);
    if i == n {
      QueueMembers(local, init, x);
      assert x !in before;
    } else {
      QueueCount(local, init, x, i);
      assert x in before;
    }
  }

  /** After the fold, reconciling any of the playlists again against the
      extended local list (`found_songs`) needs nothing. */
  lemma FoldIdempotent(local: seq<string>, playlists: seq<seq<string>>, k: nat)
    requires k < |playlists|
    ensures Needed(local + DownloadQueue(local, playlists), playlists[k]) == []
  {
    var found := local + DownloadQueue(local, playlists);
    forall x | x in playlists[k] ensures x in found {
      QueueMembers(local, playlists, x);
    }
    NeededEmpty(found, playlists[k]);
  }

  /** `unique_pl_list` holds every playlist slug exactly once. */
  lemma {:induction false} UniqueSongsProperties(playlists: seq<seq<string>>, x: string)
    ensures NoDup(UniqueSongs(playlists))
    ensures x in UniqueSongs(playlists) <==> exists k :: 0 <= k < |playlists| && x in playlists[k]
  {
    if playlists != [] {
      var n := |playlists| - 1;
      var init := playlists[..n];
      UniqueSongsProperties(init, x);
      assert forall k :: 0 <= k < n ==> init[k] == playlists[k];
      DedupAppendNoDup(UniqueSongs(init), playlists[n]);
      DedupAppendMembers(UniqueSongs(init), playlists[n], x);
    }
  }

  /** Every queued slug is among the playlists' unique slugs (the queue can
      still be longer, when a playlist lists a slug twice). */
  lemma QueueWithinUnique(local: seq<string>, playlists: seq<seq<string>>, x: string)
    requires x in DownloadQueue(local, playlists)
    ensures x in UniqueSongs(playlists)
  {
    QueueMembers(local, playlists, x);
    UniqueSongsProperties(playlists, x);
  }

  /** One playlist listing a slug twice: "Need to download 2 of 1 songs". */
  lemma QueueLongerThanUnique()
    ensures |DownloadQueue([], [["a", "a"]])| == 2 && |UniqueSongs([["a", "a"]])| == 1
  {
    var twice: seq<string> := ["a", "a"];
    var playlists: seq<seq<string>> := [twice];
    assert playlists[..0] == [] && twice[..1] == ["a"] && twice[..1][..0] == [];
    assert Needed([], twice) == ["a", "a"];
    var none: seq<string> := [];
    assert none + none == none;
    assert DownloadQueue(none, playlists) == none + Needed(none + none, twice);
    assert twice[1..] == ["a"] && twice[1..][1..] == [];
    assert DedupAppend([], twice) == ["a"];
    assert UniqueSongs(playlists) == DedupAppend([], twice);
  }

  /** Local {"id1", "id2"} and one playlist ["id2", "id3", "id4"]: "Need to
      download 2 of 3 songs", namely id3 and id4. */
  lemma OnePlaylistExample()
    ensures DownloadQueue(["id1", "id2"], [["id2", "id3", "id4"]]) == ["id3", "id4"]
    ensures |UniqueSongs([["id2", "id3", "id4"]])| == 3
  {
    var local: seq<string> := ["id1", "id2"];
    var remote: seq<string> := ["id2", "id3", "id4"];
    var playlists: seq<seq<string>> := [remote];
    assert playlists[..0] == [];
    ExampleNeeded(local, remote);
    assert DownloadQueue(local, playlists) == [] + Needed(local + [], remote);
    assert local + [] == local;
    assert DedupAppend([], remote) == remote;
  }

  /** The reconciliation step of `OnePlaylistExample`, one remote slug at a time. */
  lemma ExampleNeeded(local: seq<string>, remote: seq<string>)
    requires local == ["id1", "id2"] && remote == ["id2", "id3", "id4"]
    ensures Needed(local, remote) == ["id3", "id4"]
  {
    assert remote[..2] == ["id2", "id3"] && remote[..2][..1] == ["id2"] && remote[..1][..0] == [];
    assert Needed(local, remote[..1]) == [];
    assert Needed(local, remote[..2]) == ["id3"];
  }

  // ---------------------------------------------------------------------
  // The whole run

  /** The playlists the resolver returns for `urls`, in order. */
  function Resolved(urls: seq<string>, resolve: string -> seq<string>): (playlists: seq<seq<string>>)
    ensures |playlists| == |urls|
    ensures forall k :: 0 <= k < |urls| ==> playlists[k] == resolve(urls[k])
  {
    seq(|urls|, k requires 0 <= k < |urls| => resolve(urls[k]))
  }

  /** The body of `main` after its debugging exit. `files` is the listing of
      the music folder, `resolve` the playlist resolver, `answer` the reply
      to the confirmation prompt and `codeOf(k)` the code the k-th download
      returns. */
  method RunSync(config: Config, argv: seq<string>, files: seq<FileRecord>,
                 resolve: string -> seq<string>, answer: string, codeOf: nat -> int)
    returns (report: Report)
    ensures LocalSlugs(files).Failure? ==> report == Crashed(LocalSlugs(files).error)
    ensures LocalSlugs(files).Success? ==>
      var urls := if |argv| > 1 then argv[1..] else config.defaultUrls;
      var playlists := Resolved(urls, resolve);
      var queue := DownloadQueue(LocalSlugs(files).value, playlists);
      var unique := UniqueSongs(playlists);
      if urls == [] then report == NoUrl
      else if queue == [] then report == NothingToDo
      else if config.askBeforeDownloading && answer != "y" && answer != "Y" then
        report == Declined(queue, unique)
      else
        report == Finished(queue, unique, |queue|, Errored(queue, seq(|queue|, k requires 0 <= k => codeOf(k))))
  {
    var scanned := FindLocalSongs(files);
    if scanned.Failure? {
      return Crashed(scanned.error);
    }
    var urls := PlaylistUrls(argv, config.defaultUrls);
    if urls == [] {
      return NoUrl;
    }
    var playlists := Resolved(urls, resolve);
    var downloadList, foundSongs, unique := Accumulate(scanned.value, playlists);
    if |downloadList| == 0 {
      return NothingToDo;
    }
    if config.askBeforeDownloading && !(answer == "y" || answer == "Y") {
      return Declined(downloadList, unique);
    }
    var codes := seq(|downloadList|, k requires 0 <= k => codeOf(k));
    var errored, attempted := DownloadAll(downloadList, codes);
    report := Finished(downloadList, unique, attempted, errored);
  }

  // ---------------------------------------------------------------------
  // The process exit status

  /** As written, `main()`'s return value is discarded (line 242): the
      process exits with status 0 unless an exception escapes, even after
      "No URL specified!". */
  function ExitStatusAsWritten(report: Report): (status: int)
    ensures status != 0 <==> report.Crashed?
  {
    if report.Crashed? then 1 else 0
  }

  lemma NoUrlExitsZeroAsWritten()
    ensures ExitStatusAsWritten(NoUrl) == 0
  {
  }

  /** As intended, `exit(main())`: status 1 when no URL is usable. */
  function ExitStatus(report: Report): (status: int)
    ensures status == 1 <==> report.Crashed? || report.NoUrl?
    ensures status == 0 <==> !(report.Crashed? || report.NoUrl?)
  {
    match report
    case Crashed(_) => 1
    case NoUrl => 1
    case _ => 0
  }
}
