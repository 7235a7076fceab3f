/** The scan of the local music folder (`find_local_songs`): every file the
    tag reader supports and that carries a `purl` tag gives the slug of that
    URL, unless the slug is empty. */
module LocalLibrary {
  import opened PyBase
  import opened Slug

  /** One directory entry as the tag reader sees it: whether its format is
      supported, and the first value of its `purl` tag if it has one. */
  datatype FileRecord = FileRecord(name: string, supported: bool, purl: Option<string>)

  /** The decision the scan takes for one file: Failure when the slug
      extraction raises, Success(None) when the file is skipped,
      Success(Some(slug)) when it contributes a slug. */
  function Examine(f: FileRecord): (r: Result<Option<string>>)
    ensures r.Failure? <==> f.supported && f.purl.Some? && !Occurs(f.purl.value, Marker)
    ensures r == Success(None) <==>
      !f.supported || f.purl.None? || YoutubeSlug(f.purl.value) == Success("")
    ensures r.Success? && r.value.Some? ==>
      f.supported && f.purl.Some? && r.value.value != "" && YoutubeSlug(f.purl.value) == Success(r.value.value)
  {
    if !f.supported then Success(None)
    else match f.purl
      case None => Success(None)
      case Some(url) =>
        match YoutubeSlug(url)
        case Failure(e) => Failure(e)
        case Success(slug) => if slug == "" then Success(None) else Success(Some(slug))
  }

  /** The scan over the listing in order; the first file whose slug
      extraction raises ends the scan with that error. */
  function LocalSlugs(files: seq<FileRecord>): (r: Result<seq<string>>)
    ensures r.Success? ==> forall k :: 0 <= k < |r.value| ==> r.value[k] != "" && '&' !in r.value[k]
  {
    if files == [] then Success([])
    else
      match LocalSlugs(files[..|files| - 1])
      case Failure(e) => Failure(e)
      case Success(before) =>
        match Examine(files[|files| - 1])
        case Failure(e) => Failure(e)
        case Success(None) => Success(before)
        case Success(Some(slug)) => Success(before + [slug])
  }

  /** The scan fails exactly when some file's slug extraction raises. */
  lemma {:induction false} LocalSlugsFailure(files: seq<FileRecord>)
    ensures LocalSlugs(files).Failure? <==>
      exists i :: 0 <= i < |files| && Examine(files[i]).Failure?
  {
    if files != [] {
      var init := files[..|files| - 1];
      LocalSlugsFailure(init);
      assert forall i :: 0 <= i < |init| ==> init[i] == files[i];
    }
  }

  /** A slug is found exactly when some file of the listing contributes it. */
  lemma {:induction false} LocalSlugsMembers(files: seq<FileRecord>, x: string)
    requires LocalSlugs(files).Success?
    ensures x in LocalSlugs(files).value <==>
      exists i :: 0 <= i < |files| && Examine(files[i]) == Success(Some(x))
  {
    if files != [] {
      var init := files[..|files| - 1];
      LocalSlugsMembers(init, x);
      assert forall i :: 0 <= i < |init| ==> init[i] == files[i];
    }
  }

  /** Listing order is kept: the scan of two consecutive parts of a listing
      is the first part's slugs followed by the second part's, and it fails
      when either part fails. With the one-file case (`Examine`), this fixes
      the result: one slug per contributing file, in listing order. */
  lemma {:induction false} LocalSlugsConcat(a: seq<FileRecord>, b: seq<FileRecord>)
    ensures LocalSlugs(a + b).Success? <==> LocalSlugs(a).Success? && LocalSlugs(b).Success?
    ensures LocalSlugs(a + b).Success? ==> LocalSlugs(a + b).value == LocalSlugs(a).value + LocalSlugs(b).value
    decreases |b|
  {
    if b == [] {
      assert a + b == a;
    } else {
      var init := b[..|b| - 1];
      LocalSlugsConcat(a, init);
      assert (a + b)[..|a + b| - 1] == a + init;
      assert (a + b)[|a + b| - 1] == b[|b| - 1];
      if LocalSlugs(a + b).Success? {
        assert LocalSlugs(a + init).Success?;
      }
    }
  }

  /** `find_local_songs` over the directory listing `files`. */
  method FindLocalSongs(files: seq<FileRecord>) returns (r: Result<seq<string>>)
    ensures r == LocalSlugs(files)
  {
    var found: seq<string> := [];
    for i := 0 to |files|
      invariant LocalSlugs(files[..i]) == Success(found)
    {
      var f := files[i];
      ghost var upTo := files[..i + 1];
      assert upTo[..|upTo| - 1] == files[..i] && upTo[|upTo| - 1] == f;
      if !f.supported {
        assert Examine(f) == Success(None);
        continue;
      }
      if f.purl.None? {
        assert Examine(f) == Success(None);
        continue;
      }
      match YoutubeSlug(f.purl.value) {
        case Failure(e) =>
          LocalSlugsConcat(files[..i + 1], files[i + 1..]);
          assert files[..i + 1] + files[i + 1..] == files;
          return Failure(e);
        case Success(slug) =>
          if slug != "" {
            assert Examine(f) == Success(Some(slug));
            found := found + [slug];
          } else {
            assert Examine(f) == Success(None);
          }
      }
    }
    assert files[..|files|] == files;
    r := Success(found);
  }
}
