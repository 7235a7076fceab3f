/** The download phase of the script: `download_song` and the loop in
    `main` that counts the attempts and collects the slugs whose download
    reported an error. The downloader itself is replaced by the integer
    code each download returned. */
module Downloader {
  import opened PyBase

  /** `download_song(ytdl, slug)` for a download that returned `code`: the
      slug when the code is non-zero, the empty string otherwise. The caller
      tests the result against "", so a failed download of an empty slug
      goes unrecorded. */
  function DownloadSong(slug: string, code: int): (errorSlug: string)
    ensures errorSlug == "" || errorSlug == slug
    ensures errorSlug != "" <==> code != 0 && slug != ""
  {
    if code != 0 then slug else ""
  }

  /** The slugs the download loop records for `queue` when download `k`
      returned `codes[k]`. */
  function Errored(queue: seq<string>, codes: seq<int>): seq<string>
    requires |codes| == |queue|
  {
    if queue == [] then []
    else
      var n := |queue| - 1;
      var before := Errored(queue[..n], codes[..n]);
      var errorSlug := DownloadSong(queue[n], codes[n]);
      if errorSlug != "" then before + [errorSlug] else before
  }

  /** The loop of `main` over the download list: one attempt per slug, in
      order; `attempted` is the final value of `num_songs_downloaded`. */
  method DownloadAll(queue: seq<string>, codes: seq<int>) returns (errored: seq<string>, attempted: nat)
    requires |codes| == |queue|
    ensures attempted == |queue|
    ensures errored == Errored(queue, codes)
  {
    errored := [];
    attempted := 0;
    for i := 0 to |queue|
      invariant attempted == i
      invariant errored == Errored(queue[..i], codes[..i])
    {
      assert queue[..i + 1][..i] == queue[..i] && codes[..i + 1][..i] == codes[..i];
      attempted := attempted + 1;
      var errorSlug := DownloadSong(queue[i], codes[i]);
      if errorSlug != "" {
        errored := errored + [errorSlug];
      }
    }
    assert queue[..|queue|] == queue && codes[..|codes|] == codes;
  }

  /** A slug is recorded exactly when some download of it returned a
      non-zero code (and the slug is not empty). */
  lemma {:induction false} ErroredMembers(queue: seq<string>, codes: seq<int>, x: string)
    requires |codes| == |queue|
    ensures x in Errored(queue, codes) <==>
      x != "" && exists k :: 0 <= k < |queue| && queue[k] == x && codes[k] != 0
  {
    if queue != [] {
      var n := |queue| - 1;
      ErroredMembers(queue[..n], codes[..n], x);
      assert forall k :: 0 <= k < n ==> queue[..n][k] == queue[k] && codes[..n][k] == codes[k];
    }
  }

  /** The errored slugs keep the order of the download list. */
  lemma {:induction false} ErroredSubsequence(queue: seq<string>, codes: seq<int>)
    requires |codes| == |queue|
    ensures IsSubsequence(Errored(queue, codes), queue)
  {
    if queue != [] {
      var n := |queue| - 1;
      ErroredSubsequence(queue[..n], codes[..n]);
      SubsequenceExtend(Errored(queue[..n], codes[..n]), queue[..n], queue[n],
        DownloadSong(queue[n], codes[n]) != "");
      assert queue == queue[..n] + [queue[n]];
    }
  }

  /** Download order is kept: the slugs recorded for two consecutive parts
      of the queue are those of the first part followed by those of the
      second. With the one-download case (`DownloadSong`), this fixes the
      result: position by position, the queued slugs whose code was
      non-zero. */
  lemma {:induction false} ErroredConcat(q1: seq<string>, c1: seq<int>, q2: seq<string>, c2: seq<int>)
    requires |c1| == |q1| && |c2| == |q2|
    ensures Errored(q1 + q2, c1 + c2) == Errored(q1, c1) + Errored(q2, c2)
    decreases |q2|
  {
    if q2 == [] {
      assert q1 + q2 == q1 && c1 + c2 == c1;
    } else {
      var n := |q2| - 1;
      ErroredConcat(q1, c1, q2[..n], c2[..n]);
      var q, c := q1 + q2, c1 + c2;
      assert q[..|q| - 1] == q1 + q2[..n] && c[..|c| - 1] == c1 + c2[..n];
      assert q[|q| - 1] == q2[n] && c[|c| - 1] == c2[n];
    }
  }

  /** The number of downloads that returned a non-zero code. */
  function FailedCount(codes: seq<int>): nat
  {
    if codes == [] then 0
    else FailedCount(codes[..|codes| - 1]) + (if codes[|codes| - 1] != 0 then 1 else 0)
  }

  /** When no slug is empty, one slug is recorded per failed download. */
  lemma {:induction false} ErroredCount(queue: seq<string>, codes: seq<int>)
    requires |codes| == |queue|
    requires forall k :: 0 <= k < |queue| ==> queue[k] != ""
    ensures |Errored(queue, codes)| == FailedCount(codes)
  {
    if queue != [] {
      var n := |queue| - 1;
      ErroredCount(queue[..n], codes[..n]);
    }
  }
}
