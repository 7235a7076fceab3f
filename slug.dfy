/** Extraction of a YouTube video id (the "slug") from a watch URL, as
    `get_youtube_slug` does it with two string splits and an index. */
module Slug {
  import opened PyBase

  /** The query-parameter marker that precedes the slug. */
  const Marker: string := "v="

  /** `link.split("v=", 1)[1].split("&", 1)[0]`: the index `[1]` raises
      IndexError when the marker is absent. */
  function YoutubeSlug(link: string): (r: Result<string>)
    ensures r.Failure? <==> !Occurs(link, Marker)
    ensures r.Failure? ==> r.error == IndexError
    ensures r.Success? ==> '&' !in r.value
  {
    SplitOnceCorrect(link, Marker);
    var parts := SplitOnce(link, Marker);
    if |parts| < 2 then
      Failure(IndexError)
    else
      var slug := SplitOnce(parts[1], "&")[0];
      AmpersandFree(parts[1]);
      Success(slug)
  }

  /** The first piece of a split on "&" holds no "&". */
  lemma AmpersandFree(s: string)
    ensures '&' !in SplitOnce(s, "&")[0]
  {
    SplitOnceCorrect(s, "&");
    var parts := SplitOnce(s, "&");
    forall k | 0 <= k < |parts[0]| ensures parts[0][k] != '&' {
      OccursAtChar(s, '&', k);
      if |parts| == 1 {
        assert !OccursAt(s, "&", k);
      } else {
        assert s[k] == (parts[0] + "&" + parts[1])[k];
      }
    }
  }

  /** The slug is exactly the text between the first "v=" and the next "&",
      or the end of the link when no "&" follows. */
  lemma SlugBetween(link: string, i: int, j: int)
    requires FirstOccurrence(link, Marker, i)
    requires i + 2 <= j <= |link|
    requires forall k :: i + 2 <= k < j ==> link[k] != '&'
    requires j == |link| || link[j] == '&'
    ensures YoutubeSlug(link) == Success(link[i + 2..j])
  {
    SplitOnceAt(link, Marker, i);
    var rest := link[i + 2..];
    assert SplitOnce(link, Marker)[1] == rest;
    if j == |link| {
      SplitOnceCorrect(rest, "&");
      forall k | 0 <= k <= |rest| ensures !OccursAt(rest, "&", k) {
        OccursAtChar(rest, '&', k);
      }
      assert !Occurs(rest, "&");
      assert SplitOnce(rest, "&")[0] == rest;
      assert link[i + 2..j] == rest;
    } else {
      forall k | 0 <= k < j - (i + 2) ensures !OccursAt(rest, "&", k) {
        OccursAtChar(rest, '&', k);
      }
      OccursAtChar(rest, '&', j - (i + 2));
      SplitOnceAt(rest, "&", j - (i + 2));
      assert rest[..j - (i + 2)] == link[i + 2..j];
    }
  }

  /** The worked example of a music-video link with a trailing playlist parameter. */
  lemma SlugOfWatchLink(link: string)
    requires link == WatchLink
    ensures YoutubeSlug(link) == Success("ABC123")
  {
    WatchLinkLayout(link);
    SlugBetween(link, 16, 24);
  }

  const WatchLink: string := "https://x/watch?v=ABC123&list=XYZ"

  lemma WatchLinkLayout(link: string)
    requires link == WatchLink
    ensures FirstOccurrence(link, Marker, 16) && |link| > 24 && link[24] == '&'
    ensures (forall k :: 18 <= k < 24 ==> link[k] != '&') && link[18..24] == "ABC123"
  {
    assert forall k | 0 <= k < 16 :: link[k] != 'v';
    forall k | 0 <= k < 16 ensures !OccursAt(link, Marker, k) {
      assert link[k..k + 2][0] == link[k];
    }
    assert link[16..18] == Marker;
  }
}
