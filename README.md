# plsync reconciliation core, in Dafny

`plsync.py` keeps a local music folder in step with YouTube Music
playlists. It reads the `purl` tag of every file in the folder and takes the
video id (the *slug*) from that URL. It lists the slugs of each playlist.
It queues every playlist slug that is not already local, asks for
confirmation, and downloads the queue one slug at a time. It records every
slug whose download returned a non-zero code.

This project models that logic and proves what it promises. The tag reader,
the playlist resolver and the downloader are replaced by inputs:

- the folder listing is a sequence of `FileRecord`s, each with a
  "supported format" flag and the first value of its `purl` tag, if any;
- the resolver is a function from URL to slug sequence;
- the user's reply to the prompt is a string;
- each download's return code is given by `codeOf(k)` for the k-th download.

Modules, one per file:

- `PyBase` (`pybase.dfy`) holds the Python behaviour the script relies on:
  an uncaught `IndexError` as `Result.Failure`, `str.split(sep, 1)` as
  `SplitOnce`, subsequences and duplicate-freedom.
- `Slug` (`slug.dfy`) is `get_youtube_slug`.
- `LocalLibrary` (`library.dfy`) is `find_local_songs`.
- `Reconcile` (`reconcile.dfy`) is `get_songs_needed` and `deduplicate`. A
  `SlugList` class stands for the Python list that `deduplicate` appends to
  in place.
- `Downloader` (`downloader.dfy`) is `download_song` and the download loop.
- `Driver` (`driver.dfy`) is `main`: URL selection, the fold over playlists,
  the confirmation, the download phase and the exit status.

Where the code and its documented intent disagree, the model follows the
code:

- A `purl` URL without `"v="` makes `get_youtube_slug` raise `IndexError`.
  `find_local_songs` does not catch it, so the whole run ends with that
  exception. The file is not skipped. `LocalSlugs` and `RunSync` model this
  as `Failure(IndexError)` and `Crashed(IndexError)`.
- `main` starts with a debugging `print(COOKIES_PATH); exit()`
  (plsync.py:177-178), which makes the rest of it unreachable. `RunSync`
  models the body after those two lines.

## Model

| member | source | states |
|---|---|---|
| `PyBase.SplitOnceCorrect` | plsync.py:72-73 | `str.split(sep, 1)` gives one piece, the whole string, exactly when `sep` does not occur. Otherwise it gives the text before and after the leftmost occurrence. |
| `PyBase.SplitOnceAt` | plsync.py:72-73 | If the leftmost `sep` is at `i`, the split is `[s[..i], s[i+|sep|..]]`. |
| `Slug.YoutubeSlug` | plsync.py:70-75 | Extraction fails with IndexError exactly when the link has no `"v="`. A slug never contains `"&"`. |
| `Slug.SlugBetween` | plsync.py:70-75 | The slug is the text between the first `"v="` and the next `"&"`, or the end of the link. |
| `Slug.SlugOfWatchLink` | plsync.py:70-75 | `https://x/watch?v=ABC123&list=XYZ` gives `ABC123`. |
| `LocalLibrary.Examine` | plsync.py:86-105 | One file fails the scan exactly when it is supported, has a purl, and the purl has no `"v="`. It is skipped exactly when it is unsupported, has no purl, or its slug is empty. Otherwise it gives its non-empty slug. |
| `LocalLibrary.LocalSlugs` | plsync.py:78-107 | Every slug the scan returns is non-empty and free of `"&"`. |
| `LocalLibrary.LocalSlugsFailure` | plsync.py:82-100 | The scan fails exactly when some file's slug extraction raises. |
| `LocalLibrary.LocalSlugsMembers` | plsync.py:82-105 | A slug is returned exactly when some file of the listing contributes it. |
| `LocalLibrary.LocalSlugsConcat` | plsync.py:82-107 | The scan of a concatenated listing is the first part's slugs followed by the second's. It fails when either part fails. So the result has one slug per contributing file, in listing order. |
| `LocalLibrary.FindLocalSongs` | plsync.py:78-107 | The loop computes `LocalSlugs` of the listing, including its failure. |
| `Reconcile.GetSongsNeeded` | plsync.py:143-149 | The loop computes `Needed(local, remote)`. |
| `Reconcile.NeededMembers` | plsync.py:143-149 | A slug is needed exactly when it is remote and not local. |
| `Reconcile.NeededSubsequence` | plsync.py:143-149 | The needed list is a subsequence of the remote list. |
| `Reconcile.NeededCount` | plsync.py:143-149 | A non-local slug is needed as many times as the remote list holds it. A local slug is needed zero times. There is no de-duplication. |
| `Reconcile.NeededConcat` | plsync.py:143-149 | Reconciling a concatenation is reconciling each part. |
| `Reconcile.NeededEmpty` | plsync.py:143-149 | Nothing is needed exactly when every remote slug is local. |
| `Reconcile.NeededIdempotent` | plsync.py:143-149 | Reconciling again against `local` plus what was needed gives `[]`. |
| `Reconcile.DedupAppendExtends` | plsync.py:168-172 | The original `list1` stays an unchanged prefix. Every appended item was absent from it. |
| `Reconcile.DedupAppendMembers` | plsync.py:168-172 | The result holds exactly the items of `list1` and `list2`. |
| `Reconcile.DedupAppendNoDup` | plsync.py:168-172 | A duplicate-free `list1` stays duplicate-free, even when `list2` repeats items. |
| `Reconcile.Deduplicate` | plsync.py:168-172 | Mutates `list1` in place and returns that same object. Its new contents are `DedupAppend(old contents, list2)`. It stays duplicate-free if it was. |
| `Downloader.DownloadSong` | plsync.py:153-165 | The result is `""` or the slug. It is non-empty exactly when the code is non-zero and the slug is non-empty. |
| `Downloader.DownloadAll` | plsync.py:224-231 | The counter ends at `len(download_list)`. The errored list is `Errored(download_list, codes)`. |
| `Downloader.ErroredMembers` | plsync.py:226-231 | A slug is recorded exactly when it is non-empty and some download of it returned a non-zero code. |
| `Downloader.ErroredSubsequence` | plsync.py:226-231 | The errored slugs are a subsequence of the download list. |
| `Downloader.ErroredConcat` | plsync.py:224-231 | The slugs recorded for two consecutive parts of the download list are the first part's followed by the second's. With `DownloadSong` for one download, this fixes the result position by position: the queued slugs whose code was non-zero, in download order, with repeats. |
| `Downloader.ErroredCount` | plsync.py:226-231 | With no empty slug, one slug is recorded per non-zero code. |
| `Driver.AssignArgsAsWritten` | plsync.py:191-192 | Copying by index assignment into a list `start` fails with IndexError exactly when there are more arguments than `start` has slots. |
| `Driver.PlaylistUrlsAsWritten` | plsync.py:188-192 | As written, any command-line argument makes URL selection raise IndexError. With none, the defaults are used. |
| `Driver.PlaylistUrls` | plsync.py:188-192 | As intended, the arguments after the program name are used, in order. Without arguments, the defaults are used. |
| `Driver.Accumulate` | plsync.py:199-207 | The loop gives `download_list == DownloadQueue(local, playlists)` and `found_songs == local ++ download_list`. `unique_pl_list` is `UniqueSongs(playlists)`. |
| `Driver.QueueMembers` | plsync.py:199-207 | Nothing local is queued. A slug is queued exactly when some playlist lists it and it is not local. |
| `Driver.QueuePrefix` | plsync.py:199-207 | The queue after the first `i` playlists is a prefix of the final queue. |
| `Driver.NotRequeued` | plsync.py:199-207 | A slug queued for playlist `i` is not queued again for any later playlist `j`. |
| `Driver.QueueCount` | plsync.py:199-207 | A non-local slug is queued as many times as the first playlist that lists it holds it. |
| `Driver.FoldIdempotent` | plsync.py:203-207 | Reconciling any playlist again against the final `found_songs` gives `[]`. |
| `Driver.UniqueSongsProperties` | plsync.py:200-205 | `unique_pl_list` is duplicate-free. It holds exactly the slugs listed by some playlist. |
| `Driver.QueueWithinUnique` | plsync.py:199-214 | Every queued slug is in `unique_pl_list`. |
| `Driver.QueueLongerThanUnique` | plsync.py:214 | One playlist `["a", "a"]` queues 2 slugs against 1 unique slug. The "X of Y" message can have X > Y. |
| `Driver.OnePlaylistExample` | plsync.py:199-214 | Local `id1, id2` and a playlist `id2, id3, id4` queue `id3, id4`, out of 3 unique slugs. |
| `Driver.RunSync` | plsync.py:180-238 | A failing scan ends in `Crashed`. No URL gives `NoUrl`. An empty queue gives `NothingToDo`, with no prompt. A reply other than exactly `"y"`/`"Y"`, when asking is configured, gives `Declined`. Otherwise every queued slug is downloaded once, in order, and the errored list is reported. |
| `Driver.ExitStatusAsWritten` | plsync.py:240-244 | As written, the process status is non-zero only for an escaping exception. |
| `Driver.NoUrlExitsZeroAsWritten` | plsync.py:194-196 | As written, a run without a usable URL exits with status 0. |
| `Driver.ExitStatus` | plsync.py:194-196 | As intended, the status is 1 exactly for a run without a usable URL or one that crashed. |

## Findings

| source | as written | input that shows it | evidently intended | confidence | as-written member | corrected member |
|---|---|---|---|---|---|---|
| plsync.py:190-192 | `playlist_urls = []` then `playlist_urls[i-1] = sys_argv[i]`: index assignment into an empty list | any command-line argument, e.g. `plsync.py URL` | append each argument in order (`playlist_urls = sys_argv[1:]`) | high; not executed | `Driver.PlaylistUrlsAsWritten` | `Driver.PlaylistUrls` |
| plsync.py:195-196, 240-242 | `main` returns 1 when no URL is usable, but `main()`'s result is discarded | empty default list and no arguments: status 0 | `exit(main())`, status 1 as the error message implies | medium; not executed | `Driver.NoUrlExitsZeroAsWritten` | `Driver.ExitStatus` |

`RunSync` uses the corrected URL selection.

## Left out

- The remote playlist resolver (`find_playlist_songs_ytdlp`, plsync.py:110-138) is not modelled. It is a network call into yt-dlp. `RunSync` takes its results as the function `resolve`. An "invalid link" is the empty sequence. A network error that escapes the resolver is not modelled.
- `TinyTag.is_supported` and `TinyTag.get` are file I/O and tag parsing. They become the `supported` and `purl` fields of `FileRecord`. `purl` is the first value of the tag's list (`purl[0]`). A tag with an empty value list is not represented.
- `LocalLibrary.LocalSlugsFailure`: the scan is modelled as failing only through the `IndexError` of slug extraction. `TinyTag.get` (plsync.py:90) can also raise, for a corrupt file or for a directory whose name looks like an audio file (`os.listdir` lists directories too, and `is_supported` only looks at the name). Such an exception also ends the run, but `FileRecord` cannot represent it. So this lemma, `LocalLibrary.FindLocalSongs` and the `Crashed` case of `Driver.RunSync` hold only for listings whose tags can all be read.
- `Driver.RunSync`: "every queued slug is downloaded once" assumes that `ytdl.download` (plsync.py:158) returns a code. An exception escaping it ends the run part-way through the download list. The integer code per download cannot represent that, so the model does not cover it.
- `ytdl.download` is the downloader. It becomes the integer code per download. The `ytdl` object itself is not modelled.
- `YDL_OPTS`, `YDL_DATA_OPTS`, the rsgain post-processor and `path.abspath` (plsync.py:27-68) are configuration for external tools. `CONFIG_MUSIC_PATH` and `CONFIG_COOKIES_PATH` only feed them and are left out too.
- `CONFIG_DEFAULT_PLAYLIST_URLS` and `CONFIG_ASK_BEFORE_DOWNLOADING` (plsync.py:22-24) are not fixed in the model. `RunSync` takes them as its `config` parameter, so every choice of defaults is covered.
- Console output (`print`) and the prompt (`input`) are left out. The prompt's reply is the `answer` parameter.
- The debugging `print(COOKIES_PATH); exit()` (plsync.py:177-178) is left out, as is the `KeyboardInterrupt` handler (plsync.py:241-244). An interrupt is an external signal.
- The `isinstance(playlist_urls[0], str)` test (plsync.py:194) always holds in the model, because URLs are typed as strings.
- `Reconcile.Deduplicate` takes `list2` as a value, so the aliased call `deduplicate(l, l)` is not represented. In Python that call appends nothing, which matches what the model computes for an equal value.
- The model does not claim that the queue is no longer than `unique_pl_list`. `Driver.QueueLongerThanUnique` shows it can be longer.
