# Spotify playlist downloader — a verified model of its core

The program logs into Spotify, reads the track list of a (possibly private)
playlist from the embed page's `__NEXT_DATA__` JSON payload, turns every
track into a search query `"subtitle - title"`, and downloads each query as
audio unless a text log says it was downloaded before. Successful downloads
are appended to that log.

This Dafny project models the decision-making core of `main.py` as pure
functions and proves what it does:

| module | file | models |
|---|---|---|
| `Wrappers` | `wrappers.dfy` | `Option` and `Result` |
| `Text` | `text.dfy` | Python's `str.strip` (with the full `str.isspace` set), `str.split` on one character, and the subsequence relation |
| `Filenames` | `filenames.dfy` | `safe_filename` |
| `PlaylistId` | `playlist_id.dfy` | `extract_playlist_id` |
| `JsonValue` | `json.dfy` | the parsed payload, `dict.get`, `in`, truthiness, and `str()` of a value |
| `TrackSearch` | `track_search.dfy` | the fixed key path into the payload, the `KeyError` fallback and its nested depth-first search `dfs` |
| `TrackList` | `track_list.dfy` | the truthiness check on the raw list and the formatting loop; the whole extraction from payload to queries |
| `DownloadLog` | `download_log.dfy` | `load_downloaded_songs`, `log_downloaded_song`, the skip/log decision of `download_song` and the download loop of the main program |

Each operation is paired with an independent statement of what it means:
the search is proved equal to "the first report of a pre-order walk" and to
fail exactly when no object in the payload has both keys; the path-based id
extraction is proved equal to a prefix rule; the file-name filter is proved to
keep exactly the count of every allowed character; splitting is proved to join
back to its input; loading a log after an append is proved to add exactly what
the appended line reads back as (the stripped query, when it holds no line
break); and a whole run is proved only to append to the log and to grow the
next run's set by exactly what the downloaded queries read back as.

The log is read in text mode, so Python's universal newlines apply: `"\r\n"`
and a lone `'\r'` both end a line, just as `'\n'` does. The model reads the
log through that translation (`DownloadLog.Translate`) before splitting it
into lines.

Some consequences of the code as written, each proved as a lemma:

- A query with surrounding whitespace is logged as given but read back
  stripped, so it is never recognised as already downloaded and is fetched
  again on every run (`DownloadLog.DownloadedQueryIsRecognisedNextRun`).
- The loaded set is not updated during a run, so a track listed twice is
  downloaded and logged twice (`DownloadLog.RepeatedQueryDownloadedTwice`).
- A query holding a carriage return or a newline is logged as one entry but
  read back as several lines, or, when its only break is a trailing `'\r'`,
  as one line without it; either way it is fetched again on every run
  (`DownloadLog.CarriageReturnSplitsEntry`,
  `DownloadLog.DownloadedQueryIsRecognisedNextRun`).
- A log whose last line lacks its newline fuses that line with the next
  entry, whatever the lines before it (`DownloadLog.UnterminatedLogFusesEntry`);
  the program itself always leaves the log newline-terminated
  (`DownloadLog.RunExtendsLoadedSet`).
- The URL path `/playlist//x` yields the empty id rather than an error
  (`PlaylistId.EmptySegmentIsReturned`).
- When the fixed key path is missing, the fallback search returns the first
  matching node of a pre-order walk, which need not be the playlist's own
  track list (`TrackSearch.SearchIsFirstPreorderMatch`).

The fallback is meant to find a list of track objects. As written it also
accepts a single object with both keys, reported as a one-element list, and
a list of which only element 0 need have both keys; the model follows the
code.

## Model

| member | source | states |
|---|---|---|
| Text.Trim | main.py:48 | `strip` removes only characters of the given class, from both ends, and leaves neither end strippable; the result is a slice of the input |
| Text.TrimIdempotent | main.py:48 | stripping twice is the same as stripping once |
| Text.Split | main.py:29 | `split('/')` yields at least one piece, no piece contains the separator, and the pieces joined with the separator give the input back |
| Text.SplitJoin | main.py:29 | splitting the join of separator-free pieces gives the pieces back |
| Text.SplitHead | main.py:29-31 | the first piece is the text before the first separator, and the remaining pieces are the split of the text after it |
| Filenames.DropForbidden | main.py:48 | the filter leaves no forbidden character, keeps the others in order, and keeps every allowed character exactly as often as the input has it |
| Filenames.SafeFilename | main.py:47-48 | the file-name stem has none of `\ / : * ? " < > \|`, no surrounding whitespace, is a subsequence of the name, keeps every character that is neither forbidden nor whitespace, and is the filtered name less only the whitespace at its two ends |
| Filenames.SafeFilenameIdempotent | main.py:47-48 | sanitising a sanitised name changes nothing |
| PlaylistId.ExtractPlaylistId | main.py:22-34 | an input fully matching `[A-Za-z0-9]+` is returned unchanged; a URL that cannot be parsed raises; a returned id never contains `/` |
| PlaylistId.IdFromPathIsPrefixRule | main.py:27-31 | reading the second piece of the split path when the first is `playlist` is the same as taking the text after a leading `playlist/` up to the next `/` |
| PlaylistId.ExtractFromUrl | main.py:26-34 | for a non-raw input, an id is returned exactly when the slash-stripped path starts with `playlist/`, and it is the text after that prefix up to the next `/` |
| PlaylistId.PlaylistUrlRoundTrip | main.py:27-31 | a URL with path `/playlist/<id>`, optionally followed by `/...`, gives back `<id>` |
| PlaylistId.EmptySegmentIsReturned | main.py:29-31 | the path `/playlist//x` yields the empty id instead of raising |
| PlaylistId.EmptyInputFails | main.py:24-34 | the empty input with a path of slashes only raises |
| JsonValue.Get | main.py:190-191 | `dict.get` finds a value exactly when the key is present, and the value is the one stored under the key |
| TrackSearch.Search | main.py:167-182 | whatever `dfs` reports is a non-empty list whose element 0 has both a `title` and a `subtitle` key |
| TrackSearch.SearchItems | main.py:178-181 | the loop over a list's elements reports only such lists |
| TrackSearch.SearchFields | main.py:171-174 | the loop over a dict's values reports only such lists |
| TrackSearch.FirstMatch | main.py:167-182 | reference search: nothing is reported exactly when no node reports anything, and otherwise the report of the first node that has one |
| TrackSearch.SearchIsFirstPreorderMatch | main.py:167-183 | `dfs` returns exactly the first report of a pre-order walk over the payload |
| TrackSearch.SearchNoneIffNoTrack | main.py:167-183 | `dfs` returns `None` exactly when no object anywhere in the payload has both keys |
| TrackSearch.TrackListRaw | main.py:163-183 | the fixed path's value when every key is present; a `TypeError` exactly when the path runs into a non-dict; on a missing key the search's list, and `None` exactly when no object has both keys |
| TrackList.FormatTracks | main.py:188-195 | the loop fails on the first entry that is not a dict and otherwise yields exactly the `"subtitle - title"` lines of the kept entries |
| TrackList.FormatKeepsOrder | main.py:188-195 | the formatted list is no longer than the raw list, contains one line per entry with truthy title and subtitle, for every such entry, in the raw list's order |
| TrackList.FormatOneEntry | main.py:189-193 | an entry with non-empty string title and subtitle becomes `subtitle + " - " + title`; an entry missing either, or with an empty one, is dropped |
| TrackList.Tracks | main.py:163-195 | the extraction raises on the key path exactly when it runs into a non-dict; "Track list not found" exactly when the raw value is falsy; from a truthy list it is the formatting of that list; it fails on a missing `get` exactly for a truthy dict or string, or a list with a non-dict entry, and as not iterable exactly for a truthy number or boolean; it succeeds exactly from a truthy list of dicts |
| TrackList.TracksNotFoundIff | main.py:185-186 | "Track list not found" is raised exactly when the fixed path holds a falsy value, or a key is missing and no object has both keys |
| TrackList.FallbackFormatsFirstMatch | main.py:166-195 | on a missing key the searched list is what gets formatted, and its first entry contributes the first line when its fields are truthy |
| DownloadLog.Translate | main.py:39 | reading in text mode leaves no carriage return, and a text without one is read unchanged |
| DownloadLog.TranslateLineEnd | main.py:39 | a `'\r'` ends a line: it becomes one `'\n'`, together with a `'\n'` right after it; with `Translate`'s identity on text without `'\r'` this fixes the read text for every input |
| DownloadLog.TranslateConcat | main.py:39 | the translation of two pieces is the translation of each, unless the first ends in a `'\r'` |
| DownloadLog.TranslateLast | main.py:39 | a last character other than `'\r'` survives the translation |
| DownloadLog.LinesJoinBack | main.py:39-40 | iterating the lines of the read text loses nothing: the lines join back into it |
| DownloadLog.LinesShape | main.py:39-40 | every line is non-empty, holds a newline only at its end, and all but the last end in one |
| DownloadLog.LoadedEntriesAreStripped | main.py:36-40 | every loaded entry is non-empty, has no surrounding whitespace and no line break, and is a stripped line of the log |
| DownloadLog.AppendEntry | main.py:42-45 | after an append the log ends in a newline |
| DownloadLog.ReadLinesConcat | main.py:39-45 | after newline-terminated content, whatever follows is read into lines on its own |
| DownloadLog.LinesAppend | main.py:39-45 | appending an entry to a newline-terminated log adds the lines the entry reads as on its own: exactly one line, the entry with its newline, when the query holds no line break |
| DownloadLog.SplitEntryLines | main.py:39-45 | an entry with a carriage return inside reads back as the line before it and, unless empty, the line after it |
| DownloadLog.LinesFuse | main.py:39-40 | when a text does not end in a newline, its last line runs on into whatever follows and the lines before it are kept |
| DownloadLog.UnterminatedLogFusesEntry | main.py:39-45 | appending to a log of any length whose last line lacks a line break fuses that line with the entry; the earlier lines are kept |
| DownloadLog.LoadAppend | main.py:36-45 | the set loaded after an append is the previous set plus what the entry loads as on its own, which is the stripped entry, if non-empty, when the query holds no line break |
| DownloadLog.CarriageReturnSplitsEntry | main.py:36-45 | a query `a\rb` is logged as one entry and loaded back as the stripped `a` and the stripped `b` |
| DownloadLog.DownloadSong | main.py:50-80 | a query in the loaded set is skipped; otherwise it counts as downloaded exactly when the download succeeds; the log changes only on a download, and then by the query and a newline |
| DownloadLog.DownloadedQueryIsRecognisedNextRun | main.py:36-80 | after a successful download the query is in the next run's set exactly when it was already there or it is non-empty, has no surrounding whitespace and holds no line break |
| DownloadLog.RunDownloads | main.py:213-221 | every track is skipped exactly when it is in the start-up set, downloaded exactly when it is not and its download succeeds, and the log gains the downloaded queries in order |
| DownloadLog.RunOnlyAppends | main.py:42-45 | a run never rewrites what the log held: the old log is a prefix of the new one |
| DownloadLog.RecordedPlain | main.py:36-45 | queries without line breaks load back as their stripped, non-empty forms |
| DownloadLog.LoadAppended | main.py:36-45 | the set loaded after appending several entries is the previous set plus what each entry loads as on its own; their stripped, non-empty forms when none holds a line break |
| DownloadLog.RunExtendsLoadedSet | main.py:213-221 | after a run the log is still newline-terminated and the next run's set is this run's set plus what the downloaded queries load as; the stripped downloaded queries when no track holds a line break |
| DownloadLog.DownloadedAreTracks | main.py:220-221 | only queries of the track list are ever logged |
| DownloadLog.RepeatedQueryDownloadedTwice | main.py:213-221 | a query listed twice and not yet logged is downloaded and logged twice in one run |

## Left out

- Logging in and opening the embed page with Selenium, the waits and sleeps,
  and reading `__NEXT_DATA__` from the page: browser automation, the network
  and timing; the model starts from the parsed payload.
- `json.loads`: the payload is given already parsed; JSON numbers are
  integers only (floats are not modelled) and object keys are assumed
  distinct, as `json.loads` keeps one value per key.
- `urlparse`: `PlaylistId.ExtractPlaylistId` takes the parsed URL's path as an
  input, with `None` standing for a parse that raised.
- The `yt_dlp` download: its outcome is an input (`fetched`) of
  `DownloadLog.DownloadSong`; the download options, the `ytsearch:` query
  text and the `.mp3` path built from `safe_filename` are not modelled.
- The file system: the log is modelled as its text content, a missing file
  reads as empty, and `os.makedirs` and the file encoding are left out.
  Reading applies universal newlines; writing appends the query and a `'\n'`
  as on POSIX systems. On Windows a text-mode write turns each `'\n'` into
  `"\r\n"`, which reads back the same except where a `'\r'` in the query
  ends it or comes right before a `'\n'`: there the Windows file reads back
  with one extra empty line, so the loaded set is the same. That write-side
  translation is not modelled.
- Reading the environment variables and the `SystemExit` when one is
  missing, and all printing.
- JsonValue.Repr: Python's `repr` of a string is always rendered in single
  quotes, without Python's switch to double quotes or its escaping of special
  characters; it only matters for a title or subtitle that is a list or dict.
- DownloadLog.LoadAppend: like `DownloadLog.LinesAppend`, `DownloadLog.LoadAppended`,
  `DownloadLog.DownloadedQueryIsRecognisedNextRun` and
  `DownloadLog.RunExtendsLoadedSet`, it covers a log that is empty or ends in
  `'\n'`, as every write of the program leaves it; a hand-edited log ending in
  a lone `'\r'` is not covered, and one ending in any other character is the
  case of `DownloadLog.UnterminatedLogFusesEntry`.
