# hh_parser vacancy log — Dafny model

hh_parser crawls a job-search results page, follows each link on it that
points at a vacancy page, and appends every new secure vacancy link it
finds there to a plain-text log file (`vacancies.txt`). Each run first
appends a bare `time.ctime()` marker. Each new link is then appended as
`"<time> >>> <link>"`. Links are deduplicated against the file's lines,
loaded once at the start of the run, and against the links added during
the run.

The model covers `main.py` apart from the fetching:

- `strings.dfy` (module `Strings`): the Python string operations the code
  relies on. These are `in` on strings, `startswith`, `endswith`,
  `str.split(sep)` and `sep.join`. Joining a split gives back the text for
  any separator; splitting a join gives back the pieces for a
  one-character separator such as `"\n"` (for `" >>> "` it does not:
  `["a >>>", "b"]` comes back as `["a", ">>> b"]`).
- `classifier.dfy` (module `Classifier`): `is_valid_url_vacancy` and
  `is_valid_url_vacancy_for_update`.
- `log_store.dfy` (module `LogStore`): the log file as a class `LogFile`
  whose fields are whether the file exists and its text. Its methods are
  `check_output_file`, `get_current_urls` and `update_file`. The function
  `Lines` is the split `get_current_urls` performs.
- `crawler.dfy` (module `Crawler`): `update_vacancies` as a method with
  the source's two nested loops. The inner loop is its own method,
  `CheckListing`. Both are proved against specification functions:
  - `Candidates`: the hrefs the inner loop examines;
  - `Seen`: the in-memory `current_urls` after examining them;
  - `RunEntries`: the entries one run tries to write;
  - `RunLog`: the text one run appends.
- `properties.dfy` (module `CrawlProperties`): properties of whole runs.
  These cover deduplication, idempotence, the example listing, the shape
  of the entries and how they split back, what the next run reads, and
  the cross-run behaviour.

The fetch and its environment become inputs:

- `mainHrefs`: the hrefs of the search page's main region.
- `listing`: maps a link to the hrefs of that page.
- `clock(n)`: the value of the n-th `time.ctime()` call of the run.
- `fails(n)`: whether the n-th `update_file` call of the run hits a write
  error. The source swallows that error.

The cross-run behaviour is kept as written. The seen-list is loaded from
the raw lines of the file, and a link recorded by an earlier run sits
inside a `"<time> >>> <link>"` line. So the link never matches that line,
and a later run over the same pages records the same links again.
`RelogAcrossRuns` states this.

## Model

| member | source | states |
|---|---|---|
| Strings.ContainsOccurs | main.py:36 | the substring test `pat in s` holds exactly when some position of `s` starts a copy of `pat` |
| Strings.JoinSplit | main.py:88 | joining the pieces of `s.split(sep)` with `sep` gives back `s` |
| Strings.SplitPieces | main.py:88 | no piece of `s.split(sep)` contains `sep`, and `s` starts with the first piece |
| Strings.SplitJoin | main.py:88 | with a one-character separator, splitting the join of pieces free of it (at least one piece) gives back the pieces |
| Strings.SplitAppend | main.py:68 | appending `sep + b`, with `b` free of the one-character `sep`, adds exactly the piece `b` to the split |
| Strings.SplitAfter | main.py:139 | `(a + sep + b).split(sep)` is `[a]` followed by `b.split(sep)` when no copy of `sep` starts inside `a` |
| Strings.SplitAfterOnlyIf | main.py:139 | conversely, when a copy of `sep` starts inside `a`, the first piece of `(a + sep + b).split(sep)` is not `a` |
| Strings.FirstPieceBeforeOccurrence | main.py:88 | the first piece of `s.split(sep)` ends no later than any occurrence of `sep` in `s` |
| Strings.ContainsInfix | main.py:139 | a pattern placed between two strings is found in the result |
| Classifier.VacancyLinkOccurs | main.py:36-38 | `is_valid_url_vacancy` holds exactly when `/vacancy/` occurs at some position of the URL |
| Classifier.UpdateCheckMeaning | main.py:49-51 | `is_valid_url_vacancy_for_update` accepts exactly when the slice of the URL at some position is `/vacancy/`, its first five characters are `https`, and no entry of the list equals it; so accepted links are vacancy links and listed links are refused |
| LogStore.Lines | main.py:86-88 | an empty file has no lines (not one empty line), and any non-empty text has at least one |
| LogStore.LinesMeaning | main.py:86-88 | joining the lines with newlines gives back the non-empty text, and no line holds a newline |
| LogStore.LinesJoin | main.py:86-88 | lines without newlines, joined into non-empty text, read back as exactly those lines |
| LogStore.LinesAfterAppend | main.py:66-68 | after appending `"\n" + entry` (an entry without a newline) the lines read back are the old lines plus `entry`; an empty file gives `["", entry]` |
| LogStore.LogFile.CheckOutputFile | main.py:98-100 | afterwards the file exists; a missing file is created empty and an existing file keeps its text |
| LogStore.LogFile.GetCurrentUrls | main.py:81-88 | reading a missing file fails; otherwise the result is the file's `Lines` |
| LogStore.LogFile.UpdateFile | main.py:63-71 | a name not ending in `.txt` fails with nothing written; otherwise the text becomes old text + `"\n"` + entry, or stays as it was when the write fails |
| Crawler.Candidates | main.py:121-131 | an href is examined exactly when some vacancy link of the main region lists it; non-vacancy links of the search page are never visited |
| Crawler.Seen | main.py:131-141 | the list only grows, keeps its loaded prefix, and gains at most one link per examined href |
| Crawler.SeenAdded | main.py:136-141 | every link the list gains was examined, and passed `is_valid_url_vacancy_for_update` against the list as it stood then |
| Crawler.SeenConcat | main.py:115-141 | the list carries over from one listing page to the next: examining `xs` then `ys` is examining `xs + ys` |
| Crawler.RunEntries | main.py:119-141 | a run tries to write one entry more than the links it adds: the marker and one composite per link |
| Crawler.RunEntriesShape | main.py:119-139 | the first entry is the marker `clock(0)`; the entry after it for the k-th added link is `clock(k+1) + " >>> " + link` |
| Crawler.CheckListing | main.py:131-142 | the inner loop leaves the list as `Seen` of the page's hrefs and appends `RunLog` of the links it added, numbering clock calls and writes on |
| Crawler.UpdateVacancies | main.py:113-142 | without `.txt` the run stops at the marker with the file unchanged; otherwise the list ends as `Seen` of the loaded lines over `Candidates`, and the file as old text + `RunLog` of the links added, so a failed write drops its entry from the file but not its link from the list |
| CrawlProperties.SeenDistinct | main.py:136-141 | no link is recorded twice in a run: each added link differs from every link before it |
| CrawlProperties.SeenCovers | main.py:136-141 | every examined secure vacancy link is in the list at the end |
| CrawlProperties.SeenStable | main.py:136-141 | a list already holding every examined secure vacancy link gains nothing |
| CrawlProperties.SeenIdempotent | main.py:131-141 | examining the same hrefs again with the list kept in memory adds nothing |
| CrawlProperties.SamePageTwice | main.py:121-141 | a listing page visited twice in one run, with any pages before the first visit and between the two, adds its links only on the first visit |
| CrawlProperties.SeenSameMembership | main.py:115-136 | the links a run adds depend on the loaded list only through which secure vacancy links it holds |
| CrawlProperties.AddedFromCandidates | main.py:131-141 | every link a run adds is one of the examined hrefs |
| CrawlProperties.SecureVacancyRecordable | main.py:49-51 | `https://x.test/vacancy/1` passes the shape test of the update check |
| CrawlProperties.InsecureNotRecordable | main.py:49-51 | `http://x.test/vacancy/2` fails it, for its scheme |
| CrawlProperties.OtherNotRecordable | main.py:49-51 | `https://x.test/other/3` fails it, for its path |
| CrawlProperties.OnlyFirstAdded | main.py:136-141 | of three hrefs where only the first is a secure vacancy link, an empty list gains just the first |
| CrawlProperties.ListingScenario | main.py:131-141 | the listing `[https://x.test/vacancy/1, http://x.test/vacancy/2, https://x.test/other/3]` adds only the first link |
| CrawlProperties.MarkerThenComposites | main.py:119-139 | given a marker without the arrow (as `TimeWithoutAngle` shows `ctime` values are), the marker comes first and every later entry is its link's composite carrying the arrow, one per added link |
| CrawlProperties.CompositeRecovered | main.py:139 | splitting an entry at `" >>> "` gives back its time and its link, when no arrow starts inside the time |
| CrawlProperties.TimeWithoutAngle | main.py:139 | a time without `>`, as `time.ctime()` produces, meets that condition |
| CrawlProperties.CompositeBoundaryMatters | main.py:139 | a time merely free of `" >>> "` is not enough: `"a >>>"` splits early |
| CrawlProperties.RunLogReadBack | main.py:66-88 | when no write fails and no time or added link holds a newline, the next run reads the old lines (or `[""]` for an empty file) followed by this run's entries |
| CrawlProperties.ReadBackSplitsLinkWithNewline | main.py:132-139 | the condition on links cannot be dropped: when an added link holds a newline, the lines the next run reads are not the old lines followed by this run's entries |
| CrawlProperties.EntriesNotRecordable | main.py:119-139 | no entry of a run is a secure vacancy link free of the arrow when no time is a vacancy link |
| CrawlProperties.RelogAcrossRuns | main.py:115-139 | the next run over the same pages adds exactly the links this run added, because composite lines never match plain links |

## Left out

- `get_bs_page` (HTTP request, URL stripping and HTML parsing) is replaced by the inputs `mainHrefs` and `listing`; request failures, which abort the run, are not modelled.
- An anchor without an `href` (a `KeyError`) and a page without a main region (an `AttributeError`) abort the run in the source; the model assumes every anchor has an href.
- `time.sleep(2)`, the `print` calls and `traceback.print_exc()` have no effect on the file or the list and are left out.
- `time.ctime()` is the parameter `clock`; the model does not fix its format beyond the hypotheses the lemmas state.
- Which `update_file` writes fail is the parameter `fails`; a write is all or nothing, so partial writes are not modelled.
- The file is one `LogFile` object used by one process; other processes, text-mode newline translation and encodings are not modelled.
- Crawler.UpdateVacancies: returns the final `current_urls`, which the source keeps in a local variable, and a `NameError` is returned as `Fail(NameError)` instead of raised.
- Crawler.CheckListing: the inner loop of `update_vacancies` is a method of its own; its steps are those of the source loop.
- LogStore.LogFile.GetCurrentUrls: its `FileNotFound` result cannot arise inside `update_vacancies`, which creates the file first.
- CrawlProperties.RunLogReadBack: stated only for runs in which no write fails and no time or added link holds a newline; the source writes an href as it finds it, and `ReadBackSplitsLinkWithNewline` shows the read-back differs for a link holding a newline.
- CrawlProperties.RelogAcrossRuns: stated for runs in which no write fails, no time holds a newline or is a vacancy link, and no examined href holds a newline or `" >>> "`.
- The `__main__` block and the `conf` headers are not part of this model.
