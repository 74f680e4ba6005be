/** The crawl of `update_vacancies`: one pass over the search page's links,
    a visit to every vacancy listing among them, and the recording of every
    new vacancy link found on those listings. Fetching and parsing pages,
    the clock and failing writes are inputs:
    - `mainHrefs`: the hrefs of the anchors in the search page's main region;
    - `listing(link)`: the hrefs of all anchors of the page at `link`;
    - `clock(n)`: what the `n`-th `time.ctime()` of the run returns
      (call 0 stamps the run marker);
    - `fails(n)`: whether the `n`-th `update_file` of the run hits a write
      error, which `update_file` swallows. */
module Crawler {
  import opened Wrappers
  import opened Strings
  import opened Classifier
  import opened LogStore

  /** What separates the time from the link in a recorded entry. */
  const Arrow: string := " >>> "

  /** The entry recorded for a new vacancy link. */
  function Composite(ts: string, url: string): string {
    ts + Arrow + url
  }

  /** Every href the inner loop examines, in order: for each main-region
      href that is a vacancy link, all hrefs of that listing page. An href
      is examined exactly when some vacancy link among `mainHrefs` lists it:
      non-vacancy links of the search page are never visited. */
  function Candidates(mainHrefs: seq<string>, listing: string -> seq<string>): (cands: seq<string>)
    ensures forall c :: c in cands ==> exists h :: h in mainHrefs && IsValidUrlVacancy(h) && c in listing(h)
    ensures forall h, c :: h in mainHrefs && IsValidUrlVacancy(h) && c in listing(h) ==> c in cands
  {
    if mainHrefs == [] then []
    else
      var before := mainHrefs[..|mainHrefs| - 1];
      var link := mainHrefs[|mainHrefs| - 1];
      assert mainHrefs == before + [link];
      Candidates(before, listing) + (if IsValidUrlVacancy(link) then listing(link) else [])
  }

  /** The in-memory list `current_urls` after the inner loop has examined
      `cands`, starting from `cur`. It only grows, with `cur` as prefix, by
      at most one link per examined href. */
  function Seen(cur: seq<string>, cands: seq<string>): (r: seq<string>)
    ensures |cur| <= |r| <= |cur| + |cands|
    ensures r[..|cur|] == cur
  {
    if cands == [] then cur
    else
      var before := Seen(cur, cands[..|cands| - 1]);
      var c := cands[|cands| - 1];
      if IsValidUrlVacancyForUpdate(c, before) then
        assert (before + [c])[..|before|] == before;
        before + [c]
      else
        before
  }

  /** Each link Seen gains was examined and passed
      IsValidUrlVacancyForUpdate against the list as it stood then. */
  lemma {:induction false} SeenAdded(cur: seq<string>, cands: seq<string>)
    ensures forall k :: |cur| <= k < |Seen(cur, cands)| ==>
      Seen(cur, cands)[k] in cands && IsValidUrlVacancyForUpdate(Seen(cur, cands)[k], Seen(cur, cands)[..k])
  {
    if cands != [] {
      var last := |cands| - 1;
      SeenAdded(cur, cands[..last]);
      var before := Seen(cur, cands[..last]);
      var r := Seen(cur, cands);
      forall k | |cur| <= k < |r|
        ensures r[k] in cands && IsValidUrlVacancyForUpdate(r[k], r[..k])
      {
        if k < |before| {
          assert r[..|before|] == before;
          assert r[k] == before[k] && r[..k] == before[..k];
          assert before[k] in cands[..last] && IsValidUrlVacancyForUpdate(before[k], before[..k]);
        } else {
          assert IsValidUrlVacancyForUpdate(cands[last], before);
          assert r == before + [cands[last]];
          assert r[..k] == before;
        }
      }
    }
  }

  /** The entries one run tries to write, in order: the bare marker
      `clock(0)`, then for the k-th link added the composite stamped by the
      (k+1)-th clock call. An entry whose write fails is missing from the
      file (see RunLog) while its link stays added. */
  function RunEntries(clock: nat -> string, added: seq<string>): (es: seq<string>)
    ensures |es| == |added| + 1
  {
    if added == [] then [clock(0)]
    else RunEntries(clock, added[..|added| - 1]) + [Composite(clock(|added|), added[|added| - 1])]
  }

  /** The run's first entry is the marker, and the one after it for the k-th
      added link is that link's composite. */
  lemma {:induction false} RunEntriesShape(clock: nat -> string, added: seq<string>)
    ensures RunEntries(clock, added)[0] == clock(0)
    ensures forall k :: 0 <= k < |added| ==> RunEntries(clock, added)[k + 1] == Composite(clock(k + 1), added[k])
  {
    if added != [] {
      var before := added[..|added| - 1];
      RunEntriesShape(clock, before);
    }
  }

  /** The text a run appends to the file when it adds the links `added`:
      `"\n"` and the marker for `update_file` call 0, then `"\n"` and the
      composite of the k-th added link, stamped by clock call k + 1, for call
      k + 1; a call whose write fails appends nothing. RunEntries lists what
      the run attempts, independent of failures, so that the shape of each
      entry can be stated on its own; RunLog is what reaches the file, and
      the two agree when no write fails (RunLogReadBack). */
  function RunLog(clock: nat -> string, fails: nat -> bool, added: seq<string>): string {
    if added == [] then (if fails(0) then "" else Newline + clock(0))
    else
      var n := |added|;
      RunLog(clock, fails, added[..n - 1]) + (if fails(n) then "" else Newline + Composite(clock(n), added[n - 1]))
  }

  /** No write fails. */
  function NoFailures(n: nat): bool {
    false
  }

  /** One more added link appends its composite after `base` and what the
      run wrote so far, unless that write fails. */
  lemma RunLogSnoc(base: string, clock: nat -> string, fails: nat -> bool, added: seq<string>, c: string)
    ensures var before := base + RunLog(clock, fails, added);
      base + RunLog(clock, fails, added + [c]) ==
        if fails(|added| + 1) then before else before + Newline + Composite(clock(|added| + 1), c)
  {
    assert (added + [c])[..|added|] == added;
    AppendAssoc(base, RunLog(clock, fails, added), Newline, Composite(clock(|added| + 1), c));
  }

  /** Before any link is added, the run has appended only the marker,
      unless that write failed. */
  lemma RunLogStart(base: string, clock: nat -> string, fails: nat -> bool)
    ensures base + RunLog(clock, fails, []) == if fails(0) then base else base + Newline + clock(0)
  {
    assert base + (Newline + clock(0)) == base + Newline + clock(0);
  }

  /** Regrouping a concatenation of four strings. */
  lemma AppendAssoc(a: string, b: string, c: string, d: string)
    ensures a + (b + (c + d)) == a + b + c + d
  {
  }

  /** One more examined href: Seen gains it exactly when it passes the
      test against the list so far. */
  lemma SeenStep(cur: seq<string>, hrefs: seq<string>, j: nat)
    requires j < |hrefs|
    ensures Seen(cur, hrefs[..j + 1]) ==
      var before := Seen(cur, hrefs[..j]);
      if IsValidUrlVacancyForUpdate(hrefs[j], before) then before + [hrefs[j]] else before
  {
    assert hrefs[..j + 1][..j] == hrefs[..j];
  }

  /** Examining `xs` and then `ys` is examining `xs + ys`: the list carries
      over from one listing page to the next. */
  lemma {:induction false} SeenConcat(cur: seq<string>, xs: seq<string>, ys: seq<string>)
    ensures Seen(cur, xs + ys) == Seen(Seen(cur, xs), ys)
    decreases |ys|
  {
    if ys == [] {
      assert xs + ys == xs;
    } else {
      var n := |ys| - 1;
      SeenConcat(cur, xs, ys[..n]);
      assert (xs + ys)[..|xs| + n] == xs + ys[..n];
      assert (xs + ys)[|xs| + n] == ys[n];
    }
  }

  /** One more main-region href adds its listing's hrefs when it is a
      vacancy link. */
  lemma CandidatesStep(mainHrefs: seq<string>, i: nat, listing: string -> seq<string>)
    requires i < |mainHrefs|
    ensures Candidates(mainHrefs[..i + 1], listing) ==
      Candidates(mainHrefs[..i], listing) + (if IsValidUrlVacancy(mainHrefs[i]) then listing(mainHrefs[i]) else [])
  {
    assert mainHrefs[..i + 1][..i] == mainHrefs[..i];
  }

  /** One more main-region href: the list after its listing page is Seen
      of the list so far over that page's hrefs, or unchanged when the href
      is not a vacancy link. */
  lemma SeenAcrossListings(start: seq<string>, mainHrefs: seq<string>, i: nat, listing: string -> seq<string>)
    requires i < |mainHrefs|
    ensures Seen(start, Candidates(mainHrefs[..i + 1], listing)) ==
      var before := Seen(start, Candidates(mainHrefs[..i], listing));
      if IsValidUrlVacancy(mainHrefs[i]) then Seen(before, listing(mainHrefs[i])) else before
  {
    CandidatesStep(mainHrefs, i, listing);
    if IsValidUrlVacancy(mainHrefs[i]) {
      SeenConcat(start, Candidates(mainHrefs[..i], listing), listing(mainHrefs[i]));
    } else {
      assert Candidates(mainHrefs[..i], listing) + [] == Candidates(mainHrefs[..i], listing);
    }
  }

  /** A list that extends `start + added` is `start` followed by `added`
      and what came after. */
  lemma Extended(start: seq<string>, added: seq<string>, before: seq<string>, after: seq<string>)
    requires before == start + added
    requires |before| <= |after| && after[..|before|] == before
    ensures after == start + (added + after[|before|..])
  {
    assert after == after[..|before|] + after[|before|..];
  }

  /** The inner loop of `update_vacancies` over the hrefs of one listing
      page: each href that passes IsValidUrlVacancyForUpdate against the
      list so far gets its composite entry written, stamped by the next
      clock call, and is then appended to the list. The list ends as Seen of
      the hrefs, and the file text ends as RunLog continued from `added` by
      the links this page added; `calls` counts the `update_file` calls so
      far and so numbers the next clock call and write. */
  method CheckListing(log: LogFile, clock: nat -> string, fails: nat -> bool, hrefs: seq<string>,
                      urls: seq<string>, calls: nat, ghost base: string, ghost added: seq<string>)
    returns (urls': seq<string>, calls': nat)
    requires log.Valid() && log.present && EndsWith(log.name, LogExtension)
    requires calls == |added| + 1
    requires log.contents == base + RunLog(clock, fails, added)
    modifies log
    ensures log.Valid() && log.present
    ensures urls' == Seen(urls, hrefs)
    ensures calls' == calls + |urls'| - |urls|
    ensures log.contents == base + RunLog(clock, fails, added + urls'[|urls|..])
  {
    urls', calls' := urls, calls;
    ghost var found: seq<string> := [];
    ghost var done := added;
    assert added + found == added;
    for j := 0 to |hrefs|
      invariant log.Valid() && log.present
      invariant urls' == urls + found && done == added + found && calls' == |done| + 1
      invariant urls' == Seen(urls, hrefs[..j])
      invariant log.contents == base + RunLog(clock, fails, done)
    {
      var vacancyUrl := hrefs[j];
      if !IsValidUrlVacancyForUpdate(vacancyUrl, urls') {
        assert urls' == Seen(urls, hrefs[..j + 1]) by { SeenStep(urls, hrefs, j); }
        continue;
      }
      var _ := log.UpdateFile(Composite(clock(calls'), vacancyUrl), fails(calls'));
      RunLogSnoc(base, clock, fails, done, vacancyUrl);
      assert urls' + [vacancyUrl] == Seen(urls, hrefs[..j + 1]) by { SeenStep(urls, hrefs, j); }
      SnocAssoc(urls, found, vacancyUrl);
      SnocAssoc(added, found, vacancyUrl);
      urls' := urls' + [vacancyUrl];
      done := done + [vacancyUrl];
      found := found + [vacancyUrl];
      calls' := calls' + 1;
    }
    assert hrefs[..|hrefs|] == hrefs;
    assert urls'[|urls|..] == found;
  }

  /** Appending one element after a concatenation. */
  lemma SnocAssoc(xs: seq<string>, ys: seq<string>, y: string)
    ensures (xs + ys) + [y] == xs + (ys + [y])
  {
  }

  /** `update_vacancies` on the file `log`. The file is created if missing
      and its lines are loaded as `current_urls`. A file name without `.txt`
      stops the run at the marker write, with nothing written. Otherwise the
      run appends RunLog of the links it adds, and `current_urls` ends as
      Seen of the loaded lines over all examined hrefs; a link whose write
      failed is still added to it. */
  method UpdateVacancies(log: LogFile, clock: nat -> string, fails: nat -> bool,
                         mainHrefs: seq<string>, listing: string -> seq<string>)
    returns (outcome: Outcome<FileError>, urls: seq<string>)
    requires log.Valid()
    modifies log
    ensures log.Valid() && log.present
    ensures outcome == (if EndsWith(log.name, LogExtension) then Pass else Fail(NameError))
    ensures outcome.Fail? ==> log.contents == old(log.contents) && urls == Lines(old(log.contents))
    ensures outcome.Pass? ==>
      var start := Lines(old(log.contents));
      && urls == Seen(start, Candidates(mainHrefs, listing))
      && log.contents == old(log.contents) + RunLog(clock, fails, urls[|start|..])
  {
    log.CheckOutputFile();
    var read := log.GetCurrentUrls();
    urls := read.value;
    ghost var start := urls;
    ghost var base := log.contents;
    outcome := log.UpdateFile(clock(0), fails(0));
    if outcome.Fail? {
      return;
    }
    var calls: nat := 1;
    ghost var added: seq<string> := [];
    RunLogStart(base, clock, fails);
    for i := 0 to |mainHrefs|
      invariant log.Valid() && log.present
      invariant urls == start + added && calls == |added| + 1
      invariant urls == Seen(start, Candidates(mainHrefs[..i], listing))
      invariant log.contents == base + RunLog(clock, fails, added)
    {
      var link := mainHrefs[i];
      SeenAcrossListings(start, mainHrefs, i, listing);
      if !IsValidUrlVacancy(link) {
        continue;
      }
      ghost var before := urls;
      urls, calls := CheckListing(log, clock, fails, listing(link), urls, calls, base, added);
      Extended(start, added, before, urls);
      added := added + urls[|before|..];
    }
    assert mainHrefs[..|mainHrefs|] == mainHrefs;
    assert urls[|start|..] == added;
  }
}
