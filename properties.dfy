/** What the crawl promises over whole runs: which links a run records, that
    it records each at most once, what the file holds afterwards, how an
    entry splits back into its time and link, and what the next run makes of
    the file. */
module CrawlProperties {
  import opened Strings
  import opened Classifier
  import opened LogStore
  import opened Crawler

  /** No link is recorded twice in one run: every link the run adds differs
      from every link before it, loaded or added. */
  lemma SeenDistinct(cur: seq<string>, cands: seq<string>)
    ensures var r := Seen(cur, cands);
      forall i, j :: 0 <= i < j < |r| && |cur| <= j ==> r[i] != r[j]
  {
    var r := Seen(cur, cands);
    SeenAdded(cur, cands);
    forall i, j | 0 <= i < j < |r| && |cur| <= j
      ensures r[i] != r[j]
    {
      assert r[..j][i] == r[i];
      assert r[j] !in r[..j];
    }
  }

  /** Every secure vacancy link the inner loop examines is in the list when
      the run ends: added then, or there already. */
  lemma {:induction false} SeenCovers(cur: seq<string>, cands: seq<string>)
    ensures forall c :: c in cands && Recordable(c) ==> c in Seen(cur, cands)
  {
    if cands != [] {
      var last := |cands| - 1;
      var before := Seen(cur, cands[..last]);
      var r := Seen(cur, cands);
      SeenCovers(cur, cands[..last]);
      assert cands == cands[..last] + [cands[last]];
      assert r[..|before|] == before;
      forall c | c in cands && Recordable(c)
        ensures c in r
      {
        if c in cands[..last] {
          assert c in r[..|before|];
        } else if c !in before {
          assert IsValidUrlVacancyForUpdate(c, before);
          assert r == before + [c];
        } else {
          assert c in r[..|before|];
        }
      }
    }
  }

  /** A list that already holds every secure vacancy link among the
      examined hrefs gains nothing. */
  lemma {:induction false} SeenStable(cur: seq<string>, cands: seq<string>)
    requires forall c :: c in cands && Recordable(c) ==> c in cur
    ensures Seen(cur, cands) == cur
  {
    if cands != [] {
      var last := |cands| - 1;
      assert forall c :: c in cands[..last] ==> c in cands;
      SeenStable(cur, cands[..last]);
      assert !IsValidUrlVacancyForUpdate(cands[last], cur);
    }
  }

  /** Running the inner loop again over the same hrefs, with the list kept
      in memory, adds nothing. */
  lemma SeenIdempotent(cur: seq<string>, cands: seq<string>)
    ensures Seen(Seen(cur, cands), cands) == Seen(cur, cands)
  {
    SeenCovers(cur, cands);
    SeenStable(Seen(cur, cands), cands);
  }

  /** A listing page visited twice in one run adds its links only on the
      first visit, whatever pages come before it and between the visits:
      the list after the second visit is the list before it. */
  lemma SamePageTwice(cur: seq<string>, pre: seq<string>, hrefs: seq<string>, mid: seq<string>)
    ensures Seen(cur, pre + hrefs + mid + hrefs) == Seen(cur, pre + hrefs + mid)
  {
    var first := pre + hrefs;
    var s := Seen(cur, first);
    var m := Seen(cur, first + mid);
    SeenConcat(cur, first, mid);
    SeenConcat(cur, first + mid, hrefs);
    SeenCovers(cur, first);
    forall c | c in hrefs && Recordable(c)
      ensures c in m
    {
      assert c in first;
      assert m[..|s|] == s;
      assert c in m[..|s|];
    }
    SeenStable(m, hrefs);
  }

  /** The links a run adds depend on the loaded list only through which
      secure vacancy links it holds: two lists that agree on those gain the
      same links in the same order. */
  lemma {:induction false} SeenSameMembership(cur1: seq<string>, cur2: seq<string>, cands: seq<string>)
    requires forall c :: c in cands && Recordable(c) ==> (c in cur1 <==> c in cur2)
    ensures Seen(cur1, cands)[|cur1|..] == Seen(cur2, cands)[|cur2|..]
  {
    if cands != [] {
      var last := |cands| - 1;
      var c := cands[last];
      SeenSameMembership(cur1, cur2, cands[..last]) by {
        assert forall x :: x in cands[..last] ==> x in cands;
      }
      var before1 := Seen(cur1, cands[..last]);
      var before2 := Seen(cur2, cands[..last]);
      var gained := before1[|cur1|..];
      assert before1 == cur1 + gained by {
        assert before1[..|cur1|] == cur1;
      }
      assert before2 == cur2 + gained by {
        assert before2[..|cur2|] == cur2;
      }
      SameVerdict(cur1, cur2, gained, c) by {
        assert c in cands;
      }
      if IsValidUrlVacancyForUpdate(c, before1) {
        assert Seen(cur1, cands) == cur1 + (gained + [c]);
        assert Seen(cur2, cands) == cur2 + (gained + [c]);
      }
    }
  }

  /** Two lists that agree on a secure vacancy link, extended by the same
      links, give it the same verdict. */
  lemma SameVerdict(cur1: seq<string>, cur2: seq<string>, gained: seq<string>, c: string)
    requires Recordable(c) ==> (c in cur1 <==> c in cur2)
    ensures IsValidUrlVacancyForUpdate(c, cur1 + gained) == IsValidUrlVacancyForUpdate(c, cur2 + gained)
  {
  }

  /** The example listing of three hrefs: the secure vacancy link is added;
      the insecure one and the non-vacancy one are not. */
  lemma ListingScenario()
    ensures Seen([], ["https://x.test/vacancy/1", "http://x.test/vacancy/2", "https://x.test/other/3"])
      == ["https://x.test/vacancy/1"]
  {
    SecureVacancyRecordable();
    InsecureNotRecordable();
    OtherNotRecordable();
    OnlyFirstAdded("https://x.test/vacancy/1", "http://x.test/vacancy/2", "https://x.test/other/3");
  }

  lemma SecureVacancyRecordable()
    ensures Recordable("https://x.test/vacancy/1")
  {
    assert "https://x.test/vacancy/1" == "https://x.test" + VacancyPath + "1";
    ContainsInfix("https://x.test", VacancyPath, "1");
  }

  lemma InsecureNotRecordable()
    ensures !Recordable("http://x.test/vacancy/2")
  {
    assert "http://x.test/vacancy/2"[4] != SecureScheme[4];
  }

  lemma OtherNotRecordable()
    ensures !Recordable("https://x.test/other/3")
  {
    var o3 := "https://x.test/other/3";
    assert 'v' !in o3;
    if Contains(o3, VacancyPath) {
      ContainsHasChars(o3, VacancyPath, 1);
    }
  }

  /** A list of three hrefs of which only the first is a secure vacancy
      link gains just that one, starting from an empty list. */
  lemma OnlyFirstAdded(v1: string, v2: string, o3: string)
    requires Recordable(v1) && !Recordable(v2) && !Recordable(o3)
    ensures Seen([], [v1, v2, o3]) == [v1]
  {
    var hrefs := [v1, v2, o3];
    assert hrefs[..0] == [];
    SeenStep([], hrefs, 0);
    SeenStep([], hrefs, 1);
    SeenStep([], hrefs, 2);
    assert hrefs[..3] == hrefs;
  }

  /** A run's first entry is the bare marker and every later one is a
      composite carrying the arrow; with a marker free of the arrow, the
      entries with the arrow are exactly one per added link. */
  lemma MarkerThenComposites(clock: nat -> string, added: seq<string>)
    requires !Contains(clock(0), Arrow)
    ensures var es := RunEntries(clock, added);
      && !Contains(es[0], Arrow)
      && forall k :: 1 <= k < |es| ==> Contains(es[k], Arrow) && es[k] == Composite(clock(k), added[k - 1])
  {
    RunEntriesShape(clock, added);
    var es := RunEntries(clock, added);
    forall k | 1 <= k < |es|
      ensures Contains(es[k], Arrow) && es[k] == Composite(clock(k), added[k - 1])
    {
      assert es[(k - 1) + 1] == Composite(clock(k), added[k - 1]);
      ContainsInfix(clock(k), Arrow, added[k - 1]);
    }
  }

  /** Splitting a recorded entry at the arrow gives back its time and its
      link, provided no arrow starts inside the time (no occurrence in the
      time followed by " >>>"). A link that itself holds the arrow comes back
      by joining the remaining pieces. */
  lemma CompositeRecovered(ts: string, url: string)
    requires !Contains(ts + " >>>", Arrow)
    ensures Split(Composite(ts, url), Arrow) == [ts] + Split(url, Arrow)
    ensures Join(Split(Composite(ts, url), Arrow)[1..], Arrow) == url
    ensures !Contains(url, Arrow) ==> Split(Composite(ts, url), Arrow) == [ts, url]
  {
    assert Arrow[..|Arrow| - 1] == " >>>";
    SplitAfter(ts, Arrow, url);
    assert Split(Composite(ts, url), Arrow)[1..] == Split(url, Arrow);
    JoinSplit(url, Arrow);
    if !Contains(url, Arrow) {
      SplitWhole(url, Arrow);
    }
  }

  /** A time without '>', such as "Mon Jan  2 15:04:05 2006" from
      `time.ctime()`, meets the hypothesis of CompositeRecovered. */
  lemma TimeWithoutAngle(ts: string)
    requires '>' !in ts
    ensures !Contains(ts + " >>>", Arrow)
  {
    var s := ts + " >>>";
    ContainsOccurs(s, Arrow);
    forall i | 0 <= i <= |s| - |Arrow|
      ensures !StartsWith(s[i..], Arrow)
    {
      if i + 1 < |ts| {
        assert s[i + 1] == ts[i + 1];
      } else {
        assert s[i + 1] == ' ';
      }
      assert s[i..][1] == s[i + 1];
    }
  }

  /** A time free of the arrow is not enough for CompositeRecovered: the
      time "a >>>" holds no " >>> ", yet its entry splits before the time
      ends. */
  lemma CompositeBoundaryMatters()
    ensures !Contains("a >>>", Arrow)
    ensures Split(Composite("a >>>", "u"), Arrow)[0] != "a >>>"
  {
    var ts := "a >>>";
    ContainsOccurs(ts, Arrow);
    assert !StartsWith(ts, Arrow) by {
      assert ts[0] != Arrow[0];
    }
    var s := Composite(ts, "u");
    assert s[1..][..|Arrow|] == Arrow;
    assert !StartsWith(s, Arrow) by {
      assert s[0] != Arrow[0];
    }
    SplitStep(s, Arrow);
    assert Split(s[1..], Arrow)[0] == "";
  }

  /** What the next run loads from the file: when no write fails and no
      time or link holds a newline, the lines of the file are its old lines
      (an empty old file gives one empty line) followed by the run's
      entries. */
  lemma {:induction false} RunLogReadBack(oldData: string, clock: nat -> string, added: seq<string>)
    requires forall k :: 0 <= k <= |added| ==> '\n' !in clock(k)
    requires forall k :: 0 <= k < |added| ==> '\n' !in added[k]
    ensures Lines(oldData + RunLog(clock, NoFailures, added)) ==
      (if oldData == "" then [""] else Lines(oldData)) + RunEntries(clock, added)
  {
    if added == [] {
      assert oldData + RunLog(clock, NoFailures, added) == oldData + Newline + clock(0);
      LinesAfterAppend(oldData, clock(0));
    } else {
      var n := |added|;
      var init := added[..n - 1];
      var entry := Composite(clock(n), added[n - 1]);
      RunLogReadBack(oldData, clock, init);
      var text := oldData + RunLog(clock, NoFailures, init);
      assert text != "" by {
        RunLogNonEmpty(clock, init);
      }
      AppendAssoc(oldData, RunLog(clock, NoFailures, init), Newline, entry);
      assert '\n' !in entry;
      LinesAfterAppend(text, entry);
    }
  }

  /** The condition on links in RunLogReadBack cannot be dropped: the
      scraper writes a link as it finds it, so a link holding a newline is
      read back by the next run as more than one line, and the lines no
      longer match the run's entries. */
  lemma ReadBackSplitsLinkWithNewline(oldData: string, clock: nat -> string, added: seq<string>, k: nat)
    requires k < |added| && '\n' in added[k]
    ensures Lines(oldData + RunLog(clock, NoFailures, added)) !=
      (if oldData == "" then [""] else Lines(oldData)) + RunEntries(clock, added)
  {
    var text := oldData + RunLog(clock, NoFailures, added);
    assert SingleLines(Lines(text)) by {
      LinesMeaning(text);
    }
    EntriesNotSingleLines(Lines(text), if oldData == "" then [""] else Lines(oldData), clock, added, k);
  }

  /** No line holds a newline. */
  predicate SingleLines(lines: seq<string>) {
    forall i :: 0 <= i < |lines| ==> '\n' !in lines[i]
  }

  /** Lines free of newlines are not a run's entries when an added link
      holds a newline. */
  lemma EntriesNotSingleLines(lines: seq<string>, prefix: seq<string>, clock: nat -> string, added: seq<string>, k: nat)
    requires SingleLines(lines) && k < |added| && '\n' in added[k]
    ensures lines != prefix + RunEntries(clock, added)
  {
    var at := EntryNewlineAt(clock, added, k);
    var listed := prefix + RunEntries(clock, added);
    assert listed[|prefix| + k + 1][at] == '\n';
  }

  /** Where the entry of a link holding a newline holds one. */
  lemma EntryNewlineAt(clock: nat -> string, added: seq<string>, k: nat) returns (at: nat)
    requires k < |added| && '\n' in added[k]
    ensures at < |RunEntries(clock, added)[k + 1]| && RunEntries(clock, added)[k + 1][at] == '\n'
  {
    var j :| 0 <= j < |added[k]| && added[k][j] == '\n';
    RunEntriesShape(clock, added);
    var e := RunEntries(clock, added)[k + 1];
    assert e == clock(k + 1) + Arrow + added[k];
    at := |clock(k + 1) + Arrow| + j;
    assert e[at] == '\n';
  }

  /** With no failing write, a run always appends something: the marker at
      least. */
  lemma RunLogNonEmpty(clock: nat -> string, added: seq<string>)
    ensures RunLog(clock, NoFailures, added) != ""
  {
  }

  /** The cross-run behaviour of the log as the scraper has it: the next
      run loads the file's raw lines, in which the links of this run sit
      inside composite entries, so over the same listing pages it adds
      (and records again) exactly the links this run added. This holds
      when no write fails, no time holds a newline or is a vacancy link,
      and no examined href holds a newline or the arrow. */
  lemma RelogAcrossRuns(oldData: string, clock: nat -> string, cands: seq<string>)
    requires forall k: nat :: '\n' !in clock(k) && !IsValidUrlVacancy(clock(k))
    requires forall c :: c in cands ==> '\n' !in c && !Contains(c, Arrow)
    ensures var start := Lines(oldData);
      var added := Seen(start, cands)[|start|..];
      var next := Lines(oldData + RunLog(clock, NoFailures, added));
      Seen(next, cands)[|next|..] == added
  {
    var start := Lines(oldData);
    var added := Seen(start, cands)[|start|..];
    AddedFromCandidates(start, cands);
    RunLogReadBack(oldData, clock, added);
    var prefix := if oldData == "" then [""] else Lines(oldData);
    var es := RunEntries(clock, added);
    var next := Lines(oldData + RunLog(clock, NoFailures, added));
    assert next == prefix + es;
    forall c | c in cands && Recordable(c)
      ensures c in start <==> c in next
    {
      EntriesNotRecordable(clock, added, c);
    }
    SeenSameMembership(start, next, cands);
  }

  /** Every link a run adds is one of the examined hrefs. */
  lemma AddedFromCandidates(cur: seq<string>, cands: seq<string>)
    ensures forall k :: 0 <= k < |Seen(cur, cands)[|cur|..]| ==> Seen(cur, cands)[|cur|..][k] in cands
  {
    SeenAdded(cur, cands);
    var r := Seen(cur, cands);
    forall k | 0 <= k < |r[|cur|..]|
      ensures r[|cur|..][k] in cands
    {
      assert r[|cur|..][k] == r[|cur| + k];
    }
  }

  /** No entry of a run is a secure vacancy link free of the arrow, when no
      time is a vacancy link: the marker is a time and the others carry the
      arrow. */
  lemma EntriesNotRecordable(clock: nat -> string, added: seq<string>, c: string)
    requires forall k: nat :: !IsValidUrlVacancy(clock(k))
    requires Recordable(c) && !Contains(c, Arrow)
    ensures c !in RunEntries(clock, added)
  {
    var es := RunEntries(clock, added);
    RunEntriesShape(clock, added);
    forall k | 0 <= k < |es|
      ensures es[k] != c
    {
      if k > 0 {
        assert es[(k - 1) + 1] == Composite(clock(k), added[k - 1]);
        ContainsInfix(clock(k), Arrow, added[k - 1]);
      }
    }
  }
}
