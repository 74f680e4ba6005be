/** The Python string operations the scraper relies on: `str.startswith`,
    `str.endswith`, the substring test `pat in s`, `str.split(sep)` and
    `sep.join(parts)`. Strings are sequences of characters. */
module Strings {

  /** `s.startswith(prefix)` */
  predicate StartsWith(s: string, prefix: string) {
    |prefix| <= |s| && s[..|prefix|] == prefix
  }

  /** `s.endswith(suffix)` */
  predicate EndsWith(s: string, suffix: string) {
    |suffix| <= |s| && s[|s| - |suffix|..] == suffix
  }

  /** `pat in s`: scans `s` from the left for an occurrence of `pat`. */
  function Contains(s: string, pat: string): bool
    decreases |s|
  {
    StartsWith(s, pat) || (s != [] && Contains(s[1..], pat))
  }

  /** The scan of Contains finds `pat` exactly when some position of `s`
      starts a copy of it. */
  lemma {:induction false} ContainsOccurs(s: string, pat: string)
    ensures Contains(s, pat) <==> exists i :: 0 <= i <= |s| - |pat| && StartsWith(s[i..], pat)
    decreases |s|
  {
    assert s[0..] == s;
    if s != [] {
      ContainsOccurs(s[1..], pat);
      assert forall i :: 1 <= i <= |s| ==> s[i..] == s[1..][i - 1..];
      if exists i :: 0 <= i <= |s| - |pat| && StartsWith(s[i..], pat) {
        var i :| 0 <= i <= |s| - |pat| && StartsWith(s[i..], pat);
        if i > 0 {
          assert StartsWith(s[1..][i - 1..], pat);
        }
      }
    }
  }

  /** `sep.join(parts)` */
  function Join(parts: seq<string>, sep: string): string {
    if |parts| == 0 then ""
    else if |parts| == 1 then parts[0]
    else parts[0] + sep + Join(parts[1..], sep)
  }

  /** `s.split(sep)` for a non-empty separator: the text is cut at every
      occurrence of `sep`, found from the left without overlaps. */
  function Split(s: string, sep: string): (parts: seq<string>)
    requires sep != []
    decreases |s|
    ensures |parts| >= 1
  {
    if StartsWith(s, sep) then [""] + Split(s[|sep|..], sep)
    else if s == [] then [""]
    else
      var rest := Split(s[1..], sep);
      [[s[0]] + rest[0]] + rest[1..]
  }

  /** Joining the pieces of a split with the separator gives back the text. */
  lemma {:induction false} JoinSplit(s: string, sep: string)
    requires sep != []
    ensures Join(Split(s, sep), sep) == s
    decreases |s|
  {
    if StartsWith(s, sep) {
      var rest := Split(s[|sep|..], sep);
      JoinSplit(s[|sep|..], sep);
      assert Split(s, sep) == [""] + rest;
      JoinCons("", rest, sep);
      assert "" + sep + s[|sep|..] == s;
    } else if s != [] {
      var rest := Split(s[1..], sep);
      JoinSplit(s[1..], sep);
      SplitStep(s, sep);
      JoinSplitStep(s[0], rest, sep);
      assert [s[0]] + s[1..] == s;
    }
  }

  /** Putting a character in front of the first piece puts it in front of
      the joined text. */
  lemma JoinSplitStep(c: char, rest: seq<string>, sep: string)
    requires |rest| >= 1
    ensures Join([[c] + rest[0]] + rest[1..], sep) == [c] + Join(rest, sep)
  {
    var first := [c] + rest[0];
    if |rest| > 1 {
      JoinCons(first, rest[1..], sep);
      JoinCons(rest[0], rest[1..], sep);
      assert [rest[0]] + rest[1..] == rest;
      assert first + sep + Join(rest[1..], sep) == [c] + (rest[0] + sep + Join(rest[1..], sep));
    } else {
      assert [first] + rest[1..] == [first];
    }
  }

  /** Joining a list of at least two pieces puts the separator after the
      first one. */
  lemma JoinCons(first: string, rest: seq<string>, sep: string)
    requires |rest| >= 1
    ensures Join([first] + rest, sep) == first + sep + Join(rest, sep)
  {
    assert ([first] + rest)[1..] == rest;
  }

  /** No piece of a split holds the separator, and the first piece is where
      the text begins. */
  lemma {:induction false} SplitPieces(s: string, sep: string)
    requires sep != []
    ensures StartsWith(s, Split(s, sep)[0])
    ensures forall k :: 0 <= k < |Split(s, sep)| ==> !Contains(Split(s, sep)[k], sep)
    decreases |s|
  {
    if StartsWith(s, sep) {
      SplitPieces(s[|sep|..], sep);
    } else if s != [] {
      var rest := Split(s[1..], sep);
      SplitPieces(s[1..], sep);
      var first := [s[0]] + rest[0];
      assert first == s[..|first|];
      assert !StartsWith(first, sep) by {
        if |sep| <= |first| {
          assert first[..|sep|] == s[..|sep|];
        }
      }
      assert !Contains(first, sep) by {
        assert first[1..] == rest[0];
      }
    }
  }

  /** A one-character pattern occurs exactly when the character does. */
  lemma ContainsChar(s: string, c: char)
    ensures Contains(s, [c]) <==> c in s
  {
    ContainsOccurs(s, [c]);
    assert forall i :: 0 <= i < |s| ==> (StartsWith(s[i..], [c]) <==> s[i] == c) by {
      forall i | 0 <= i < |s| ensures StartsWith(s[i..], [c]) <==> s[i] == c {
        assert s[i..][..1] == [s[i]];
      }
    }
  }

  /** A pattern placed between two strings is found in the result. */
  lemma ContainsInfix(a: string, pat: string, b: string)
    ensures Contains(a + pat + b, pat)
  {
    var s := a + pat + b;
    assert s[|a|..][..|pat|] == pat;
    assert StartsWith(s[|a|..], pat);
    ContainsOccurs(s, pat);
  }

  /** Every character of an occurring pattern is a character of the text. */
  lemma ContainsHasChars(s: string, pat: string, k: nat)
    requires Contains(s, pat) && k < |pat|
    ensures pat[k] in s
  {
    ContainsOccurs(s, pat);
    var i :| 0 <= i <= |s| - |pat| && StartsWith(s[i..], pat);
    assert s[i + k] == pat[k];
  }

  /** Without an occurrence of `sep`, the text splits into itself. */
  lemma {:induction false} SplitWhole(s: string, sep: string)
    requires sep != [] && !Contains(s, sep)
    ensures Split(s, sep) == [s]
    decreases |s|
  {
    if s != [] {
      SplitWhole(s[1..], sep);
      assert [s[0]] + s[1..] == s;
    }
  }

  /** The first occurrence of `sep` in `a + sep + b` is the one after `a`
      exactly when no copy of `sep` begins inside `a`, that is, none occurs
      in `a` followed by all but the last character of `sep`. Then the
      first piece is `a` and the rest is how `b` splits. */
  lemma {:induction false} SplitAfter(a: string, sep: string, b: string)
    requires sep != [] && !Contains(a + sep[..|sep| - 1], sep)
    ensures Split(a + sep + b, sep) == [a] + Split(b, sep)
    decreases |a|
  {
    var s := a + sep + b;
    if a == [] {
      assert s == sep + b && s[|sep|..] == b;
    } else {
      var head := a + sep[..|sep| - 1];
      assert !StartsWith(s, sep) by {
        assert s[..|sep|] == head[..|sep|];
      }
      assert !Contains(a[1..] + sep[..|sep| - 1], sep) by {
        assert head[1..] == a[1..] + sep[..|sep| - 1];
      }
      SplitAfter(a[1..], sep, b);
      assert s[1..] == a[1..] + sep + b;
      SplitStep(s, sep);
      assert [s[0]] + a[1..] == a;
    }
  }

  /** The converse of SplitAfter: when a copy of `sep` begins inside `a`,
      the first piece of `a + sep + b` ends before `a` does. */
  lemma SplitAfterOnlyIf(a: string, sep: string, b: string)
    requires sep != [] && Contains(a + sep[..|sep| - 1], sep)
    ensures Split(a + sep + b, sep)[0] != a
  {
    var head := a + sep[..|sep| - 1];
    var s := a + sep + b;
    ContainsOccurs(head, sep);
    var i :| 0 <= i <= |head| - |sep| && StartsWith(head[i..], sep);
    assert StartsWith(s[i..], sep) by {
      forall k | 0 <= k < |sep|
        ensures s[i..][..|sep|][k] == sep[k]
      {
        assert s[i + k] == head[i + k];
        assert head[i..][..|sep|][k] == sep[k];
      }
    }
    FirstPieceBeforeOccurrence(s, sep, i);
  }

  /** The first piece of a split ends no later than any occurrence of the
      separator. */
  lemma {:induction false} FirstPieceBeforeOccurrence(s: string, sep: string, i: nat)
    requires sep != [] && i <= |s| - |sep| && StartsWith(s[i..], sep)
    ensures |Split(s, sep)[0]| <= i
    decreases i
  {
    if i > 0 && !StartsWith(s, sep) {
      assert s[1..][i - 1..] == s[i..];
      FirstPieceBeforeOccurrence(s[1..], sep, i - 1);
      SplitStep(s, sep);
    }
  }

  /** One step of the scan: a text that does not start with `sep` puts its
      first character in front of the first piece of the rest. */
  lemma SplitStep(s: string, sep: string)
    requires sep != [] && s != [] && !StartsWith(s, sep)
    ensures Split(s, sep) == [[s[0]] + Split(s[1..], sep)[0]] + Split(s[1..], sep)[1..]
  {
  }

  /** Appending `sep + b` to a text, with `b` free of a one-character
      separator, adds exactly the piece `b` to its split. */
  lemma {:induction false} SplitAppend(a: string, sep: string, b: string)
    requires |sep| == 1 && !Contains(b, sep)
    ensures Split(a + sep + b, sep) == Split(a, sep) + [b]
    decreases |a|
  {
    var s := a + sep + b;
    if a == [] {
      assert s == sep + b && s[|sep|..] == b;
      SplitWhole(b, sep);
    } else {
      assert s[1..] == a[1..] + sep + b;
      SplitAppend(a[1..], sep, b);
      var rest := Split(a[1..], sep);
      if StartsWith(a, sep) {
        assert StartsWith(s, sep) by {
          assert s[..1] == a[..1];
        }
        assert Split(s, sep) == [""] + (rest + [b]);
        assert Split(a, sep) == [""] + rest;
      } else {
        assert !StartsWith(s, sep) by {
          assert s[..1] == a[..1];
        }
        SplitStep(s, sep);
        SplitStep(a, sep);
        assert (rest + [b])[0] == rest[0];
        assert (rest + [b])[1..] == rest[1..] + [b];
      }
    }
  }

  /** For a one-character separator, splitting undoes joining: pieces that
      do not hold the separator come back unchanged. */
  lemma {:induction false} SplitJoin(parts: seq<string>, sep: string)
    requires |sep| == 1 && |parts| >= 1
    requires forall k :: 0 <= k < |parts| ==> !Contains(parts[k], sep)
    ensures Split(Join(parts, sep), sep) == parts
    decreases |parts|
  {
    if |parts| == 1 {
      SplitWhole(parts[0], sep);
    } else {
      assert parts[0] + sep[..0] == parts[0];
      SplitAfter(parts[0], sep, Join(parts[1..], sep));
      SplitJoin(parts[1..], sep);
      assert [parts[0]] + parts[1..] == parts;
    }
  }
}
