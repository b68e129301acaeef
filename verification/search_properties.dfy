/** What a capped search returns: the guarantees of the three passes,
    instantiated with the normalised source column, survive the truncation
    `results[:max_results]`. */
module SearchProperties {
  import opened Normalizer
  import opened Seqs
  import opened Kamus
  import opened Matcher
  import opened MatchInvariants
  import opened MatcherProperties

  /** Equal rows have equal normalised sources. */
  lemma SourceWordsConsistent(dict: seq<Entry>, col: Column)
    ensures Consistent(dict, SourceWords(dict, col))
  {
  }

  /** A row's word in the normalised source column is its normalised
      source. */
  lemma WordOfSource(dict: seq<Entry>, col: Column, e: Entry)
    requires e in dict
    ensures WordOf(dict, SourceWords(dict, col), e) == NormalizedSource(e, col)
  {
  }

  /** A non-blank search is the capped output of the three passes over the
      normalised source column, with at most `MaxCloseMatches` candidates
      drawn from it. */
  lemma SearchUnfold(dict: seq<Entry>, query: string, direction: string, maxResults: nat, closeMatches: CloseMatcher)
    requires ValidCloseMatcher(closeMatches) && Normalize(Some(query)) != []
    ensures var q := Normalize(Some(query));
            var src := SourceWords(dict, SourceColumn(direction));
            && Consistent(dict, src)
            && (forall c :: c in closeMatches(q, src) ==> c in src)
            && |closeMatches(q, src)| <= MaxCloseMatches
            && Search(dict, query, direction, maxResults, closeMatches)
               == Take(Collect(dict, src, q, closeMatches(q, src)), maxResults)
  {
    SourceWordsConsistent(dict, SourceColumn(direction));
  }

  /** Why a search result is there, in terms of the normalised source
      column: the row's normalised source equals the normalised query, or
      properly contains it, or the row is the first holding a close-match
      candidate. */
  ghost predicate Matches(m: MatchResult, dict: seq<Entry>, col: Column, q: string, close: seq<string>) {
    && m.Key() in dict
    && match m.kind
       case Exact => NormalizedSource(m.Key(), col) == q
       case Contains => IsSubstring(q, NormalizedSource(m.Key(), col)) && NormalizedSource(m.Key(), col) != q
       case Fuzzy => FuzzyWitnessed(m, dict, SourceWords(dict, col), close)
  }

  lemma JustifiedMatches(m: MatchResult, dict: seq<Entry>, col: Column, q: string, close: seq<string>)
    requires Justified(m, dict, SourceWords(dict, col), q, close)
    ensures Matches(m, dict, col, q, close)
  {
    WordOfSource(dict, col, m.Key());
  }

  /** The index-wise properties of a result list hold of its prefixes. */
  lemma PrefixWellFormed(big: seq<MatchResult>, small: seq<MatchResult>, dict: seq<Entry>)
    requires small <= big
    requires Distinct(big) && FromDictionary(big, dict) && TierOrdered(big) && DictionaryOrdered(big, dict)
    ensures Distinct(small) && FromDictionary(small, dict) && TierOrdered(small) && DictionaryOrdered(small, dict)
  {
    assert forall k :: 0 <= k < |small| ==> small[k] == big[k];
  }

  lemma PrefixJustified(big: seq<MatchResult>, small: seq<MatchResult>, dict: seq<Entry>, src: seq<string>, q: string,
                        close: seq<string>)
    requires |src| == |dict|
    requires small <= big && AllJustified(big, dict, src, q, close)
    ensures AllJustified(small, dict, src, q, close)
  {
    assert forall k :: 0 <= k < |small| ==> small[k] == big[k];
  }

  /** Truncation keeps fuzzy results out of all but the last `cap`
      positions. */
  lemma PrefixFuzzyBound(big: seq<MatchResult>, small: seq<MatchResult>, bound: nat, cap: nat)
    requires small <= big && bound <= cap
    requires forall k :: 0 <= k < |big| - bound ==> big[k].kind != Fuzzy
    ensures forall k :: 0 <= k < |small| - cap ==> small[k].kind != Fuzzy
  {
    assert forall k :: 0 <= k < |small| ==> small[k] == big[k];
  }

  /** Truncation keeps the fuzzy results in candidate order. */
  lemma PrefixFuzzyOrdered(big: seq<MatchResult>, small: seq<MatchResult>, dict: seq<Entry>, src: seq<string>,
                           close: seq<string>)
    requires |src| == |dict| && forall c :: c in close ==> c in src
    requires small <= big && FuzzyOrdered(big, dict, src, close)
    ensures FuzzyOrdered(small, dict, src, close)
  {
    assert forall k :: 0 <= k < |small| ==> small[k] == big[k];
  }

  /** Search results are duplicate free, rows of the dictionary, ordered by
      tier, inside the exact and the substring tier by dictionary row, and
      inside the fuzzy tier by candidate. */
  lemma SearchWellFormed(dict: seq<Entry>, query: string, direction: string, maxResults: nat,
                         closeMatches: CloseMatcher)
    requires ValidCloseMatcher(closeMatches)
    ensures var r := Search(dict, query, direction, maxResults, closeMatches);
            Distinct(r) && FromDictionary(r, dict) && TierOrdered(r) && DictionaryOrdered(r, dict)
    ensures var q := Normalize(Some(query));
            var src := SourceWords(dict, SourceColumn(direction));
            FuzzyOrdered(Search(dict, query, direction, maxResults, closeMatches), dict, src, closeMatches(q, src))
  {
    var q := Normalize(Some(query));
    var src := SourceWords(dict, SourceColumn(direction));
    if q != [] {
      SearchUnfold(dict, query, direction, maxResults, closeMatches);
      CollectWellFormed(dict, src, q, closeMatches(q, src));
      var big := Collect(dict, src, q, closeMatches(q, src));
      PrefixWellFormed(big, Take(big, maxResults), dict);
      PrefixFuzzyOrdered(big, Take(big, maxResults), dict, src, closeMatches(q, src));
    }
  }

  /** Every search result passed its tier's test against the normalised
      query. */
  lemma SearchJustified(dict: seq<Entry>, query: string, direction: string, maxResults: nat,
                        closeMatches: CloseMatcher)
    requires ValidCloseMatcher(closeMatches)
    ensures var q := Normalize(Some(query));
            var col := SourceColumn(direction);
            var close := closeMatches(q, SourceWords(dict, col));
            var r := Search(dict, query, direction, maxResults, closeMatches);
            forall k :: 0 <= k < |r| ==> Matches(r[k], dict, col, q, close)
  {
    var q := Normalize(Some(query));
    if q != [] {
      var col := SourceColumn(direction);
      var src := SourceWords(dict, col);
      var close := closeMatches(q, src);
      SearchUnfold(dict, query, direction, maxResults, closeMatches);
      CollectJustified(dict, src, q, close);
      var big := Collect(dict, src, q, close);
      var r := Take(big, maxResults);
      PrefixJustified(big, r, dict, src, q, close);
      forall k | 0 <= k < |r| ensures Matches(r[k], dict, col, q, close) {
        JustifiedMatches(r[k], dict, col, q, close);
      }
    }
  }

  /** At most ten fuzzy results, all after the exact and substring ones. */
  lemma SearchFuzzyBound(dict: seq<Entry>, query: string, direction: string, maxResults: nat,
                         closeMatches: CloseMatcher)
    requires ValidCloseMatcher(closeMatches)
    ensures var r := Search(dict, query, direction, maxResults, closeMatches);
            forall k :: 0 <= k < |r| - MaxCloseMatches ==> r[k].kind != Fuzzy
  {
    var q := Normalize(Some(query));
    if q != [] {
      var src := SourceWords(dict, SourceColumn(direction));
      SearchUnfold(dict, query, direction, maxResults, closeMatches);
      CollectFuzzyBound(dict, src, q, closeMatches(q, src));
      var big := Collect(dict, src, q, closeMatches(q, src));
      PrefixFuzzyBound(big, Take(big, maxResults), |closeMatches(q, src)|, MaxCloseMatches);
    }
  }

  /** A search never returns more records than the dictionary has rows. */
  lemma SearchLength(dict: seq<Entry>, query: string, direction: string, maxResults: nat,
                     closeMatches: CloseMatcher)
    requires ValidCloseMatcher(closeMatches)
    ensures |Search(dict, query, direction, maxResults, closeMatches)| <= |dict|
  {
    var q := Normalize(Some(query));
    if q != [] {
      var src := SourceWords(dict, SourceColumn(direction));
      SearchUnfold(dict, query, direction, maxResults, closeMatches);
      CollectLength(dict, src, q, closeMatches(q, src));
    }
  }

  /** A record of the uncapped list that the cap cuts off leaves a full
      result list of records ranked no lower than it. */
  lemma TakeKeepsOrCrowds(all: seq<MatchResult>, n: nat, m: MatchResult)
    requires TierOrdered(all) && m in all
    ensures var r := Take(all, n);
            m in r || (|r| == n && forall k :: 0 <= k < |r| ==> Rank(r[k].kind) <= Rank(m.kind))
  {
    var r := Take(all, n);
    var j :| 0 <= j < |all| && all[j] == m;
    if j < |r| {
      assert r[j] == m;
    }
  }

  /** The exact tier survives the cap unless the cap is filled by exact
      records. */
  lemma CappedExactComplete(dict: seq<Entry>, src: seq<string>, q: string, close: seq<string>, n: nat)
    requires Consistent(dict, src) && forall c :: c in close ==> c in src
    ensures var r := Take(Collect(dict, src, q, close), n);
            forall i :: 0 <= i < |dict| && src[i] == q ==>
              || MatchResult(Exact, dict[i].bugis, dict[i].indo) in r
              || (|r| == n && forall k :: 0 <= k < |r| ==> r[k].kind == Exact)
  {
    var all := Collect(dict, src, q, close);
    CollectWellFormed(dict, src, q, close);
    CollectExactComplete(dict, src, q, close);
    forall i | 0 <= i < |dict| && src[i] == q
      ensures var r := Take(all, n);
              || MatchResult(Exact, dict[i].bugis, dict[i].indo) in r
              || (|r| == n && forall k :: 0 <= k < |r| ==> r[k].kind == Exact)
    {
      TakeKeepsOrCrowds(all, n, MatchResult(Exact, dict[i].bugis, dict[i].indo));
    }
  }

  /** The substring tier survives the cap unless the cap is filled by exact
      and substring records. */
  lemma CappedContainsComplete(dict: seq<Entry>, src: seq<string>, q: string, close: seq<string>, n: nat)
    requires Consistent(dict, src) && forall c :: c in close ==> c in src
    ensures var r := Take(Collect(dict, src, q, close), n);
            forall i :: 0 <= i < |dict| && IsSubstring(q, src[i]) && src[i] != q ==>
              || MatchResult(Contains, dict[i].bugis, dict[i].indo) in r
              || (|r| == n && forall k :: 0 <= k < |r| ==> r[k].kind != Fuzzy)
  {
    var all := Collect(dict, src, q, close);
    CollectWellFormed(dict, src, q, close);
    CollectContainsComplete(dict, src, q, close);
    forall i | 0 <= i < |dict| && IsSubstring(q, src[i]) && src[i] != q
      ensures var r := Take(all, n);
              || MatchResult(Contains, dict[i].bugis, dict[i].indo) in r
              || (|r| == n && forall k :: 0 <= k < |r| ==> r[k].kind != Fuzzy)
    {
      TakeKeepsOrCrowds(all, n, MatchResult(Contains, dict[i].bugis, dict[i].indo));
    }
  }

  /** Every row whose normalised source equals the normalised query is
      returned as an exact result, unless the cap is filled by exact
      results; every row whose normalised source properly contains the
      query is returned as a substring result, unless the cap is filled by
      exact and substring results. A list shorter than the cap is
      therefore complete in both tiers. */
  lemma SearchComplete(dict: seq<Entry>, query: string, direction: string, maxResults: nat,
                       closeMatches: CloseMatcher)
    requires ValidCloseMatcher(closeMatches)
    requires !WhitespaceOnly(query)
    ensures var q := Normalize(Some(query));
            var col := SourceColumn(direction);
            var r := Search(dict, query, direction, maxResults, closeMatches);
            && (forall i :: 0 <= i < |dict| && NormalizedSource(dict[i], col) == q ==>
                  || MatchResult(Exact, dict[i].bugis, dict[i].indo) in r
                  || (|r| == maxResults && forall k :: 0 <= k < |r| ==> r[k].kind == Exact))
            && (forall i :: 0 <= i < |dict| && IsSubstring(q, NormalizedSource(dict[i], col))
                            && NormalizedSource(dict[i], col) != q ==>
                  || MatchResult(Contains, dict[i].bugis, dict[i].indo) in r
                  || (|r| == maxResults && forall k :: 0 <= k < |r| ==> r[k].kind != Fuzzy))
  {
    NormalizeBlank(query);
    var q := Normalize(Some(query));
    var src := SourceWords(dict, SourceColumn(direction));
    SearchUnfold(dict, query, direction, maxResults, closeMatches);
    CappedExactComplete(dict, src, q, closeMatches(q, src), maxResults);
    CappedContainsComplete(dict, src, q, closeMatches(q, src), maxResults);
  }

  /** A fuzzy record of the uncapped list that the cap cuts off leaves a
      full result list in which every fuzzy record stands for an earlier
      candidate. */
  lemma TakeKeepsOrCrowdsFuzzy(all: seq<MatchResult>, n: nat, dict: seq<Entry>, src: seq<string>,
                               close: seq<string>, t: int)
    requires |src| == |dict| && forall c :: c in close ==> c in src
    requires TierOrdered(all) && FuzzyOrdered(all, dict, src, close)
    requires 0 <= t < |close| && dict[IndexOf(src, close[t])] in Keys(all)
    ensures var r := Take(all, n);
            || dict[IndexOf(src, close[t])] in Keys(r)
            || (&& |r| == n
                && forall k :: 0 <= k < |r| ==>
                     r[k].kind != Fuzzy || exists u :: 0 <= u < t && r[k].Key() == dict[IndexOf(src, close[u])])
  {
    var r := Take(all, n);
    var e := dict[IndexOf(src, close[t])];
    var m :| m in all && m.Key() == e;
    var p :| 0 <= p < |all| && all[p] == m;
    if p < |r| {
      assert r[p] == m;
    } else {
      forall k | 0 <= k < |r| && r[k].kind == Fuzzy
        ensures exists u :: 0 <= u < t && r[k].Key() == dict[IndexOf(src, close[u])]
      {
        assert all[k] == r[k];
        assert Rank(all[k].kind) <= Rank(all[p].kind);
      }
    }
  }

  /** The first row of every close-match candidate is among the results,
      unless the cap is filled, and then only by exact, substring and
      fuzzy results of candidates listed before it. */
  lemma SearchFuzzyComplete(dict: seq<Entry>, query: string, direction: string, maxResults: nat,
                            closeMatches: CloseMatcher)
    requires ValidCloseMatcher(closeMatches)
    requires Normalize(Some(query)) != []
    ensures var q := Normalize(Some(query));
            var src := SourceWords(dict, SourceColumn(direction));
            var close := closeMatches(q, src);
            var r := Search(dict, query, direction, maxResults, closeMatches);
            forall t :: 0 <= t < |close| ==>
              || dict[IndexOf(src, close[t])] in Keys(r)
              || (&& |r| == maxResults
                  && forall k :: 0 <= k < |r| ==>
                       r[k].kind != Fuzzy || exists u :: 0 <= u < t && r[k].Key() == dict[IndexOf(src, close[u])])
  {
    NormalizeBlank(query);
    var q := Normalize(Some(query));
    var src := SourceWords(dict, SourceColumn(direction));
    var close := closeMatches(q, src);
    SearchUnfold(dict, query, direction, maxResults, closeMatches);
    CappedFuzzyComplete(dict, src, q, close, maxResults);
  }

  /** `SearchFuzzyComplete` for the uncapped passes over any consistent
      source column. */
  lemma CappedFuzzyComplete(dict: seq<Entry>, src: seq<string>, q: string, close: seq<string>, n: nat)
    requires Consistent(dict, src) && forall c :: c in close ==> c in src
    ensures var r := Take(Collect(dict, src, q, close), n);
            forall t :: 0 <= t < |close| ==>
              || dict[IndexOf(src, close[t])] in Keys(r)
              || (&& |r| == n
                  && forall k :: 0 <= k < |r| ==>
                       r[k].kind != Fuzzy || exists u :: 0 <= u < t && r[k].Key() == dict[IndexOf(src, close[u])])
  {
    var all := Collect(dict, src, q, close);
    CollectWellFormed(dict, src, q, close);
    CollectFuzzyComplete(dict, src, q, close);
    forall t | 0 <= t < |close|
      ensures var r := Take(all, n);
              || dict[IndexOf(src, close[t])] in Keys(r)
              || (&& |r| == n
                  && forall k :: 0 <= k < |r| ==>
                       r[k].kind != Fuzzy || exists u :: 0 <= u < t && r[k].Key() == dict[IndexOf(src, close[u])])
    {
      assert close[t] in close;
      TakeKeepsOrCrowdsFuzzy(all, n, dict, src, close, t);
    }
  }

  /** Looking a row up by its own source word finds it as an exact match,
      unless the cap is filled by other exact matches. */
  lemma SearchFindsEveryEntry(dict: seq<Entry>, i: int, direction: string, maxResults: nat,
                              closeMatches: CloseMatcher)
    requires ValidCloseMatcher(closeMatches)
    requires 0 <= i < |dict|
    requires !WhitespaceOnly(Source(dict[i], SourceColumn(direction)))
    ensures var r := Search(dict, Source(dict[i], SourceColumn(direction)), direction, maxResults, closeMatches);
            || MatchResult(Exact, dict[i].bugis, dict[i].indo) in r
            || (|r| == maxResults && forall k :: 0 <= k < |r| ==> r[k].kind == Exact)
  {
    NormalizeBlank(Source(dict[i], SourceColumn(direction)));
    SearchComplete(dict, Source(dict[i], SourceColumn(direction)), direction, maxResults, closeMatches);
  }

  /** A smaller cap returns a prefix of what a larger cap returns. */
  lemma SearchCapPrefix(dict: seq<Entry>, query: string, direction: string, small: nat, large: nat,
                        closeMatches: CloseMatcher)
    requires ValidCloseMatcher(closeMatches) && small <= large
    ensures var a := Search(dict, query, direction, small, closeMatches);
            var b := Search(dict, query, direction, large, closeMatches);
            a == b[..|a|] && |a| == if small < |b| then small else |b|
  {
    var q := Normalize(Some(query));
    if q != [] {
      var src := SourceWords(dict, SourceColumn(direction));
      SearchUnfold(dict, query, direction, small, closeMatches);
      SearchUnfold(dict, query, direction, large, closeMatches);
      TakePrefix(Collect(dict, src, q, closeMatches(q, src)), small, large);
    }
  }

  /** Searching for a query or for its normalised form gives the same
      results: case, surrounding and repeated whitespace do not matter. */
  lemma SearchIgnoresQueryFormatting(dict: seq<Entry>, query: string, direction: string, maxResults: nat,
                                     closeMatches: CloseMatcher)
    requires ValidCloseMatcher(closeMatches)
    ensures Search(dict, query, direction, maxResults, closeMatches)
            == Search(dict, Normalize(Some(query)), direction, maxResults, closeMatches)
  {
    NormalizeIdempotent(Some(query));
  }

  /** The capped result is a prefix of the uncapped three-pass output, as
      long as the cap or that output, whichever is shorter. */
  lemma SearchPrefixOfUncapped(dict: seq<Entry>, query: string, direction: string, maxResults: nat,
                               closeMatches: CloseMatcher)
    requires ValidCloseMatcher(closeMatches) && Normalize(Some(query)) != []
    ensures var q := Normalize(Some(query));
            var src := SourceWords(dict, SourceColumn(direction));
            var all := Collect(dict, src, q, closeMatches(q, src));
            var r := Search(dict, query, direction, maxResults, closeMatches);
            r == all[..|r|] && |r| == if maxResults < |all| then maxResults else |all|
  {
    NormalizeBlank(query);
    SearchUnfold(dict, query, direction, maxResults, closeMatches);
  }

  /** In the sample dictionary, looking up any Bugis word from Bugis to
      Indonesian with the default cap finds its row as an exact match. */
  lemma SampleFindsEveryBugisWord(i: int, closeMatches: CloseMatcher)
    requires ValidCloseMatcher(closeMatches) && 0 <= i < |SampleDictionary|
    ensures MatchResult(Exact, SampleDictionary[i].bugis, SampleDictionary[i].indo)
              in SearchDefault(SampleDictionary, SampleDictionary[i].bugis, "bugis->id", closeMatches)
  {
    var word := SampleDictionary[i].bugis;
    assert SourceColumn("bugis->id") == BugisColumn;
    assert word != [] && 'a' <= word[0] <= 'z';
    assert !WhitespaceOnly(word) by {
      assert !IsWhitespace(word[0]);
    }
    SearchFindsEveryEntry(SampleDictionary, i, "bugis->id", DefaultMaxResults, closeMatches);
    SearchLength(SampleDictionary, word, "bugis->id", DefaultMaxResults, closeMatches);
  }

  /** In the sample dictionary, looking up any Indonesian word in the other
      direction finds its row as an exact match too. */
  lemma SampleFindsEveryIndonesianWord(i: int, closeMatches: CloseMatcher)
    requires ValidCloseMatcher(closeMatches) && 0 <= i < |SampleDictionary|
    ensures MatchResult(Exact, SampleDictionary[i].bugis, SampleDictionary[i].indo)
              in SearchDefault(SampleDictionary, SampleDictionary[i].indo, "id->bugis", closeMatches)
  {
    var word := SampleDictionary[i].indo;
    assert SourceColumn("id->bugis") == IndoColumn;
    assert word != [] && 'a' <= word[0] <= 'z';
    assert !WhitespaceOnly(word) by {
      assert !IsWhitespace(word[0]);
    }
    SearchFindsEveryEntry(SampleDictionary, i, "id->bugis", DefaultMaxResults, closeMatches);
    SearchLength(SampleDictionary, word, "id->bugis", DefaultMaxResults, closeMatches);
  }
}
