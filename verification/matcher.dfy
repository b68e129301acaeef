/** The three-pass matcher `search_kamus` of app.py. */
module Matcher {
  import opened Normalizer
  import opened Seqs
  import opened Kamus

  /** The state the passes thread along: the results so far and the `seen`
      set of `(bugis, indo)` keys already emitted. */
  datatype Acc = Acc(results: seq<MatchResult>, seen: set<Entry>)

  /** A close-match generator, standing in for `difflib.get_close_matches(q,
      words, n=10, cutoff=0.6)`. */
  type CloseMatcher = (string, seq<string>) -> seq<string>

  /** What the library promises of its answer: at most ten candidates, each
      one of the words it was given. */
  ghost predicate ValidCloseMatcher(closeMatches: CloseMatcher) {
    forall word, words ::
      && |closeMatches(word, words)| <= MaxCloseMatches
      && (forall c :: c in closeMatches(word, words) ==> c in words)
  }

  /** Appends a result for `e` unless its key has been emitted already. */
  function Emit(acc: Acc, kind: MatchKind, e: Entry): Acc {
    if e in acc.seen then acc
    else Acc(acc.results + [MatchResult(kind, e.bugis, e.indo)], acc.seen + {e})
  }

  /** The per-entry test of the exact and the substring pass. The fuzzy tier
      has no per-entry test: its candidates come from the close-match
      generator. */
  predicate Qualifies(kind: MatchKind, src: string, q: string) {
    match kind
    case Exact => src == q
    case Contains => IsSubstring(q, src) && src != q
    case Fuzzy => false
  }

  /** The exact pass (kind Exact) or the substring pass (kind Contains) over
      the entries from index `i` on. */
  function ScanPass(kind: MatchKind, dict: seq<Entry>, src: seq<string>, q: string, i: nat, acc: Acc): (r: Acc)
    requires kind != Fuzzy
    requires |src| == |dict| && i <= |dict|
    ensures acc.results <= r.results && acc.seen <= r.seen
    ensures |r.results| <= |acc.results| + (|dict| - i)
    ensures forall k :: |acc.results| <= k < |r.results| ==> r.results[k].kind == kind
    decreases |dict| - i
  {
    if i == |dict| then acc
    else
      var next := if Qualifies(kind, src[i], q) then Emit(acc, kind, dict[i]) else acc;
      ScanPass(kind, dict, src, q, i + 1, next)
  }

  /** The fuzzy pass over the candidates from index `j` on: each candidate
      stands for the first entry whose normalised source it is. */
  function FuzzyPass(dict: seq<Entry>, src: seq<string>, close: seq<string>, j: nat, acc: Acc): (r: Acc)
    requires |src| == |dict| && j <= |close|
    requires forall c :: c in close ==> c in src
    ensures acc.results <= r.results && acc.seen <= r.seen
    ensures |r.results| <= |acc.results| + (|close| - j)
    ensures forall k :: |acc.results| <= k < |r.results| ==> r.results[k].kind == Fuzzy
    decreases |close| - j
  {
    if j == |close| then acc
    else
      var i := IndexOf(src, close[j]);
      FuzzyPass(dict, src, close, j + 1, Emit(acc, Fuzzy, dict[i]))
  }

  /** The three passes in order, before truncation. */
  function Collect(dict: seq<Entry>, src: seq<string>, q: string, close: seq<string>): seq<MatchResult>
    requires |src| == |dict|
    requires forall c :: c in close ==> c in src
  {
    var exact := ScanPass(Exact, dict, src, q, 0, Acc([], {}));
    var contains := ScanPass(Contains, dict, src, q, 0, exact);
    FuzzyPass(dict, src, close, 0, contains).results
  }

  /** `search_kamus(query, direction, max_results)` over the dictionary
      `dict`. */
  function Search(dict: seq<Entry>, query: string, direction: string, maxResults: nat,
                  closeMatches: CloseMatcher): (r: seq<MatchResult>)
    requires ValidCloseMatcher(closeMatches)
    ensures |r| <= maxResults
    ensures WhitespaceOnly(query) ==> r == []
  {
    var q := Normalize(Some(query));
    NormalizeBlank(query);
    if q == [] then []
    else
      var src := SourceWords(dict, SourceColumn(direction));
      Take(Collect(dict, src, q, closeMatches(q, src)), maxResults)
  }

  /** A search with the default cap of 25 results. */
  function SearchDefault(dict: seq<Entry>, query: string, direction: string,
                         closeMatches: CloseMatcher): (r: seq<MatchResult>)
    requires ValidCloseMatcher(closeMatches)
    ensures |r| <= DefaultMaxResults
  {
    Search(dict, query, direction, DefaultMaxResults, closeMatches)
  }
}
