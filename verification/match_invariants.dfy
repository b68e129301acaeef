/** The predicates the proofs about the three passes are phrased in: what
    a result list looks like, why each result is there, and the invariants
    the passes keep. */
module MatchInvariants {
  import opened Seqs
  import opened Kamus
  import opened Matcher

  /** `src` holds one word per row, and equal rows have equal words. */
  ghost predicate Consistent(dict: seq<Entry>, src: seq<string>) {
    && |src| == |dict|
    && forall a, b :: 0 <= a < |dict| && 0 <= b < |dict| && dict[a] == dict[b] ==> src[a] == src[b]
  }

  /** The source word of a dictionary row. */
  function WordOf(dict: seq<Entry>, src: seq<string>, e: Entry): string
    requires |src| == |dict| && e in dict
  {
    src[IndexOf(dict, e)]
  }

  /** The `(bugis, indo)` keys of a result list. */
  function Keys(rs: seq<MatchResult>): set<Entry> {
    set m | m in rs :: m.Key()
  }

  /** No key occurs twice. */
  ghost predicate Distinct(rs: seq<MatchResult>) {
    forall a, b :: 0 <= a < b < |rs| ==> rs[a].Key() != rs[b].Key()
  }

  /** Every result is a row of the dictionary. */
  ghost predicate FromDictionary(rs: seq<MatchResult>, dict: seq<Entry>) {
    forall k :: 0 <= k < |rs| ==> rs[k].Key() in dict
  }

  /** Exact results come first, then substring results, then fuzzy ones. */
  ghost predicate TierOrdered(rs: seq<MatchResult>) {
    forall a, b :: 0 <= a < b < |rs| ==> Rank(rs[a].kind) <= Rank(rs[b].kind)
  }

  /** Inside the exact and the substring tier, results follow the order of
      the rows' first occurrence in the dictionary. */
  ghost predicate DictionaryOrdered(rs: seq<MatchResult>, dict: seq<Entry>) {
    forall a, b ::
      0 <= a < b < |rs| && rs[a].kind == rs[b].kind && rs[a].kind != Fuzzy
      && rs[a].Key() in dict && rs[b].Key() in dict
      ==> IndexOf(dict, rs[a].Key()) < IndexOf(dict, rs[b].Key())
  }

  /** Why a result is there: it is a row of the dictionary, and its source
      word equals the query, or contains it without equalling it, or the row
      is the first one holding a close-match candidate. */
  ghost predicate Justified(m: MatchResult, dict: seq<Entry>, src: seq<string>, q: string, close: seq<string>)
    requires |src| == |dict|
  {
    && m.Key() in dict
    && match m.kind
       case Exact => WordOf(dict, src, m.Key()) == q
       case Contains => IsSubstring(q, WordOf(dict, src, m.Key())) && WordOf(dict, src, m.Key()) != q
       case Fuzzy => FuzzyWitnessed(m, dict, src, close)
  }

  /** Every result is justified by its tier. */
  ghost predicate AllJustified(rs: seq<MatchResult>, dict: seq<Entry>, src: seq<string>, q: string, close: seq<string>)
    requires |src| == |dict|
  {
    forall k :: 0 <= k < |rs| ==> Justified(rs[k], dict, src, q, close)
  }

  /** What holds of the accumulated results after any prefix of the passes. */
  ghost predicate WellFormed(acc: Acc, dict: seq<Entry>) {
    && acc.seen == Keys(acc.results)
    && Distinct(acc.results)
    && FromDictionary(acc.results, dict)
    && TierOrdered(acc.results)
    && DictionaryOrdered(acc.results, dict)
  }

  /** Every result so far belongs to a tier no later than `kind` and its row
      passed that tier's test. */
  ghost predicate TierSound(kind: MatchKind, dict: seq<Entry>, src: seq<string>, q: string, rs: seq<MatchResult>)
    requires |src| == |dict|
  {
    forall k :: 0 <= k < |rs| ==>
      && rs[k].Key() in dict
      && Rank(rs[k].kind) <= Rank(kind)
      && Qualifies(rs[k].kind, WordOf(dict, src, rs[k].Key()), q)
  }

  /** Every result of tier `kind` so far stems from a row before `i`. */
  ghost predicate TierBefore(kind: MatchKind, dict: seq<Entry>, i: int, rs: seq<MatchResult>) {
    forall k :: 0 <= k < |rs| && rs[k].kind == kind && rs[k].Key() in dict ==> IndexOf(dict, rs[k].Key()) < i
  }

  /** Every row before `i` that passes the test of tier `kind` has its
      result of that tier. */
  ghost predicate TierComplete(kind: MatchKind, dict: seq<Entry>, src: seq<string>, q: string, i: int, rs: seq<MatchResult>)
    requires 0 <= i <= |dict| == |src|
  {
    forall k :: 0 <= k < i && Qualifies(kind, src[k], q) ==> MatchResult(kind, dict[k].bugis, dict[k].indo) in rs
  }

  /** The invariant of the exact pass (`kind` Exact) and of the substring
      pass (`kind` Contains) after the rows before `i`. */
  ghost predicate ScanInv(kind: MatchKind, dict: seq<Entry>, src: seq<string>, q: string, i: int, acc: Acc) {
    && |src| == |dict|
    && 0 <= i <= |dict|
    && WellFormed(acc, dict)
    && TierSound(kind, dict, src, q, acc.results)
    && TierBefore(kind, dict, i, acc.results)
    && TierComplete(kind, dict, src, q, i, acc.results)
  }

  /** A fuzzy result is the first row whose source word is one of the
      candidates. */
  ghost predicate FuzzyWitnessed(m: MatchResult, dict: seq<Entry>, src: seq<string>, close: seq<string>)
    requires |src| == |dict|
  {
    exists c :: c in close && c in src && m.Key() == dict[IndexOf(src, c)]
  }

  /** The fuzzy results so far are witnessed by candidates. */
  ghost predicate FuzzySound(rs: seq<MatchResult>, dict: seq<Entry>, src: seq<string>, close: seq<string>)
    requires |src| == |dict|
  {
    forall k :: 0 <= k < |rs| && rs[k].kind == Fuzzy ==> FuzzyWitnessed(rs[k], dict, src, close)
  }

  /** The first row of every candidate before `j` has been seen. */
  ghost predicate FuzzyCovered(dict: seq<Entry>, src: seq<string>, close: seq<string>, j: int, seen: set<Entry>)
    requires |src| == |dict| && 0 <= j <= |close|
    requires forall c :: c in close ==> c in src
  {
    forall t :: 0 <= t < j ==> dict[IndexOf(src, close[t])] in seen
  }

  /** The invariant of the fuzzy pass after the candidates before `j`. */
  ghost predicate FuzzyInv(dict: seq<Entry>, src: seq<string>, close: seq<string>, j: int, acc: Acc) {
    && |src| == |dict|
    && (forall c :: c in close ==> c in src)
    && 0 <= j <= |close|
    && WellFormed(acc, dict)
    && FuzzySound(acc.results, dict, src, close)
    && FuzzyCovered(dict, src, close, j, acc.seen)
  }

  /** Every fuzzy result so far is the first row of a candidate before
      `j`. */
  ghost predicate FuzzyBefore(dict: seq<Entry>, src: seq<string>, close: seq<string>, j: int, rs: seq<MatchResult>)
    requires |src| == |dict| && 0 <= j <= |close|
    requires forall c :: c in close ==> c in src
  {
    forall k :: 0 <= k < |rs| && rs[k].kind == Fuzzy ==>
      exists u :: 0 <= u < j && rs[k].Key() == dict[IndexOf(src, close[u])]
  }

  /** Fuzzy results come in candidate order: of two fuzzy results, the
      earlier one is the first row of a candidate listed before every
      candidate whose first row is the later one. */
  ghost predicate FuzzyOrdered(rs: seq<MatchResult>, dict: seq<Entry>, src: seq<string>, close: seq<string>)
    requires |src| == |dict|
    requires forall c :: c in close ==> c in src
  {
    forall a, b, t ::
      && 0 <= a < b < |rs| && rs[a].kind == Fuzzy && rs[b].kind == Fuzzy
      && 0 <= t < |close| && rs[b].Key() == dict[IndexOf(src, close[t])]
      ==> exists u :: 0 <= u < t && rs[a].Key() == dict[IndexOf(src, close[u])]
  }

  /** The fuzzy pass invariant together with the candidate order. */
  ghost predicate FuzzyOrderInv(dict: seq<Entry>, src: seq<string>, close: seq<string>, j: int, acc: Acc) {
    && FuzzyInv(dict, src, close, j, acc)
    && FuzzyBefore(dict, src, close, j, acc.results)
    && FuzzyOrdered(acc.results, dict, src, close)
  }
}
