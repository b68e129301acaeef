/** What the three passes of `search_kamus` guarantee, proved pass by pass.
    The passes only compare source words with the query, so the proofs take
    the source words `src` as given, asking only that equal rows have equal
    words; the search instantiates `src` with the normalised source column. */
module MatcherProperties {
  import opened Seqs
  import opened Kamus
  import opened Matcher
  import opened MatchInvariants

  lemma KeysAppend(rs: seq<MatchResult>, m: MatchResult)
    ensures Keys(rs + [m]) == Keys(rs) + {m.Key()}
  {
    assert forall x :: x in rs + [m] <==> x in rs || x == m;
  }

  lemma DistinctAppend(rs: seq<MatchResult>, m: MatchResult)
    requires Distinct(rs) && m.Key() !in Keys(rs)
    ensures Distinct(rs + [m])
  {
    assert forall k :: 0 <= k < |rs| ==> rs[k] in rs;
  }

  lemma FromDictionaryAppend(rs: seq<MatchResult>, m: MatchResult, dict: seq<Entry>)
    requires FromDictionary(rs, dict) && m.Key() in dict
    ensures FromDictionary(rs + [m], dict)
  {
  }

  lemma TierOrderedAppend(rs: seq<MatchResult>, m: MatchResult)
    requires TierOrdered(rs)
    requires forall k :: 0 <= k < |rs| ==> Rank(rs[k].kind) <= Rank(m.kind)
    ensures TierOrdered(rs + [m])
  {
  }

  lemma DictionaryOrderedAppend(rs: seq<MatchResult>, m: MatchResult, dict: seq<Entry>)
    requires DictionaryOrdered(rs, dict) && m.Key() in dict
    requires forall k :: 0 <= k < |rs| && rs[k].kind == m.kind && m.kind != Fuzzy && rs[k].Key() in dict ==>
               IndexOf(dict, rs[k].Key()) < IndexOf(dict, m.Key())
    ensures DictionaryOrdered(rs + [m], dict)
  {
  }

  /** Emitting a row whose key is new keeps the results well formed, given
      that the new result belongs after every result so far. */
  lemma EmitFresh(acc: Acc, kind: MatchKind, e: Entry, dict: seq<Entry>)
    requires WellFormed(acc, dict)
    requires e !in acc.seen && e in dict
    requires forall k :: 0 <= k < |acc.results| ==> Rank(acc.results[k].kind) <= Rank(kind)
    requires forall k ::
               (0 <= k < |acc.results| && acc.results[k].kind == kind && kind != Fuzzy && acc.results[k].Key() in dict)
               ==> IndexOf(dict, acc.results[k].Key()) < IndexOf(dict, e)
    ensures WellFormed(Emit(acc, kind, e), dict)
    ensures Emit(acc, kind, e).results == acc.results + [MatchResult(kind, e.bugis, e.indo)]
  {
    var m := MatchResult(kind, e.bugis, e.indo);
    assert m.Key() == e;
    KeysAppend(acc.results, m);
    DistinctAppend(acc.results, m);
    FromDictionaryAppend(acc.results, m, dict);
    TierOrderedAppend(acc.results, m);
    DictionaryOrderedAppend(acc.results, m, dict);
  }

  /** A row emitted by a scan pass is emitted at its first occurrence. */
  lemma ScanEmitsFirst(kind: MatchKind, dict: seq<Entry>, src: seq<string>, q: string, i: int, acc: Acc)
    requires kind != Fuzzy && Consistent(dict, src)
    requires ScanInv(kind, dict, src, q, i, acc) && i < |dict|
    requires Qualifies(kind, src[i], q) && dict[i] !in acc.seen
    ensures IndexOf(dict, dict[i]) == i
  {
  }

  /** A row that qualifies but whose key was emitted already was emitted in
      the same tier. */
  lemma ScanSeenSameTier(kind: MatchKind, dict: seq<Entry>, src: seq<string>, q: string, i: int, acc: Acc)
    requires kind != Fuzzy && Consistent(dict, src)
    requires ScanInv(kind, dict, src, q, i, acc) && i < |dict|
    requires Qualifies(kind, src[i], q) && dict[i] in acc.seen
    ensures MatchResult(kind, dict[i].bugis, dict[i].indo) in acc.results
  {
    var m :| m in acc.results && m.Key() == dict[i];
    var k :| 0 <= k < |acc.results| && acc.results[k] == m;
    assert WordOf(dict, src, m.Key()) == src[i];
    assert m.kind == kind;
    assert m == MatchResult(kind, dict[i].bugis, dict[i].indo);
  }

  lemma TierSoundAppend(kind: MatchKind, dict: seq<Entry>, src: seq<string>, q: string, rs: seq<MatchResult>, m: MatchResult)
    requires |src| == |dict|
    requires TierSound(kind, dict, src, q, rs)
    requires m.kind == kind && m.Key() in dict && Qualifies(kind, WordOf(dict, src, m.Key()), q)
    ensures TierSound(kind, dict, src, q, rs + [m])
  {
    assert forall k :: 0 <= k < |rs| ==> (rs + [m])[k] == rs[k];
  }

  lemma TierBeforeAppend(kind: MatchKind, dict: seq<Entry>, i: int, rs: seq<MatchResult>, m: MatchResult)
    requires TierBefore(kind, dict, i, rs)
    requires m.Key() in dict && IndexOf(dict, m.Key()) == i
    ensures TierBefore(kind, dict, i + 1, rs + [m])
  {
  }

  lemma TierCompleteAppend(kind: MatchKind, dict: seq<Entry>, src: seq<string>, q: string, i: int,
                           rs: seq<MatchResult>, m: MatchResult)
    requires 0 <= i < |dict| == |src|
    requires TierComplete(kind, dict, src, q, i, rs)
    requires m == MatchResult(kind, dict[i].bugis, dict[i].indo)
    ensures TierComplete(kind, dict, src, q, i + 1, rs + [m])
  {
    assert forall x :: x in rs ==> x in rs + [m];
  }

  /** A scan step that emits a fresh row keeps the invariant. */
  lemma ScanStepEmit(kind: MatchKind, dict: seq<Entry>, src: seq<string>, q: string, i: int, acc: Acc)
    requires kind != Fuzzy && Consistent(dict, src)
    requires ScanInv(kind, dict, src, q, i, acc) && i < |dict|
    requires Qualifies(kind, src[i], q) && dict[i] !in acc.seen
    ensures ScanInv(kind, dict, src, q, i + 1, Emit(acc, kind, dict[i]))
  {
    var m := MatchResult(kind, dict[i].bugis, dict[i].indo);
    assert m.Key() == dict[i];
    ScanEmitsFirst(kind, dict, src, q, i, acc);
    EmitFresh(acc, kind, dict[i], dict);
    TierSoundAppend(kind, dict, src, q, acc.results, m);
    TierBeforeAppend(kind, dict, i, acc.results, m);
    TierCompleteAppend(kind, dict, src, q, i, acc.results, m);
  }

  /** One step of a scan pass keeps its invariant. */
  lemma ScanStep(kind: MatchKind, dict: seq<Entry>, src: seq<string>, q: string, i: int, acc: Acc)
    requires kind != Fuzzy && Consistent(dict, src)
    requires ScanInv(kind, dict, src, q, i, acc) && i < |dict|
    ensures ScanInv(kind, dict, src, q, i + 1, if Qualifies(kind, src[i], q) then Emit(acc, kind, dict[i]) else acc)
  {
    if Qualifies(kind, src[i], q) {
      if dict[i] in acc.seen {
        ScanSeenSameTier(kind, dict, src, q, i, acc);
      } else {
        ScanStepEmit(kind, dict, src, q, i, acc);
      }
    }
  }

  lemma ScanPassUnfold(kind: MatchKind, dict: seq<Entry>, src: seq<string>, q: string, i: int, acc: Acc)
    requires kind != Fuzzy && |src| == |dict| && 0 <= i < |dict|
    ensures ScanPass(kind, dict, src, q, i, acc)
            == ScanPass(kind, dict, src, q, i + 1, if Qualifies(kind, src[i], q) then Emit(acc, kind, dict[i]) else acc)
  {
  }

  /** A whole scan pass keeps its invariant. */
  lemma {:induction false} ScanPassInv(kind: MatchKind, dict: seq<Entry>, src: seq<string>, q: string, i: int, acc: Acc)
    requires kind != Fuzzy && Consistent(dict, src)
    requires ScanInv(kind, dict, src, q, i, acc)
    ensures ScanInv(kind, dict, src, q, |dict|, ScanPass(kind, dict, src, q, i, acc))
    decreases |dict| - i
  {
    if i < |dict| {
      var next := if Qualifies(kind, src[i], q) then Emit(acc, kind, dict[i]) else acc;
      var r := ScanPass(kind, dict, src, q, i + 1, next);
      assert ScanInv(kind, dict, src, q, |dict|, r) by {
        ScanStep(kind, dict, src, q, i, acc);
        ScanPassInv(kind, dict, src, q, i + 1, next);
      }
      ScanPassUnfold(kind, dict, src, q, i, acc);
      ScanInvEqual(kind, dict, src, q, r, ScanPass(kind, dict, src, q, i, acc));
    }
  }

  /** The scan invariant holds of equal states alike. Logically redundant:
      `ScanPassInv` calls it so that the solver carries the invariant over
      the unfolding of `ScanPass` as one fact, which keeps that proof
      cheap. */
  lemma ScanInvEqual(kind: MatchKind, dict: seq<Entry>, src: seq<string>, q: string, a: Acc, b: Acc)
    requires a == b && ScanInv(kind, dict, src, q, |dict|, a)
    ensures ScanInv(kind, dict, src, q, |dict|, b)
  {
  }

  lemma FuzzySoundAppend(rs: seq<MatchResult>, m: MatchResult, dict: seq<Entry>, src: seq<string>, close: seq<string>)
    requires |src| == |dict|
    requires FuzzySound(rs, dict, src, close) && FuzzyWitnessed(m, dict, src, close)
    ensures FuzzySound(rs + [m], dict, src, close)
  {
    assert forall k :: 0 <= k < |rs| ==> (rs + [m])[k] == rs[k];
  }

  /** Emitting a fresh fuzzy result keeps the results well formed and
      witnessed. */
  lemma FuzzyEmitFresh(dict: seq<Entry>, src: seq<string>, close: seq<string>, acc: Acc, c: string)
    requires |src| == |dict| && c in close && c in src
    requires WellFormed(acc, dict) && FuzzySound(acc.results, dict, src, close)
    requires dict[IndexOf(src, c)] !in acc.seen
    ensures var next := Emit(acc, Fuzzy, dict[IndexOf(src, c)]);
            WellFormed(next, dict) && FuzzySound(next.results, dict, src, close)
  {
    var e := dict[IndexOf(src, c)];
    var m := MatchResult(Fuzzy, e.bugis, e.indo);
    assert m.Key() == e;
    EmitFresh(acc, Fuzzy, e, dict);
    assert FuzzyWitnessed(m, dict, src, close);
    FuzzySoundAppend(acc.results, m, dict, src, close);
  }

  /** One step of the fuzzy pass keeps its invariant. */
  lemma FuzzyStep(dict: seq<Entry>, src: seq<string>, close: seq<string>, j: int, acc: Acc)
    requires FuzzyInv(dict, src, close, j, acc) && j < |close|
    ensures FuzzyInv(dict, src, close, j + 1, Emit(acc, Fuzzy, dict[IndexOf(src, close[j])]))
  {
    var e := dict[IndexOf(src, close[j])];
    assert close[j] in close;
    if e !in acc.seen {
      FuzzyEmitFresh(dict, src, close, acc, close[j]);
    }
  }

  /** The whole fuzzy pass keeps its invariant. */
  lemma {:induction false} FuzzyPassInv(dict: seq<Entry>, src: seq<string>, close: seq<string>, j: int, acc: Acc)
    requires FuzzyInv(dict, src, close, j, acc)
    ensures FuzzyInv(dict, src, close, |close|, FuzzyPass(dict, src, close, j, acc))
    decreases |close| - j
  {
    if j < |close| {
      FuzzyStep(dict, src, close, j, acc);
      FuzzyPassInv(dict, src, close, j + 1, Emit(acc, Fuzzy, dict[IndexOf(src, close[j])]));
    }
  }

  /** Appending the first row of candidate `j`, which no earlier candidate
      stands for, keeps the fuzzy results in candidate order. */
  lemma FuzzyOrderedAppend(rs: seq<MatchResult>, m: MatchResult, dict: seq<Entry>, src: seq<string>,
                           close: seq<string>, j: int)
    requires |src| == |dict| && 0 <= j < |close| && forall c :: c in close ==> c in src
    requires FuzzyBefore(dict, src, close, j, rs) && FuzzyOrdered(rs, dict, src, close)
    requires m.kind == Fuzzy && m.Key() == dict[IndexOf(src, close[j])]
    requires forall t :: 0 <= t < j ==> dict[IndexOf(src, close[t])] != m.Key()
    ensures FuzzyBefore(dict, src, close, j + 1, rs + [m]) && FuzzyOrdered(rs + [m], dict, src, close)
  {
    var rs' := rs + [m];
    assert forall k :: 0 <= k < |rs| ==> rs'[k] == rs[k];
    assert rs'[|rs|] == m;
    forall a, b, t |
      && 0 <= a < b < |rs'| && rs'[a].kind == Fuzzy && rs'[b].kind == Fuzzy
      && 0 <= t < |close| && rs'[b].Key() == dict[IndexOf(src, close[t])]
      ensures exists u :: 0 <= u < t && rs'[a].Key() == dict[IndexOf(src, close[u])]
    {
      if b == |rs| {
        var u :| 0 <= u < j && rs[a].Key() == dict[IndexOf(src, close[u])];
        assert u < t;
      }
    }
  }

  /** One step of the fuzzy pass keeps the candidate order. */
  lemma FuzzyOrderStep(dict: seq<Entry>, src: seq<string>, close: seq<string>, j: int, acc: Acc)
    requires FuzzyOrderInv(dict, src, close, j, acc) && j < |close|
    ensures FuzzyOrderInv(dict, src, close, j + 1, Emit(acc, Fuzzy, dict[IndexOf(src, close[j])]))
  {
    FuzzyStep(dict, src, close, j, acc);
    var e := dict[IndexOf(src, close[j])];
    if e !in acc.seen {
      FuzzyOrderedAppend(acc.results, MatchResult(Fuzzy, e.bugis, e.indo), dict, src, close, j);
    }
  }

  /** The whole fuzzy pass emits its results in candidate order. */
  lemma {:induction false} FuzzyOrderPass(dict: seq<Entry>, src: seq<string>, close: seq<string>, j: int, acc: Acc)
    requires FuzzyOrderInv(dict, src, close, j, acc)
    ensures FuzzyOrdered(FuzzyPass(dict, src, close, j, acc).results, dict, src, close)
    decreases |close| - j
  {
    if j < |close| {
      FuzzyOrderStep(dict, src, close, j, acc);
      FuzzyOrderPass(dict, src, close, j + 1, Emit(acc, Fuzzy, dict[IndexOf(src, close[j])]));
    }
  }

  /** The substring pass starts where the exact pass ends. */
  lemma ExactToContains(dict: seq<Entry>, src: seq<string>, q: string, acc: Acc)
    requires ScanInv(Exact, dict, src, q, |dict|, acc)
    ensures ScanInv(Contains, dict, src, q, 0, acc)
  {
  }

  /** The fuzzy pass starts where the substring pass ends. */
  lemma ContainsToFuzzy(dict: seq<Entry>, src: seq<string>, close: seq<string>, acc: Acc)
    requires |src| == |dict| && forall c :: c in close ==> c in src
    requires WellFormed(acc, dict)
    requires forall k :: 0 <= k < |acc.results| ==> acc.results[k].kind != Fuzzy
    ensures FuzzyOrderInv(dict, src, close, 0, acc)
  {
  }

  /** Results a later pass keeps. */
  lemma PrefixMembers(a: seq<MatchResult>, b: seq<MatchResult>)
    requires a <= b
    ensures forall x :: x in a ==> x in b
  {
    assert forall k :: 0 <= k < |a| ==> b[k] == a[k];
  }

  /** Everything the three passes establish about their combined output. */
  lemma CollectFacts(dict: seq<Entry>, src: seq<string>, q: string, close: seq<string>)
    requires Consistent(dict, src) && forall c :: c in close ==> c in src
    ensures var exact := ScanPass(Exact, dict, src, q, 0, Acc([], {}));
            var contains := ScanPass(Contains, dict, src, q, 0, exact);
            var fuzzy := FuzzyPass(dict, src, close, 0, contains);
            && fuzzy.results == Collect(dict, src, q, close)
            && exact.results <= fuzzy.results && contains.results <= fuzzy.results
            && TierComplete(Exact, dict, src, q, |dict|, exact.results)
            && TierComplete(Contains, dict, src, q, |dict|, contains.results)
            && TierSound(Contains, dict, src, q, contains.results)
            && (forall k :: |contains.results| <= k < |fuzzy.results| ==> fuzzy.results[k].kind == Fuzzy)
            && FuzzyInv(dict, src, close, |close|, fuzzy)
            && FuzzyOrdered(fuzzy.results, dict, src, close)
  {
    var start := Acc([], {});
    assert ScanInv(Exact, dict, src, q, 0, start);
    ScanPassInv(Exact, dict, src, q, 0, start);
    var exact := ScanPass(Exact, dict, src, q, 0, start);
    ExactToContains(dict, src, q, exact);
    ScanPassInv(Contains, dict, src, q, 0, exact);
    var contains := ScanPass(Contains, dict, src, q, 0, exact);
    ContainsToFuzzy(dict, src, close, contains);
    FuzzyPassInv(dict, src, close, 0, contains);
    FuzzyOrderPass(dict, src, close, 0, contains);
  }

  /** The last key of a duplicate-free list is not among the earlier ones,
      and the earlier ones are duplicate free. */
  lemma DistinctLast(rs: seq<MatchResult>)
    requires Distinct(rs) && rs != []
    ensures Distinct(rs[..|rs| - 1])
    ensures rs[|rs| - 1].Key() !in Keys(rs[..|rs| - 1])
  {
    var init := rs[..|rs| - 1];
    forall x | x in init ensures x.Key() != rs[|rs| - 1].Key() {
      var k :| 0 <= k < |init| && init[k] == x;
      assert rs[k] == x;
    }
  }

  lemma KeysLast(rs: seq<MatchResult>)
    requires rs != []
    ensures Keys(rs) == Keys(rs[..|rs| - 1]) + {rs[|rs| - 1].Key()}
  {
    assert rs == rs[..|rs| - 1] + [rs[|rs| - 1]];
    KeysAppend(rs[..|rs| - 1], rs[|rs| - 1]);
  }

  /** Distinct keys: as many keys as results. */
  lemma {:induction false} DistinctKeysCount(rs: seq<MatchResult>)
    requires Distinct(rs)
    ensures |Keys(rs)| == |rs|
  {
    if rs != [] {
      DistinctLast(rs);
      DistinctKeysCount(rs[..|rs| - 1]);
      KeysLast(rs);
    }
  }

  /** A sequence has no more distinct elements than positions. */
  lemma {:induction false} ElementsCount<T>(s: seq<T>)
    ensures |set x | x in s| <= |s|
  {
    if s != [] {
      ElementsCount(s[1..]);
      assert (set x | x in s) == (set x | x in s[1..]) + {s[0]};
    }
  }

  /** A subset is no larger than its superset. */
  lemma {:induction false} SubsetCount<T>(a: set<T>, b: set<T>)
    requires a <= b
    ensures |a| <= |b|
    decreases |b|
  {
    if a != {} {
      var x :| x in a;
      SubsetCount(a - {x}, b - {x});
    }
  }

  /** A duplicate-free list of dictionary rows is no longer than the
      dictionary. */
  lemma DistinctRowsBound(rs: seq<MatchResult>, dict: seq<Entry>)
    requires Distinct(rs) && FromDictionary(rs, dict)
    ensures |rs| <= |dict|
  {
    DistinctKeysCount(rs);
    ElementsCount(dict);
    SubsetCount(Keys(rs), set x | x in dict);
  }

  /** The uncapped result list is duplicate free, drawn from the dictionary,
      ordered by tier, within the first two tiers by dictionary row, and
      within the fuzzy tier by candidate. */
  lemma CollectWellFormed(dict: seq<Entry>, src: seq<string>, q: string, close: seq<string>)
    requires Consistent(dict, src) && forall c :: c in close ==> c in src
    ensures var r := Collect(dict, src, q, close);
            Distinct(r) && FromDictionary(r, dict) && TierOrdered(r) && DictionaryOrdered(r, dict)
    ensures FuzzyOrdered(Collect(dict, src, q, close), dict, src, close)
  {
    CollectFacts(dict, src, q, close);
  }

  /** The uncapped result list never holds more records than the dictionary
      has rows. */
  lemma CollectLength(dict: seq<Entry>, src: seq<string>, q: string, close: seq<string>)
    requires Consistent(dict, src) && forall c :: c in close ==> c in src
    ensures |Collect(dict, src, q, close)| <= |dict|
  {
    CollectWellFormed(dict, src, q, close);
    DistinctRowsBound(Collect(dict, src, q, close), dict);
  }

  /** Every record of the uncapped result list passed the test of its tier. */
  lemma CollectJustified(dict: seq<Entry>, src: seq<string>, q: string, close: seq<string>)
    requires Consistent(dict, src) && forall c :: c in close ==> c in src
    ensures AllJustified(Collect(dict, src, q, close), dict, src, q, close)
  {
    CollectFacts(dict, src, q, close);
    var contains := ScanPass(Contains, dict, src, q, 0, ScanPass(Exact, dict, src, q, 0, Acc([], {})));
    var r := Collect(dict, src, q, close);
    forall k | 0 <= k < |r| ensures Justified(r[k], dict, src, q, close) {
      if k < |contains.results| {
        assert r[k] == contains.results[k];
      }
    }
  }

  /** At most `|close|` records are fuzzy, and they come last. */
  lemma CollectFuzzyBound(dict: seq<Entry>, src: seq<string>, q: string, close: seq<string>)
    requires Consistent(dict, src) && forall c :: c in close ==> c in src
    ensures var r := Collect(dict, src, q, close);
            forall k :: 0 <= k < |r| - |close| ==> r[k].kind != Fuzzy
  {
    CollectFacts(dict, src, q, close);
    var contains := ScanPass(Contains, dict, src, q, 0, ScanPass(Exact, dict, src, q, 0, Acc([], {})));
    var r := Collect(dict, src, q, close);
    forall k | 0 <= k < |r| - |close| ensures r[k].kind != Fuzzy {
      assert r[k] == contains.results[k];
    }
  }

  /** Every row whose source word equals the query has its exact record in
      the uncapped result list. */
  lemma CollectExactComplete(dict: seq<Entry>, src: seq<string>, q: string, close: seq<string>)
    requires Consistent(dict, src) && forall c :: c in close ==> c in src
    ensures var r := Collect(dict, src, q, close);
            forall i :: 0 <= i < |dict| && src[i] == q ==> MatchResult(Exact, dict[i].bugis, dict[i].indo) in r
  {
    CollectFacts(dict, src, q, close);
    PrefixMembers(ScanPass(Exact, dict, src, q, 0, Acc([], {})).results, Collect(dict, src, q, close));
  }

  /** Every row whose source word contains the query without equalling it
      has its substring record in the uncapped result list. */
  lemma CollectContainsComplete(dict: seq<Entry>, src: seq<string>, q: string, close: seq<string>)
    requires Consistent(dict, src) && forall c :: c in close ==> c in src
    ensures var r := Collect(dict, src, q, close);
            forall i :: 0 <= i < |dict| && IsSubstring(q, src[i]) && src[i] != q ==>
              MatchResult(Contains, dict[i].bugis, dict[i].indo) in r
  {
    CollectFacts(dict, src, q, close);
    var contains := ScanPass(Contains, dict, src, q, 0, ScanPass(Exact, dict, src, q, 0, Acc([], {})));
    PrefixMembers(contains.results, Collect(dict, src, q, close));
  }

  /** The first row of every close-match candidate is among the records. */
  lemma CollectFuzzyComplete(dict: seq<Entry>, src: seq<string>, q: string, close: seq<string>)
    requires Consistent(dict, src) && forall c :: c in close ==> c in src
    ensures forall c :: c in close ==> dict[IndexOf(src, c)] in Keys(Collect(dict, src, q, close))
  {
    CollectFacts(dict, src, q, close);
    forall c | c in close ensures dict[IndexOf(src, c)] in Keys(Collect(dict, src, q, close)) {
      var t :| 0 <= t < |close| && close[t] == c;
    }
  }
}
