# Kamus Bugis–Indonesia search, modelled in Dafny

The service is a small Flask application (`app.py`) that looks words up in a
Bugis–Indonesian dictionary `KAMUS`, a list of `(bugis, indonesia)` pairs.
Its core is two functions:

- `normalize(text)` strips the text, lower-cases it and turns every run of
  whitespace into one space.
- `search_kamus(query, direction, max_results=25)` normalises the query and
  returns nothing for a blank one. It picks the source column from
  `direction` and normalises that column of every row. Then it collects
  results in three passes that share one `seen` set of `(bugis, indo)`
  keys:
  - EXACT: the row's normalised source equals the query.
  - CONTAINS: the query is a proper substring of the row's source.
  - FUZZY: `difflib.get_close_matches` proposes up to ten candidates, and
    each candidate is resolved to the first row with that source.

  Finally it returns the first `max_results` records.

The model is split into modules:

- `Normalizer` (normalizer.dfy): Python's `str.isspace`, `strip`, `lower`
  and `re.sub(r"\s+", " ", ·)`, and `Normalize` itself. It proves the shape
  of the normal form, that no character is lost, and that `Normalize` is
  idempotent.
- `NormalizerWords` (normalizer_words.dfy): an independent reference,
  `" ".join(text.lower().split())`, and the proof that `Normalize` equals
  it.
- `Seqs` (seqs.dfy): the `in` substring test, `list.index` and the slice
  `s[:n]`, plus generic slice and concatenation lemmas (`TakePrefix`,
  `DropAppend`, `ConsParts`, `AppendAssoc`, `TakeDrop`, `HeadTail`).
- `Kamus` (kamus.dfy): the dictionary rows, the result records, the sample
  dictionary, and the choice of source column.
- `Matcher` (matcher.dfy): the three passes, `Collect` (the passes before
  truncation) and `Search`.
- `MatchInvariants` (match_invariants.dfy): the predicates the proofs need
  — distinct keys, tier order, dictionary order, why a record is present,
  and the loop invariants of the passes.
- `MatcherProperties` (matcher_properties.dfy): soundness, completeness,
  well-formedness and size of the uncapped result list.
- `SearchProperties` (search_properties.dfy): the same guarantees for the
  capped `Search`, stated on the normalised source column, plus cap
  monotonicity and facts about the sample dictionary.

The dictionary is a parameter of `Search`. `KAMUS` is the constant
`Kamus.SampleDictionary`. The close-match generator is a function
parameter. Its only assumed properties are those of
`difflib.get_close_matches`: it returns at most ten candidates, and each
one is among the words it was given (`Matcher.ValidCloseMatcher`).

## Model

| member | source | states |
|---|---|---|
| Normalizer.ToLower | app.py:29 | lower-casing keeps whitespace as whitespace and non-whitespace as non-whitespace, leaves no capital A–Z, maps each capital to its small letter, and leaves every other character unchanged |
| Normalizer.TrimStart | app.py:29 | the result is a suffix of the text, starts with a non-whitespace character or is empty, and everything dropped is whitespace |
| Normalizer.TrimEnd | app.py:29 | the result is a prefix of the text, ends with a non-whitespace character or is empty, and everything dropped is whitespace |
| Normalizer.Strip | app.py:29 | a stripped text neither starts nor ends with whitespace |
| Normalizer.StripSplit | app.py:29 | the text is a whitespace-only run, then the stripped text, then another whitespace-only run; with `Strip`'s contract this makes the stripped text exactly the middle between the leading and trailing whitespace |
| Normalizer.Lower | app.py:29 | lower-casing keeps the length and maps each character on its own |
| Normalizer.StripKeepsContent | app.py:29 | stripping removes only whitespace: the non-whitespace characters stay, in order |
| Normalizer.LowerKeepsContent | app.py:29 | lower-casing commutes with dropping whitespace |
| Normalizer.CollapseKeepsContent | app.py:30 | collapsing whitespace runs keeps every non-whitespace character, in order |
| Normalizer.CollapseEnds | app.py:30 | the collapse is empty only for the empty string; its first and last characters are the input's first and last characters, each whitespace character turned into a plain space |
| Normalizer.CollapseSingleSpaces | app.py:30 | after the collapse the only whitespace is the plain space |
| Normalizer.CollapseNoDoubleSpace | app.py:30 | after the collapse no two whitespace characters are adjacent |
| Normalizer.CollapseNoUpper | app.py:30 | the collapse introduces no capital letter |
| Normalizer.CollapseFixesCollapsed | app.py:30 | a string with single plain spaces only is left unchanged by the collapse |
| Normalizer.NormalizeSpec | app.py:28-31 | `None` and `""` normalise to `""`; the normal form has no capital A–Z, only single inner plain spaces, no whitespace at either end, and exactly the text's non-whitespace characters, lower-cased and in order |
| Normalizer.NormalizeFixesNormal | app.py:28-31 | a text already in normal form is its own normal form |
| Normalizer.NormalizeIdempotent | app.py:28-31 | normalising twice gives the same result as normalising once |
| Normalizer.NormalizeBlank | app.py:28-36 | a text normalises to `""` exactly when it is whitespace only, which is when the early return at app.py:35-36 fires |
| NormalizerWords.CollapseStrippedJoin | app.py:30 | on a text with no whitespace at either end, the collapse equals its words joined by single spaces |
| NormalizerWords.WordsStrip | app.py:29 | stripping does not change the words of a text |
| NormalizerWords.LowerStrip | app.py:29 | lower-casing and stripping commute |
| NormalizerWords.NormalizeSplitJoin | app.py:28-31 | `normalize(text)` equals `" ".join(text.lower().split())` |
| Seqs.IsSubstringOccurs | app.py:64 | `q in src` holds exactly when some slice of `src` equals `q` |
| Seqs.IndexOf | app.py:78 | `list.index` returns a position holding the element, and no earlier position holds it |
| Seqs.Take | app.py:89 | `s[:n]` is a prefix of `s` of length `min(n, len(s))` |
| Kamus.SourceColumn | app.py:39-42 | the Bugis column is searched exactly when the direction is `"bugis->id"`; every other direction searches the Indonesian column |
| Kamus.SourceWords | app.py:44 | `src_words` is parallel to the dictionary and holds each row's normalised source |
| Matcher.ScanPass | app.py:50-73 | an EXACT or CONTAINS pass only appends, appends at most one record per row it scans, and every record it appends has its own tier |
| Matcher.FuzzyPass | app.py:76-87 | the FUZZY pass only appends, appends at most one record per candidate, and every record it appends is FUZZY |
| Matcher.Search | app.py:33-89 | the result has at most `max_results` records and is empty for a blank query |
| Matcher.SearchDefault | app.py:33 | with the default cap the result has at most 25 records |
| MatcherProperties.ScanPassInv | app.py:50-73 | a pass started in a state satisfying its invariant ends with a well-formed list in which every record has this tier or an earlier one and passes its tier's test, and in which every row whose source passes this tier's test has its record of this tier |
| MatcherProperties.FuzzyPassInv | app.py:76-87 | the fuzzy pass keeps the list well-formed, every FUZZY record is the first row holding some candidate, and the first row of every candidate ends up in `seen` |
| MatcherProperties.FuzzyOrderPass | app.py:76-87 | the fuzzy pass emits its records in candidate order: of two FUZZY records, the earlier one stands for a candidate listed before every candidate the later one stands for |
| MatcherProperties.CollectWellFormed | app.py:46-87 | before truncation the records have distinct keys and come from the dictionary; they are ordered EXACT, CONTAINS, FUZZY, by first dictionary position within the first two tiers, and by candidate within the FUZZY tier |
| MatcherProperties.CollectJustified | app.py:50-87 | every record passes its tier's test; a FUZZY record is the first row holding one of the candidates |
| MatcherProperties.CollectFuzzyBound | app.py:76-87 | only the last `len(close)` records can be FUZZY, so there are at most as many FUZZY records as candidates |
| MatcherProperties.CollectLength | app.py:46-87 | never more records than the dictionary has rows |
| MatcherProperties.CollectExactComplete | app.py:50-60 | every row whose source equals the query has its EXACT record before truncation |
| MatcherProperties.CollectContainsComplete | app.py:63-73 | every row whose source properly contains the query has its CONTAINS record before truncation |
| MatcherProperties.CollectFuzzyComplete | app.py:76-87 | the first row of every candidate is present before truncation |
| SearchProperties.SearchWellFormed | app.py:33-89 | the capped result keeps distinct keys, dictionary rows only, tier order, dictionary order and candidate order |
| SearchProperties.SearchJustified | app.py:44-89 | every returned record matches the normalised query in its tier, stated on the row's normalised source |
| SearchProperties.SearchFuzzyBound | app.py:76-89 | at most ten FUZZY records are returned |
| SearchProperties.SearchLength | app.py:44-89 | a search returns no more records than the dictionary has rows |
| SearchProperties.TakeKeepsOrCrowds | app.py:89 | in a tier-ordered list, the cap keeps a record unless it fills the whole result with records of the same or a better tier |
| SearchProperties.CappedExactComplete | app.py:50-89 | after the cap, every exact row is present unless the cap is filled with EXACT records |
| SearchProperties.CappedContainsComplete | app.py:63-89 | after the cap, every substring row is present unless the cap is filled with EXACT and CONTAINS records |
| SearchProperties.SearchComplete | app.py:33-89 | every row whose normalised source equals the query is returned as EXACT unless the cap is filled with EXACT records; every row whose source properly contains it is returned as CONTAINS unless the cap is filled without FUZZY records |
| SearchProperties.TakeKeepsOrCrowdsFuzzy | app.py:89 | in a tier- and candidate-ordered list, the cap keeps a candidate's row unless it fills the whole result with EXACT and CONTAINS records and FUZZY records of earlier candidates |
| SearchProperties.CappedFuzzyComplete | app.py:76-89 | after the cap, the first row of every candidate is present unless the cap is filled with EXACT and CONTAINS records and FUZZY records of earlier candidates |
| SearchProperties.SearchFuzzyComplete | app.py:76-89 | the first row of every candidate is returned unless the cap is filled with EXACT and CONTAINS records and FUZZY records of candidates listed before it |
| SearchProperties.SearchFindsEveryEntry | app.py:33-89 | searching for a row's own non-blank source word returns that row as EXACT, unless the cap is filled with EXACT records |
| SearchProperties.SearchCapPrefix | app.py:89 | a smaller cap returns a prefix of what a larger cap returns |
| SearchProperties.SearchIgnoresQueryFormatting | app.py:34 | searching for a query or for its normal form gives the same result |
| SearchProperties.SearchPrefixOfUncapped | app.py:89 | the result is the first `min(max_results, n)` of the `n` uncapped records |
| SearchProperties.SampleFindsEveryBugisWord | app.py:12-89 | with the shipped dictionary and the default cap, searching for any Bugis word from Bugis to Indonesian returns its row as EXACT |
| SearchProperties.SampleFindsEveryIndonesianWord | app.py:12-89 | with the shipped dictionary and the default cap, searching for any Indonesian word in the other direction returns its row as EXACT |

## Left out

- The Flask application, its routes `/` and `/api/search`, templating and the development server (app.py:1, app.py:5, app.py:91-111) are I/O around the search and are not modelled.
- `difflib.get_close_matches` (app.py:76) is not modelled: its similarity ratio is floating point and its 0.6 cutoff cannot be expressed here. The close-match generator is a parameter of `Search`, and only the library's promises are assumed: at most ten candidates, each one a word from `src_words`. The FUZZY lemmas hold for every such generator. They keep the generator's candidate order, whatever it is; that `difflib` lists the most similar candidate first is not modelled.
- Normalizer.ToLower: lower-cases ASCII `A`–`Z` only, where Python's `str.lower()` (app.py:29) lower-cases every Unicode letter, including cases where one character becomes several. Unicode case mapping tables are not modelled.
- Normalizer.NormalizeSpec: its "no capital letter" clause is about ASCII capitals only, because of the ToLower restriction above.
- Normalizer.IsWhitespace: it is the set of characters that Python's `str.isspace` accepts. `re`'s `\s` on `str` patterns matches the same set, and the model assumes so.
- Matcher.Search: `max_results` is a `nat`. Python's negative slice `results[:-k]` (app.py:89) is not modelled; no caller passes a negative cap.
- Matcher.FuzzyPass: `src_words.index(cand)` (app.py:78) raises `ValueError` for a candidate outside `src_words`. `difflib` never returns one, so the model requires the candidates to come from the word list (`Matcher.ValidCloseMatcher`) and has no error path.
- The unused `tgt_idx` (app.py:40, app.py:42) is not modelled.
- `text or ""` (app.py:29) is modelled for `None` and for strings. Other falsy or non-string arguments are outside the type `Option<string>`.
- The direction string is free text. The code searches the Bugis column only for exactly `"bugis->id"` and the Indonesian column for every other string (app.py:39-42), including a misspelt direction. The model follows the code here, not a two-valued direction.
