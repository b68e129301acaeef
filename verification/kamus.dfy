/** The data of the Bugis–Indonesian dictionary (`KAMUS` in app.py) and of
    the records a search returns. */
module Kamus {
  import opened Normalizer

  /** One dictionary row `(bugis, indonesia)`; it is also the key the search
      deduplicates on. */
  datatype Entry = Entry(bugis: string, indo: string)

  /** Which side of an entry a search compares with the query. */
  datatype Column = BugisColumn | IndoColumn

  /** The three match tiers, in the order a search emits them. */
  datatype MatchKind = Exact | Contains | Fuzzy

  /** A result record `{"type", "bugis", "indo"}`. */
  datatype MatchResult = MatchResult(kind: MatchKind, bugis: string, indo: string) {
    /** The `(bugis, indo)` pair the search deduplicates on. */
    function Key(): Entry {
      Entry(bugis, indo)
    }
  }

  /** The sample dictionary the service ships with, `(bugis, indonesia)`
      per row. The search takes its dictionary as a parameter; this is one
      instance of it. */
  const SampleDictionary: seq<Entry> := [
    Entry("iye", "ya"),
    Entry("tania", "tidak"),
    Entry("makanja", "enak/baik"),
    Entry("sipakatau", "saling memanusiakan"),
    Entry("mappasitinaja", "mengucapkan terima kasih"),
    Entry("sitinaja", "terima kasih"),
    Entry("assalamu alaikum", "salam"),
    Entry("waalaikumsalam", "balasan salam"),
    Entry("bajik", "baik"),
    Entry("malebbi", "sopan/beradab"),
    Entry("pake", "pakai"),
    Entry("riolo", "dulu"),
    Entry("rioloe", "yang dahulu")
  ]

  /** The number of candidates `difflib.get_close_matches` is asked for. */
  const MaxCloseMatches: nat := 10

  /** The result cap a search uses when its caller names none. */
  const DefaultMaxResults: nat := 25

  /** Position of a tier in the output order. */
  function Rank(k: MatchKind): nat {
    match k
    case Exact => 0
    case Contains => 1
    case Fuzzy => 2
  }

  /** The direction string selects the source column: only "bugis->id"
      searches the Bugis side, every other string the Indonesian side. */
  function SourceColumn(direction: string): (c: Column)
    ensures c == BugisColumn <==> direction == "bugis->id"
  {
    if direction == "bugis->id" then BugisColumn else IndoColumn
  }

  function Source(e: Entry, c: Column): string {
    match c
    case BugisColumn => e.bugis
    case IndoColumn => e.indo
  }

  /** The normalised search key of an entry. */
  function NormalizedSource(e: Entry, c: Column): string {
    Normalize(Some(Source(e, c)))
  }

  /** `src_words`: the normalised source side of every entry, parallel to
      the dictionary. */
  function SourceWords(dict: seq<Entry>, c: Column): (src: seq<string>)
    ensures |src| == |dict|
    ensures forall i :: 0 <= i < |dict| ==> src[i] == NormalizedSource(dict[i], c)
  {
    seq(|dict|, i requires 0 <= i < |dict| => NormalizedSource(dict[i], c))
  }
}
