/** Python sequence and string operations the matcher relies on. */
module Seqs {

  /** `needle` occupies `hay` from position `k` on. */
  ghost predicate OccursAt<T>(needle: seq<T>, hay: seq<T>, k: int) {
    0 <= k <= |hay| - |needle| && hay[k..k + |needle|] == needle
  }

  /** Python's `needle in hay` on strings. */
  function IsSubstring<T(==)>(needle: seq<T>, hay: seq<T>): bool
    decreases |hay|
  {
    if |needle| > |hay| then false
    else if hay[..|needle|] == needle then true
    else IsSubstring(needle, hay[1..])
  }

  /** `needle in hay` holds exactly when some slice of `hay` equals
      `needle`. */
  lemma {:induction false} IsSubstringOccurs<T>(needle: seq<T>, hay: seq<T>)
    ensures IsSubstring(needle, hay) <==> exists k :: OccursAt(needle, hay, k)
    decreases |hay|
  {
    if |needle| > |hay| {
    } else if hay[..|needle|] == needle {
      assert OccursAt(needle, hay, 0);
    } else {
      ShiftOccurrence(needle, hay);
      IsSubstringOccurs(needle, hay[1..]);
    }
  }

  /** Past the first position, occurrences in `hay` are the occurrences in
      its tail, shifted by one. */
  lemma ShiftOccurrence<T>(needle: seq<T>, hay: seq<T>)
    requires |needle| <= |hay| && hay[..|needle|] != needle
    ensures (exists k :: OccursAt(needle, hay, k)) <==> (exists k :: OccursAt(needle, hay[1..], k))
  {
    if k :| OccursAt(needle, hay, k) {
      assert k != 0;
      assert hay[1..][k - 1..k - 1 + |needle|] == hay[k..k + |needle|];
      assert OccursAt(needle, hay[1..], k - 1);
    }
    if k :| OccursAt(needle, hay[1..], k) {
      assert hay[1..][k..k + |needle|] == hay[k + 1..k + 1 + |needle|];
      assert OccursAt(needle, hay, k + 1);
    }
  }

  /** Python's `list.index(x)`: the first position holding `x`. The call
      raises when `x` is absent; every caller here passes an element of the
      list. */
  function IndexOf<T(==)>(s: seq<T>, x: T): (i: nat)
    requires x in s
    ensures i < |s| && s[i] == x
    ensures forall j :: 0 <= j < i ==> s[j] != x
  {
    if s[0] == x then 0 else 1 + IndexOf(s[1..], x)
  }

  /** Python's slice `s[:n]` for a non-negative `n`. */
  function Take<T>(s: seq<T>, n: nat): (r: seq<T>)
    ensures |r| == if n < |s| then n else |s|
    ensures r == s[..|r|]
  {
    if n < |s| then s[..n] else s
  }

  /** A shorter slice `s[:m]` is a prefix of a longer one `s[:n]`. */
  lemma TakePrefix<T>(s: seq<T>, m: nat, n: nat)
    requires m <= n
    ensures Take(s, m) == Take(s, n)[..|Take(s, m)|]
  {
  }

  /** `(a + b)[n:] == a[n:] + b` for a cut inside `a`. */
  lemma DropAppend<T>(a: seq<T>, b: seq<T>, n: nat)
    requires n <= |a|
    ensures (a + b)[n..] == a[n..] + b
  {
  }

  /** `[x] + t` taken apart again. */
  lemma ConsParts<T>(x: T, t: seq<T>)
    ensures ([x] + t)[0] == x && ([x] + t)[1..] == t
  {
  }

  /** Concatenation is associative. */
  lemma AppendAssoc<T>(a: seq<T>, b: seq<T>, c: seq<T>)
    ensures a + (b + c) == a + b + c
  {
  }

  /** A sequence is its prefix followed by the rest. */
  lemma TakeDrop<T>(s: seq<T>, n: nat)
    requires n <= |s|
    ensures s[..n] + s[n..] == s
  {
  }

  /** A non-empty sequence is its head followed by its tail. */
  lemma HeadTail<T>(w: seq<T>)
    requires w != []
    ensures [w[0]] + w[1..] == w
  {
  }
}
