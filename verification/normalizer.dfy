/** The query/word canonicaliser of the dictionary service (`normalize` in
    app.py): a missing text counts as empty, the text is stripped of
    surrounding whitespace, lower-cased, and every run of whitespace inside it
    becomes one space.

    Whitespace is the set of characters Python's `str.isspace` and the regex
    class `\s` accept; lower-casing is modelled on ASCII letters only. */
module Normalizer {
  import opened Seqs

  /** A possibly missing text (Python's `None`). */
  datatype Option<+T> = None | Some(value: T)

  /** The characters `str.strip` removes and `\s` matches: Python's
      `str.isspace`. */
  predicate IsWhitespace(c: char) {
    || c == ' '
    || '\t' <= c <= '\r'
    || '\U{1C}' <= c <= '\U{1F}'
    || c == '\U{85}' || c == '\U{A0}' || c == '\U{1680}'
    || '\U{2000}' <= c <= '\U{200A}'
    || c == '\U{2028}' || c == '\U{2029}' || c == '\U{202F}' || c == '\U{205F}'
    || c == '\U{3000}'
  }

  /** Lower-cases an ASCII capital letter; every other character is kept. */
  function ToLower(c: char): (r: char)
    ensures IsWhitespace(r) <==> IsWhitespace(c)
    ensures !('A' <= r <= 'Z')
    ensures 'A' <= c <= 'Z' ==> 'a' <= r <= 'z' && r as int - c as int == 32
    ensures !('A' <= c <= 'Z') ==> r == c
  {
    if 'A' <= c <= 'Z' then (c as int + 32) as char else c
  }

  ghost predicate WhitespaceOnly(s: string) {
    forall k :: 0 <= k < |s| ==> IsWhitespace(s[k])
  }

  /** The non-whitespace characters of `s`, in order: what normalisation must
      keep (up to case). */
  function NonSpace(s: string): string {
    if s == [] then [] else Keep(s[0]) + NonSpace(s[1..])
  }

  /** A character's contribution to `NonSpace`. */
  function Keep(c: char): string {
    if IsWhitespace(c) then [] else [c]
  }

  /** Positions `k` and `k + 1` of `s` both hold whitespace. */
  predicate DoubleSpaceAt(s: string, k: int) {
    0 <= k && k + 1 < |s| && IsWhitespace(s[k]) && IsWhitespace(s[k + 1])
  }

  /** No character of `s` is an upper-case ASCII letter. */
  ghost predicate NoUpper(s: string) {
    forall k :: 0 <= k < |s| ==> !('A' <= s[k] <= 'Z')
  }

  /** Every whitespace character of `s` is a plain space. */
  ghost predicate SingleSpaces(s: string) {
    forall k :: 0 <= k < |s| && IsWhitespace(s[k]) ==> s[k] == ' '
  }

  /** No two whitespace characters of `s` are adjacent. */
  ghost predicate NoDoubleSpace(s: string) {
    forall k :: !DoubleSpaceAt(s, k)
  }

  /** The shape every normalised string has. */
  ghost predicate IsNormal(s: string) {
    && NoUpper(s)
    && SingleSpaces(s)
    && (s == [] || (!IsWhitespace(s[0]) && !IsWhitespace(s[|s| - 1])))
    && NoDoubleSpace(s)
  }

  /** Drops the leading whitespace (the left half of `str.strip`). */
  function TrimStart(s: string): (r: string)
    ensures |r| <= |s| && r == s[|s| - |r|..]
    ensures r == [] || !IsWhitespace(r[0])
    ensures forall k :: 0 <= k < |s| - |r| ==> IsWhitespace(s[k])
    decreases |s|
  {
    if s != [] && IsWhitespace(s[0]) then TrimStart(s[1..]) else s
  }

  /** Drops the trailing whitespace (the right half of `str.strip`). */
  function TrimEnd(s: string): (r: string)
    ensures |r| <= |s| && r == s[..|r|]
    ensures r == [] || !IsWhitespace(r[|r| - 1])
    ensures forall k :: |r| <= k < |s| ==> IsWhitespace(s[k])
    decreases |s|
  {
    if s != [] && IsWhitespace(s[|s| - 1]) then TrimEnd(s[..|s| - 1]) else s
  }

  /** Python's `str.strip()`: the whitespace at both ends removed. */
  function Strip(s: string): (r: string)
    ensures r == [] || (!IsWhitespace(r[0]) && !IsWhitespace(r[|r| - 1]))
  {
    var t := TrimStart(s);
    var r := TrimEnd(t);
    assert r != [] ==> r[0] == t[0];
    r
  }

  /** Stripping removes a whitespace run from each end of the text and
      nothing else: the text is that leading run, the stripped text, and
      that trailing run, in order. */
  lemma StripSplit(s: string)
    ensures exists lead, trail :: && WhitespaceOnly(lead) && WhitespaceOnly(trail)
                                  && s == lead + Strip(s) + trail
  {
    StripSplitParts(s, TrimStart(s), Strip(s));
  }

  /** `StripSplit` for the two trims' results, given what each trim
      promises. */
  lemma StripSplitParts(s: string, t: string, r: string)
    requires |t| <= |s| && t == s[|s| - |t|..]
    requires forall k :: 0 <= k < |s| - |t| ==> IsWhitespace(s[k])
    requires |r| <= |t| && r == t[..|r|]
    requires forall k :: |r| <= k < |t| ==> IsWhitespace(t[k])
    ensures exists lead, trail :: && WhitespaceOnly(lead) && WhitespaceOnly(trail)
                                  && s == lead + r + trail
  {
    TakeDrop(s, |s| - |t|);
    TakeDrop(t, |r|);
    AppendAssoc(s[..|s| - |t|], r, t[|r|..]);
    assert WhitespaceOnly(s[..|s| - |t|]) && WhitespaceOnly(t[|r|..]);
  }

  /** Python's `str.lower()` on the modelled (ASCII) letters. */
  function Lower(s: string): (r: string)
    ensures |r| == |s|
    ensures forall k :: 0 <= k < |s| ==> r[k] == ToLower(s[k])
  {
    if s == [] then [] else [ToLower(s[0])] + Lower(s[1..])
  }

  /** The character a collapsed run starts with: a space for whitespace. */
  function CollapseHead(c: char): (h: char)
    ensures IsWhitespace(h) <==> IsWhitespace(c)
    ensures IsWhitespace(h) ==> h == ' '
    ensures !IsWhitespace(c) ==> h == c
  {
    if IsWhitespace(c) then ' ' else c
  }

  /** What is left to collapse after the first character of `s`: a
      whitespace character takes the rest of its run with it. */
  function CollapseRest(s: string): (t: string)
    requires s != []
    ensures |t| < |s| && t == s[|s| - |t|..]
    ensures IsWhitespace(s[0]) ==> t == [] || !IsWhitespace(t[0])
    ensures !IsWhitespace(s[0]) ==> t == s[1..]
    ensures forall k :: 0 < k < |s| - |t| ==> IsWhitespace(s[k])
  {
    if IsWhitespace(s[0]) then
      var t := TrimStart(s[1..]);
      assert forall k :: 0 < k < |s| - |t| ==> s[k] == s[1..][k - 1];
      t
    else s[1..]
  }

  /** `re.sub(r"\s+", " ", s)`: every maximal run of whitespace becomes a
      single space. */
  function Collapse(s: string): string
    decreases |s|
  {
    if s == [] then [] else [CollapseHead(s[0])] + Collapse(CollapseRest(s))
  }

  /** `normalize(text)` of app.py. */
  function Normalize(text: Option<string>): string {
    var s := match text case None => "" case Some(t) => t;
    Collapse(Lower(Strip(s)))
  }

  /** The normal form has no upper-case ASCII letter, no whitespace but
      single inner spaces, and exactly the non-whitespace characters of the
      text, lower-cased, in order; a missing or empty text gives "". */
  lemma NormalizeSpec(text: Option<string>)
    ensures var r := Normalize(text);
            && IsNormal(r)
            && NonSpace(r) == Lower(NonSpace(if text.Some? then text.value else ""))
            && (text == None || text == Some("") ==> r == "")
  {
    var s := match text case None => "" case Some(t) => t;
    var stripped := Strip(s);
    var lowered := Lower(stripped);
    StripKeepsContent(s);
    LowerKeepsContent(stripped);
    CollapseEnds(lowered);
    CollapseSingleSpaces(lowered);
    CollapseNoDoubleSpace(lowered);
    CollapseNoUpper(lowered);
    CollapseKeepsContent(lowered);
  }

  lemma {:induction false} NonSpaceAppend(a: string, b: string)
    ensures NonSpace(a + b) == NonSpace(a) + NonSpace(b)
    decreases |a|
  {
    if a != [] {
      var head := Keep(a[0]);
      assert (a + b)[0] == a[0];
      assert (a + b)[1..] == a[1..] + b;
      NonSpaceAppend(a[1..], b);
      calc {
        NonSpace(a + b);
        head + NonSpace(a[1..] + b);
        head + (NonSpace(a[1..]) + NonSpace(b));
        (head + NonSpace(a[1..])) + NonSpace(b);
        NonSpace(a) + NonSpace(b);
      }
    } else {
      assert a + b == b;
    }
  }

  lemma {:induction false} NonSpaceOfWhitespace(s: string)
    ensures NonSpace(s) == [] <==> WhitespaceOnly(s)
    decreases |s|
  {
    if s != [] {
      NonSpaceOfWhitespace(s[1..]);
      if WhitespaceOnly(s[1..]) && IsWhitespace(s[0]) {
        assert forall k :: 1 <= k < |s| ==> s[k] == s[1..][k - 1];
      }
    }
  }

  /** Cutting off trailing whitespace does not change the content. */
  lemma NonSpaceCut(s: string, n: nat)
    requires n <= |s|
    requires forall k :: n <= k < |s| ==> IsWhitespace(s[k])
    ensures NonSpace(s[..n]) == NonSpace(s)
  {
    var tail := s[n..];
    assert WhitespaceOnly(tail) by {
      assert forall k :: 0 <= k < |tail| ==> tail[k] == s[n + k];
    }
    NonSpaceOfWhitespace(tail);
    assert s == s[..n] + tail;
    NonSpaceAppend(s[..n], tail);
  }

  lemma StripKeepsContent(s: string)
    ensures NonSpace(Strip(s)) == NonSpace(s)
  {
    var t := TrimStart(s);
    NonSpaceSkip(s, |s| - |t|);
    NonSpaceCut(t, |TrimEnd(t)|);
  }

  lemma {:induction false} LowerKeepsContent(s: string)
    ensures NonSpace(Lower(s)) == Lower(NonSpace(s))
    decreases |s|
  {
    if s != [] {
      LowerKeepsContent(s[1..]);
      assert Lower(s)[1..] == Lower(s[1..]);
      NonSpaceAppend([ToLower(s[0])], Lower(s[1..]));
      assert Lower(s) == [ToLower(s[0])] + Lower(s[1..]);
      var head := Keep(s[0]);
      assert NonSpace(s) == head + NonSpace(s[1..]);
      assert Lower(head + NonSpace(s[1..])) == Lower(head) + Lower(NonSpace(s[1..]));
    }
  }

  /** Skipping leading whitespace does not change the content. */
  lemma {:induction false} NonSpaceSkip(s: string, n: nat)
    requires n <= |s|
    requires forall k :: 0 <= k < n ==> IsWhitespace(s[k])
    ensures NonSpace(s[n..]) == NonSpace(s)
    decreases n
  {
    if n > 0 {
      NonSpaceSkip(s[1..], n - 1);
      assert s[1..][n - 1..] == s[n..];
    }
  }

  /** The characters a collapse step drops are whitespace only. */
  lemma CollapseRestContent(s: string)
    requires s != []
    ensures NonSpace(s[1..]) == NonSpace(CollapseRest(s))
  {
    var t := CollapseRest(s);
    var n := |s| - 1 - |t|;
    assert s[1..][n..] == t;
    NonSpaceSkip(s[1..], n);
  }

  /** Collapsing keeps every non-whitespace character, in order. */
  lemma {:induction false} CollapseKeepsContent(s: string)
    ensures NonSpace(Collapse(s)) == NonSpace(s)
    decreases |s|
  {
    if s != [] {
      var t := CollapseRest(s);
      var h := CollapseHead(s[0]);
      CollapseKeepsContent(t);
      CollapseRestContent(s);
      assert Collapse(s) == [h] + Collapse(t);
      assert Keep(h) == Keep(s[0]);
      NonSpaceAppend([h], Collapse(t));
      assert NonSpace([h]) == Keep(h) by {
        assert [h][1..] == [];
      }
    }
  }

  /** Collapsing empties only the empty string, and starts and ends with
      the collapsed first and last character. */
  lemma {:induction false} CollapseEnds(s: string)
    ensures Collapse(s) == [] <==> s == []
    ensures s != [] ==> Collapse(s)[0] == CollapseHead(s[0])
    ensures s != [] ==> Collapse(s)[|Collapse(s)| - 1] == CollapseHead(s[|s| - 1])
    ensures s != [] ==> (IsWhitespace(Collapse(s)[|Collapse(s)| - 1]) <==> IsWhitespace(s[|s| - 1]))
    decreases |s|
  {
    if s != [] {
      var t := CollapseRest(s);
      var h := CollapseHead(s[0]);
      CollapseEnds(t);
      var c := Collapse(t);
      assert Collapse(s) == [h] + c;
      if t == [] {
        assert |s| > 1 ==> IsWhitespace(s[|s| - 1]);
      } else {
        assert t[|t| - 1] == s[|s| - 1];
        assert Collapse(s)[|Collapse(s)| - 1] == c[|c| - 1];
      }
    }
  }

  lemma SingleSpacesCons(h: char, c: string)
    requires (IsWhitespace(h) ==> h == ' ') && SingleSpaces(c)
    ensures SingleSpaces([h] + c)
  {
    assert forall k :: 1 <= k < |c| + 1 ==> ([h] + c)[k] == c[k - 1];
  }

  /** Every whitespace character of a collapsed string is a space. */
  lemma {:induction false} CollapseSingleSpaces(s: string)
    ensures SingleSpaces(Collapse(s))
    decreases |s|
  {
    if s != [] {
      var t := CollapseRest(s);
      CollapseSingleSpaces(t);
      SingleSpacesCons(CollapseHead(s[0]), Collapse(t));
    }
  }

  lemma NoDoubleSpaceCons(h: char, c: string)
    requires NoDoubleSpace(c)
    requires c == [] || !IsWhitespace(h) || !IsWhitespace(c[0])
    ensures NoDoubleSpace([h] + c)
  {
    var r := [h] + c;
    assert !DoubleSpaceAt(r, 0);
    assert forall k :: 1 <= k && DoubleSpaceAt(r, k) ==> DoubleSpaceAt(c, k - 1) by {
      assert forall k :: 1 <= k < |r| ==> r[k] == c[k - 1];
    }
  }

  /** A collapsed string never holds two whitespace characters side by
      side. */
  lemma {:induction false} CollapseNoDoubleSpace(s: string)
    ensures NoDoubleSpace(Collapse(s))
    decreases |s|
  {
    if s != [] {
      var t := CollapseRest(s);
      CollapseNoDoubleSpace(t);
      CollapseEnds(t);
      NoDoubleSpaceCons(CollapseHead(s[0]), Collapse(t));
    }
  }

  lemma NoUpperSuffix(s: string, n: nat)
    requires NoUpper(s) && n <= |s|
    ensures NoUpper(s[n..])
  {
    assert forall k :: 0 <= k < |s| - n ==> s[n..][k] == s[n + k];
  }

  lemma NoUpperCons(h: char, c: string)
    requires !('A' <= h <= 'Z') && NoUpper(c)
    ensures NoUpper([h] + c)
  {
    assert forall k :: 1 <= k < |c| + 1 ==> ([h] + c)[k] == c[k - 1];
  }

  /** Collapsing introduces no upper-case ASCII letter. */
  lemma {:induction false} CollapseNoUpper(s: string)
    requires NoUpper(s)
    ensures NoUpper(Collapse(s))
    decreases |s|
  {
    if s != [] {
      var t := CollapseRest(s);
      NoUpperSuffix(s, |s| - |t|);
      CollapseNoUpper(t);
      NoUpperCons(CollapseHead(s[0]), Collapse(t));
    }
  }

  lemma SingleSpacesTail(s: string)
    requires SingleSpaces(s) && s != []
    ensures SingleSpaces(s[1..])
  {
    assert forall k :: 0 <= k < |s| - 1 ==> s[1..][k] == s[k + 1];
  }

  lemma NoDoubleSpaceTail(s: string)
    requires NoDoubleSpace(s) && s != []
    ensures NoDoubleSpace(s[1..])
  {
    assert forall k :: DoubleSpaceAt(s[1..], k) ==> DoubleSpaceAt(s, k + 1) by {
      assert forall k :: 0 <= k < |s| - 1 ==> s[1..][k] == s[k + 1];
    }
  }

  /** On a collapsed string a collapse step drops just the first
      character. */
  lemma CollapseRestCollapsed(s: string)
    requires NoDoubleSpace(s) && s != []
    ensures CollapseRest(s) == s[1..]
  {
    if IsWhitespace(s[0]) {
      assert !DoubleSpaceAt(s, 0);
      assert TrimStart(s[1..]) == s[1..];
    }
  }

  /** A string already in collapsed form is left alone. */
  lemma {:induction false} CollapseFixesCollapsed(s: string)
    requires SingleSpaces(s) && NoDoubleSpace(s)
    ensures Collapse(s) == s
    decreases |s|
  {
    if s != [] {
      CollapseRestCollapsed(s);
      SingleSpacesTail(s);
      NoDoubleSpaceTail(s);
      CollapseFixesCollapsed(s[1..]);
      assert IsWhitespace(s[0]) ==> s[0] == ' ';
      CollapseUnchangedStep(s);
    }
  }

  /** A collapse step that changes nothing leaves the string alone. */
  lemma CollapseUnchangedStep(s: string)
    requires s != [] && (IsWhitespace(s[0]) ==> s[0] == ' ')
    requires CollapseRest(s) == s[1..] && Collapse(s[1..]) == s[1..]
    ensures Collapse(s) == s
  {
    calc {
      Collapse(s);
      [CollapseHead(s[0])] + Collapse(CollapseRest(s));
      [s[0]] + s[1..];
      s;
    }
  }

  /** A normalised string is its own normal form. */
  lemma NormalizeFixesNormal(s: string)
    requires IsNormal(s)
    ensures Normalize(Some(s)) == s
  {
    assert TrimStart(s) == s;
    assert TrimEnd(s) == s;
    assert Strip(s) == s;
    assert Lower(s) == s;
    CollapseFixesCollapsed(s);
  }

  /** `normalize` is idempotent. */
  lemma NormalizeIdempotent(text: Option<string>)
    ensures Normalize(Some(Normalize(text))) == Normalize(text)
  {
    NormalizeSpec(text);
    NormalizeFixesNormal(Normalize(text));
  }

  /** A text normalises to the empty string exactly when it holds nothing but
      whitespace. */
  lemma NormalizeBlank(s: string)
    ensures Normalize(Some(s)) == [] <==> WhitespaceOnly(s)
  {
    var r := Normalize(Some(s));
    NormalizeSpec(Some(s));
    NonSpaceOfWhitespace(s);
    if r != [] {
      NonSpaceAppend([r[0]], r[1..]);
      assert r == [r[0]] + r[1..];
    }
  }
}
