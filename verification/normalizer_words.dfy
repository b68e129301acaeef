/** An independent description of `normalize`: the lower-cased words of the
    text joined by single spaces, Python's `" ".join(text.lower().split())`. */
module NormalizerWords {
  import opened Normalizer
  import opened Seqs

  /** The longest prefix of `s` without whitespace. */
  function WordPrefix(s: string): (w: string)
    ensures |w| <= |s| && w == s[..|w|]
    ensures forall k :: 0 <= k < |w| ==> !IsWhitespace(w[k])
    ensures |w| < |s| ==> IsWhitespace(s[|w|])
    ensures s != [] && !IsWhitespace(s[0]) ==> w != []
    decreases |s|
  {
    if s == [] || IsWhitespace(s[0]) then []
    else
      var w := [s[0]] + WordPrefix(s[1..]);
      assert w == s[..|w|];
      w
  }

  /** Python's `s.split()`: the maximal runs of non-whitespace characters,
      in order. */
  function Words(s: string): seq<string>
    decreases |s|
  {
    var t := TrimStart(s);
    if t == [] then []
    else
      var w := WordPrefix(t);
      [w] + Words(t[|w|..])
  }

  /** Python's `" ".join(ws)`. */
  function Join(ws: seq<string>): string {
    if ws == [] then []
    else if |ws| == 1 then ws[0]
    else ws[0] + " " + Join(ws[1..])
  }

  /** A string starting with a non-whitespace character is its own trim. */
  lemma TrimStartFixed(s: string)
    requires s == [] || !IsWhitespace(s[0])
    ensures TrimStart(s) == s
  {
  }

  /** A non-whitespace character passes through the collapse unchanged. */
  lemma CollapseLetter(s: string)
    requires s != [] && !IsWhitespace(s[0])
    ensures Collapse(s) == [s[0]] + Collapse(s[1..])
  {
    assert CollapseHead(s[0]) == s[0] && CollapseRest(s) == s[1..];
  }

  /** A whitespace run becomes one space. */
  lemma CollapseSpace(s: string)
    requires s != [] && IsWhitespace(s[0])
    ensures Collapse(s) == [' '] + Collapse(TrimStart(s[1..]))
  {
    assert CollapseHead(s[0]) == ' ' && CollapseRest(s) == TrimStart(s[1..]);
  }

  /** A word passes through the collapse unchanged. */
  lemma {:induction false} CollapseWord(w: string, x: string)
    requires forall k :: 0 <= k < |w| ==> !IsWhitespace(w[k])
    ensures Collapse(w + x) == w + Collapse(x)
    decreases |w|
  {
    if w == [] {
      assert w + x == x;
    } else {
      CollapseWordStep(w, x, Collapse(w[1..] + x));
      CollapseWord(w[1..], x);
      AppendAssoc([w[0]], w[1..], Collapse(x));
      HeadTail(w);
    }
  }

  /** One character of a word through the collapse. */
  lemma CollapseWordStep(w: string, x: string, c: string)
    requires w != [] && !IsWhitespace(w[0])
    requires c == Collapse(w[1..] + x)
    ensures Collapse(w + x) == [w[0]] + c
  {
    DropAppend(w, x, 1);
    assert (w + x)[0] == w[0];
    CollapseLetter(w + x);
  }

  /** Leading whitespace does not change the words. */
  lemma WordsTrimStart(s: string)
    ensures Words(TrimStart(s)) == Words(s)
  {
    TrimStartFixed(TrimStart(s));
  }

  /** The words of a string that starts with a word. */
  lemma WordsStep(s: string)
    requires s != [] && !IsWhitespace(s[0])
    ensures Words(s) == [WordPrefix(s)] + Words(s[|WordPrefix(s)|..])
  {
    TrimStartFixed(s);
  }

  /** Past a whitespace character the words are those of the rest. */
  lemma WordsSpace(s: string)
    requires s != [] && IsWhitespace(s[0])
    ensures Words(s) == Words(TrimStart(s[1..]))
  {
    assert TrimStart(s) == TrimStart(s[1..]);
    TrimStartFixed(TrimStart(s[1..]));
  }

  /** Text after a non-blank string survives its leading-whitespace trim. */
  lemma {:induction false} TrimStartAppend(y: string, r: string)
    requires TrimStart(y) != []
    ensures TrimStart(y + r) == TrimStart(y) + r
    decreases |y|
  {
    assert (y + r)[0] == y[0];
    if IsWhitespace(y[0]) {
      DropAppend(y, r, 1);
      TrimStartAppend(y[1..], r);
    }
  }

  /** Text starting with whitespace does not extend the first word. */
  lemma {:induction false} WordPrefixAppend(t: string, r: string)
    requires r == [] || IsWhitespace(r[0])
    ensures WordPrefix(t + r) == WordPrefix(t)
    decreases |t|
  {
    if t == [] {
      assert t + r == r;
    } else {
      assert (t + r)[0] == t[0];
      if !IsWhitespace(t[0]) {
        DropAppend(t, r, 1);
        WordPrefixAppend(t[1..], r);
      }
    }
  }

  /** A string of whitespace trims to nothing. */
  lemma {:induction false} TrimStartBlank(s: string)
    requires WhitespaceOnly(s)
    ensures TrimStart(s) == []
    decreases |s|
  {
    if s != [] {
      TrimStartBlank(s[1..]);
    }
  }

  /** A string that trims to nothing followed by whitespace is blank. */
  lemma BlankAppend(y: string, r: string)
    requires TrimStart(y) == [] && WhitespaceOnly(r)
    ensures WhitespaceOnly(y + r)
  {
    assert WhitespaceOnly(y);
  }

  /** Trailing whitespace does not change the words. */
  lemma {:induction false} WordsAppendSpace(y: string, r: string)
    requires WhitespaceOnly(r)
    ensures Words(y + r) == Words(y)
    decreases |y|
  {
    var t := TrimStart(y);
    if t == [] {
      BlankAppend(y, r);
      TrimStartBlank(y + r);
    } else {
      TrimStartAppend(y, r);
      var w := WordPrefix(t);
      WordPrefixAppend(t, r);
      WordsAppendSpaceStep(t, r, w);
      WordsAppendSpace(t[|w|..], r);
    }
  }

  /** The words of `t + r` and of `t`, one word in, for a non-blank `t`. */
  lemma WordsAppendSpaceStep(t: string, r: string, w: string)
    requires t != [] && !IsWhitespace(t[0])
    requires w == WordPrefix(t) && WordPrefix(t + r) == w
    ensures Words(t + r) == [w] + Words(t[|w|..] + r)
    ensures Words(t) == [w] + Words(t[|w|..])
  {
    assert (t + r)[0] == t[0];
    WordsStep(t + r);
    WordsStep(t);
    DropAppend(t, r, |w|);
  }

  /** Stripping does not change the words. */
  lemma WordsStrip(s: string)
    ensures Words(Strip(s)) == Words(s)
  {
    var t := TrimStart(s);
    var e := TrimEnd(t);
    assert t == e + t[|e|..];
    WordsAppendSpace(e, t[|e|..]);
    WordsTrimStart(s);
  }

  /** `" ".join([w] + ws)` for a non-empty `ws`. */
  lemma JoinCons(w: string, ws: seq<string>)
    requires ws != []
    ensures Join([w] + ws) == w + " " + Join(ws)
  {
    ConsParts(w, ws);
  }

  /** On a stripped string the collapse joins the words with single
      spaces. */
  lemma {:induction false} CollapseStrippedJoin(s: string)
    requires s == [] || (!IsWhitespace(s[0]) && !IsWhitespace(s[|s| - 1]))
    ensures Collapse(s) == Join(Words(s))
    decreases |s|
  {
    if s != [] {
      var w := WordPrefix(s);
      var rest := s[|w|..];
      if rest == [] {
        assert s == w;
        WordsStep(s);
        CollapseWord(w, []);
        assert w + [] == w;
      } else {
        var tail := TrimStart(rest[1..]);
        StrippedTail(s, w, rest, tail);
        CollapseStrippedJoin(tail);
        JoinStep(s, w, rest, tail);
      }
    }
  }

  /** What follows the first word and the whitespace after it in a stripped
      string is again stripped, shorter, and not empty. */
  lemma StrippedTail(s: string, w: string, rest: string, tail: string)
    requires s != [] && !IsWhitespace(s[0]) && !IsWhitespace(s[|s| - 1])
    requires w == WordPrefix(s) && rest == s[|w|..] && rest != []
    requires tail == TrimStart(rest[1..])
    ensures IsWhitespace(rest[0])
    ensures tail != [] && !IsWhitespace(tail[0]) && !IsWhitespace(tail[|tail| - 1])
    ensures |tail| < |s|
  {
    assert rest[0] == s[|w|];
    assert rest[|rest| - 1] == s[|s| - 1];
    if tail != [] {
      assert tail[|tail| - 1] == rest[1..][|rest| - 2];
    }
  }

  /** The collapse half of the inductive step of `CollapseStrippedJoin`:
      the first word, one space, then the collapse of the rest. */
  lemma CollapseStep(s: string, w: string, rest: string, tail: string)
    requires forall k :: 0 <= k < |w| ==> !IsWhitespace(w[k])
    requires s == w + rest && rest != [] && IsWhitespace(rest[0])
    requires tail == TrimStart(rest[1..])
    ensures Collapse(s) == w + " " + Collapse(tail)
  {
    CollapseWord(w, rest);
    CollapseSpace(rest);
    AppendAssoc(w, " ", Collapse(tail));
  }

  /** The word half of the inductive step of `CollapseStrippedJoin`: the
      first word, then the words of the rest, of which there is one at
      least. */
  lemma WordsStepTail(s: string, w: string, rest: string, tail: string)
    requires s != [] && !IsWhitespace(s[0])
    requires w == WordPrefix(s) && rest == s[|w|..] && rest != [] && IsWhitespace(rest[0])
    requires tail == TrimStart(rest[1..]) && tail != [] && !IsWhitespace(tail[0])
    ensures Words(s) == [w] + Words(tail) && Words(tail) != []
  {
    WordsStep(s);
    WordsSpace(rest);
    WordsStep(tail);
  }

  /** The inductive step of `CollapseStrippedJoin`. */
  lemma JoinStep(s: string, w: string, rest: string, tail: string)
    requires s != [] && !IsWhitespace(s[0])
    requires w == WordPrefix(s) && rest == s[|w|..] && rest != [] && IsWhitespace(rest[0])
    requires tail == TrimStart(rest[1..]) && tail != [] && !IsWhitespace(tail[0])
    requires Collapse(tail) == Join(Words(tail))
    ensures Collapse(s) == Join(Words(s))
  {
    TakeDrop(s, |w|);
    CollapseStep(s, w, rest, tail);
    WordsStepTail(s, w, rest, tail);
    JoinCons(w, Words(tail));
  }

  lemma {:induction false} LowerTrimStart(s: string)
    ensures TrimStart(Lower(s)) == Lower(TrimStart(s))
    decreases |s|
  {
    if s != [] {
      assert Lower(s)[1..] == Lower(s[1..]);
      if IsWhitespace(s[0]) {
        LowerTrimStart(s[1..]);
      }
    }
  }

  lemma {:induction false} LowerTrimEnd(s: string)
    ensures TrimEnd(Lower(s)) == Lower(TrimEnd(s))
    decreases |s|
  {
    if s != [] {
      var n := |s| - 1;
      assert Lower(s)[..n] == Lower(s[..n]);
      if IsWhitespace(s[n]) {
        LowerTrimEnd(s[..n]);
      }
    }
  }

  /** Lower-casing and stripping commute: lower-casing keeps whitespace
      whitespace. */
  lemma LowerStrip(s: string)
    ensures Lower(Strip(s)) == Strip(Lower(s))
  {
    LowerTrimStart(s);
    LowerTrimEnd(TrimStart(s));
  }

  /** `normalize(text)` is `" ".join(text.lower().split())`: the lower-cased
      words of the text, joined by single spaces. */
  lemma NormalizeSplitJoin(s: string)
    ensures Normalize(Some(s)) == Join(Words(Lower(s)))
  {
    LowerStrip(s);
    var x := Lower(s);
    CollapseStrippedJoin(Strip(x));
    WordsStrip(x);
  }
}
