/**
  The sentence split `tts` uses before packing, a regular-expression split
  with a look-behind for terminal punctuation. A split point is a
  whitespace run that directly follows `.`, `!` or `?`; the run is consumed
  greedily and dropped, and what lies between split points is returned in
  order.
 */
module Sentences {
  import opened Text

  /** The characters the look-behind accepts: terminal punctuation. */
  predicate IsTerminal(c: char) {
    c == '.' || c == '!' || c == '?'
  }

  /** A match of the split pattern can start at position `i` of `s`. */
  predicate BreakAt(s: string, i: int) {
    0 < i < |s| && IsTerminal(s[i - 1]) && IsSpace(s[i])
  }

  /** No split point lies inside `s`. */
  predicate NoBreak(s: string) {
    forall i :: 0 < i < |s| ==> !BreakAt(s, i)
  }

  /** The leftmost split point at or after `from`, or `|s|` if there is none. */
  function FirstBreak(s: string, from: nat): (i: nat)
    requires from <= |s|
    ensures from <= i <= |s|
    ensures i < |s| ==> BreakAt(s, i)
    ensures forall k :: from <= k < i ==> !BreakAt(s, k)
    decreases |s| - from
  {
    if from == |s| || BreakAt(s, from) then from else FirstBreak(s, from + 1)
  }

  /** `pieces[0] + gaps[0] + pieces[1] + ... + pieces[|gaps|]`. */
  function Weave(pieces: seq<string>, gaps: seq<string>): string
    requires |pieces| == |gaps| + 1
    decreases |gaps|
  {
    if |gaps| == 0 then pieces[0] else pieces[0] + gaps[0] + Weave(pieces[1..], gaps[1..])
  }

  /** The pieces of a split together with the separators it dropped. */
  datatype Split = Split(pieces: seq<string>, gaps: seq<string>)

  /** Every separator is a non-empty whitespace run. */
  predicate SpaceRuns(gaps: seq<string>) {
    forall k :: 0 <= k < |gaps| ==> gaps[k] != [] && AllSpaces(gaps[k])
  }

  /** Every piece but the last ends in terminal punctuation. */
  predicate TerminalEnds(pieces: seq<string>) {
    forall k :: 0 <= k < |pieces| - 1 ==> pieces[k] != [] && IsTerminal(pieces[k][|pieces[k]| - 1])
  }

  /** No piece contains a split point. */
  predicate BreakFree(pieces: seq<string>) {
    forall k :: 0 <= k < |pieces| ==> NoBreak(pieces[k])
  }

  /** No piece after a separator starts with whitespace, so no separator
      could have been longer. */
  predicate MaximalGaps(pieces: seq<string>) {
    forall k :: 0 < k < |pieces| ==> pieces[k] == [] || !IsSpace(pieces[k][0])
  }

  /** What a split of `s` at the pattern's matches looks like, stated
      without reference to how the matches are found: the pieces and the
      dropped separators interleave back to `s`, and the four shape
      predicates above hold. */
  predicate IsSentenceSplit(s: string, pieces: seq<string>, gaps: seq<string>) {
    && |pieces| == |gaps| + 1
    && Weave(pieces, gaps) == s
    && SpaceRuns(gaps)
    && TerminalEnds(pieces)
    && BreakFree(pieces)
    && MaximalGaps(pieces)
  }

  lemma WeaveCons(p: string, g: string, pieces: seq<string>, gaps: seq<string>)
    requires |pieces| == |gaps| + 1
    ensures Weave([p] + pieces, [g] + gaps) == p + g + Weave(pieces, gaps)
  {
    assert ([p] + pieces)[1..] == pieces;
    assert ([g] + gaps)[1..] == gaps;
  }

  /** A woven string starts with its first piece. */
  lemma WeaveStartsWithFirst(pieces: seq<string>, gaps: seq<string>)
    requires |pieces| == |gaps| + 1
    ensures |pieces[0]| <= |Weave(pieces, gaps)|
    ensures Weave(pieces, gaps)[..|pieces[0]|] == pieces[0]
  {
  }

  /** A prefix that stops before the first split point holds no split point. */
  lemma NoBreakBefore(s: string, i: nat)
    requires i <= |s|
    requires forall k :: 0 <= k < i ==> !BreakAt(s, k)
    ensures NoBreak(s[..i])
  {
    forall k | 0 < k < i ensures !BreakAt(s[..i], k) {
      assert !BreakAt(s, k);
      assert s[..i][k - 1] == s[k - 1] && s[..i][k] == s[k];
    }
  }

  /** A sentence, its separator and a split of the rest make a split of the whole. */
  lemma ConsSplit(p: string, g: string, rest: string, pieces: seq<string>, gaps: seq<string>)
    requires p != [] && IsTerminal(p[|p| - 1]) && NoBreak(p)
    requires g != [] && AllSpaces(g)
    requires IsSentenceSplit(rest, pieces, gaps)
    requires rest == [] || !IsSpace(rest[0])
    ensures IsSentenceSplit(p + g + rest, [p] + pieces, [g] + gaps)
  {
    var ps, gs := [p] + pieces, [g] + gaps;
    WeaveCons(p, g, pieces, gaps);
    WeaveStartsWithFirst(pieces, gaps);
    assert SpaceRuns(gs) by {
      forall k | 0 < k < |gs| ensures gs[k] != [] && AllSpaces(gs[k]) {
        assert gs[k] == gaps[k - 1];
      }
    }
    assert TerminalEnds(ps) by {
      forall k | 0 < k < |ps| - 1 ensures ps[k] != [] && IsTerminal(ps[k][|ps[k]| - 1]) {
        assert ps[k] == pieces[k - 1];
      }
    }
    assert BreakFree(ps) by {
      forall k | 0 < k < |ps| ensures NoBreak(ps[k]) {
        assert ps[k] == pieces[k - 1];
      }
    }
    assert MaximalGaps(ps) by {
      assert pieces[0] == [] || pieces[0][0] == rest[0];
      forall k | 1 < k < |ps| ensures ps[k] == [] || !IsSpace(ps[k][0]) {
        assert ps[k] == pieces[k - 1];
      }
    }
  }

  /** Dropping the first sentence and separator of a split leaves a split of the rest. */
  lemma TailSplit(s: string, pieces: seq<string>, gaps: seq<string>)
    requires IsSentenceSplit(s, pieces, gaps)
    requires |gaps| > 0
    ensures IsSentenceSplit(Weave(pieces[1..], gaps[1..]), pieces[1..], gaps[1..])
    ensures Weave(pieces[1..], gaps[1..]) == [] || !IsSpace(Weave(pieces[1..], gaps[1..])[0])
  {
    var ps, gs := pieces[1..], gaps[1..];
    assert SpaceRuns(gs) by {
      forall k | 0 <= k < |gs| ensures gs[k] != [] && AllSpaces(gs[k]) {
        assert gs[k] == gaps[k + 1];
      }
    }
    assert TerminalEnds(ps) by {
      forall k | 0 <= k < |ps| - 1 ensures ps[k] != [] && IsTerminal(ps[k][|ps[k]| - 1]) {
        assert ps[k] == pieces[k + 1];
      }
    }
    assert BreakFree(ps) by {
      forall k | 0 <= k < |ps| ensures NoBreak(ps[k]) {
        assert ps[k] == pieces[k + 1];
      }
    }
    assert MaximalGaps(ps) by {
      forall k | 0 < k < |ps| ensures ps[k] == [] || !IsSpace(ps[k][0]) {
        assert ps[k] == pieces[k + 1];
      }
    }
    WeaveStartsWithFirst(ps, gs);
  }

  /** Cutting `s` at its first split point `i`, with the whitespace run
      ending at `j`, and putting a split of the rest behind it gives a split
      of `s`. */
  lemma SplitStep(s: string, i: nat, pieces: seq<string>, gaps: seq<string>)
    requires i < |s| && i == FirstBreak(s, 0)
    requires IsSentenceSplit(s[SkipSpaces(s, i)..], pieces, gaps)
    ensures IsSentenceSplit(s, [s[..i]] + pieces, [s[i..SkipSpaces(s, i)]] + gaps)
  {
    var j := SkipSpaces(s, i);
    var p, g, rest := s[..i], s[i..j], s[j..];
    NoBreakBefore(s, i);
    assert BreakAt(s, i);
    assert p != [] && p[|p| - 1] == s[i - 1];
    assert g != [] && AllSpaces(g) by {
      assert g[0] == s[i];
      forall k | 0 <= k < |g| ensures IsSpace(g[k]) {
        assert g[k] == s[i + k];
      }
    }
    assert rest == [] || rest[0] == s[j];
    ConsSplit(p, g, rest, pieces, gaps);
    assert p + g + rest == s;
  }

  /** The regular-expression split of `s`, keeping the dropped separators. */
  function SplitSentences(s: string): (r: Split)
    ensures IsSentenceSplit(s, r.pieces, r.gaps)
    decreases |s|
  {
    var i := FirstBreak(s, 0);
    if i == |s| then
      NoBreakBefore(s, i);
      assert s[..|s|] == s;
      Split([s], [])
    else
      var j := SkipSpaces(s, i);
      var rest := SplitSentences(s[j..]);
      SplitStep(s, i, rest.pieces, rest.gaps);
      Split([s[..i]] + rest.pieces, [s[i..j]] + rest.gaps)
  }

  /** The first sentence of any split with the shape `IsSentenceSplit`
      describes ends at the first split point, and its separator is the
      whole whitespace run there. */
  lemma FirstSentenceUnique(s: string, pieces: seq<string>, gaps: seq<string>)
    requires IsSentenceSplit(s, pieces, gaps)
    requires |gaps| > 0
    ensures FirstBreak(s, 0) == |pieces[0]| < |s|
    ensures SkipSpaces(s, |pieces[0]|) == |pieces[0]| + |gaps[0]|
    ensures s[..|pieces[0]|] == pieces[0]
    ensures s[|pieces[0]|..|pieces[0]| + |gaps[0]|] == gaps[0]
    ensures s[|pieces[0]| + |gaps[0]|..] == Weave(pieces[1..], gaps[1..])
  {
    var p, g := pieces[0], gaps[0];
    var rest := Weave(pieces[1..], gaps[1..]);
    assert s == p + g + rest;
    var n := |p|;
    FirstBreakAtEnd(p, g, rest);
    forall k | n <= k < n + |g| ensures IsSpace(s[k]) {
      assert s[k] == g[k - n];
    }
    TailSplit(s, pieces, gaps);
    assert n + |g| < |s| ==> s[n + |g|] == rest[0];
  }

  /** A break-free sentence ending in terminal punctuation, followed by
      whitespace, has its end as the first split point. */
  lemma FirstBreakAtEnd(p: string, g: string, rest: string)
    requires p != [] && IsTerminal(p[|p| - 1]) && NoBreak(p)
    requires g != [] && AllSpaces(g)
    ensures FirstBreak(p + g + rest, 0) == |p|
  {
    var s, n := p + g + rest, |p|;
    assert BreakAt(s, n) by {
      assert s[n - 1] == p[n - 1];
      assert s[n] == g[0];
    }
    forall k | 0 <= k < n ensures !BreakAt(s, k) {
      if BreakAt(s, k) {
        assert s[k - 1] == p[k - 1] && s[k] == p[k];
        assert BreakAt(p, k);
      }
    }
  }

  /** The split is the only one with the shape `IsSentenceSplit` describes. */
  lemma {:induction false} SplitUnique(s: string, pieces: seq<string>, gaps: seq<string>)
    requires IsSentenceSplit(s, pieces, gaps)
    ensures SplitSentences(s) == Split(pieces, gaps)
    decreases |gaps|
  {
    if |gaps| == 0 {
      assert s == pieces[0];
      var i := FirstBreak(s, 0);
    } else {
      FirstSentenceUnique(s, pieces, gaps);
      TailSplit(s, pieces, gaps);
      var j := |pieces[0]| + |gaps[0]|;
      SplitUnique(s[j..], pieces[1..], gaps[1..]);
      assert pieces == [pieces[0]] + pieces[1..];
      assert gaps == [gaps[0]] + gaps[1..];
    }
  }

  /** On stripped, non-empty text every sentence is non-empty and stripped. */
  lemma {:induction false} SplitOfTrimmed(s: string)
    requires s != [] && Trimmed(s)
    ensures forall k :: 0 <= k < |SplitSentences(s).pieces| ==>
              SplitSentences(s).pieces[k] != [] && Trimmed(SplitSentences(s).pieces[k])
    decreases |s|
  {
    var i := FirstBreak(s, 0);
    if i < |s| {
      var j := SkipSpaces(s, i);
      assert IsSpace(s[j - 1]);
      assert s[j..] != [] && Trimmed(s[j..]);
      SplitOfTrimmed(s[j..]);
      var p := s[..i];
      assert p[0] == s[0] && p[|p| - 1] == s[i - 1];
      var r := SplitSentences(s);
      assert r.pieces == [p] + SplitSentences(s[j..]).pieces;
    }
  }
}
