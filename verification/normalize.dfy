/**
  The input normalisation `synthesize` applies before any speech backend
  sees the text: strip it, refuse it when nothing is left, then remove one
  leading `LAURA:` marker (any letter case) together with the whitespace
  around it.
 */
module Normalize {
  import opened Text

  /** The marker, in the case every matching letter folds to. */
  const Marker: string := "laura:"

  /** Lower-case for ASCII letters, identity elsewhere. Under Python's
      case-insensitive matching only the ASCII forms of the letters of
      `LAURA` fold to them, so this folding decides the match exactly. */
  function FoldCase(c: char): (d: char)
    ensures 'A' <= c <= 'Z' ==> d as int == c as int + 32
    ensures !('A' <= c <= 'Z') ==> d == c
  {
    if 'A' <= c <= 'Z' then (c as int + 32) as char else c
  }

  /** The six characters of `t` from position `i` spell the marker in some case. */
  predicate MarkerAt(t: string, i: nat) {
    i + |Marker| <= |t| && forall k :: 0 <= k < |Marker| ==> FoldCase(t[i + k]) == Marker[k]
  }

  /** The marker substitution: an anchored, case-insensitive pattern of
      optional whitespace, the marker and optional whitespace, replaced by
      nothing. Being anchored, it removes at most one marker; both
      whitespace runs are taken whole. */
  function StripMarker(t: string): (r: string)
    ensures |r| <= |t| && r == t[|t| - |r|..]
    ensures !MarkerAt(t, SkipSpaces(t, 0)) ==> r == t
    ensures MarkerAt(t, SkipSpaces(t, 0)) ==>
              && SkipSpaces(t, 0) + |Marker| <= |t| - |r|
              && AllSpaces(t[..SkipSpaces(t, 0)])
              && AllSpaces(t[SkipSpaces(t, 0) + |Marker|..|t| - |r|])
              && (r == [] || !IsSpace(r[0]))
  {
    var a := SkipSpaces(t, 0);
    if MarkerAt(t, a) then t[SkipSpaces(t, a + |Marker|)..] else t
  }

  /** What `synthesize` hands to a speech backend, or its `ValueError`. */
  datatype Speech = Speak(text: string) | EmptyText

  /** The normalisation step of `synthesize`: strip, refuse blank text,
      remove a leading marker. */
  function PrepareSpeech(text: string): (r: Speech)
    ensures r.EmptyText? <==> AllSpaces(text)
    ensures r.Speak? ==> r.text == StripMarker(Trim(text))
    ensures r.Speak? ==> Trimmed(r.text)
  {
    var t := Trim(text);
    if t == [] then EmptyText else Speak(StripMarker(t))
  }

  /** Putting a marker, spelled in any case and followed by any whitespace,
      in front of text that does not start with whitespace and then
      stripping it gives back exactly that text. */
  lemma MarkerRoundTrip(mark: string, gap: string, body: string)
    requires |mark| == |Marker|
    requires forall k :: 0 <= k < |Marker| ==> FoldCase(mark[k]) == Marker[k]
    requires AllSpaces(gap)
    requires body == [] || !IsSpace(body[0])
    ensures StripMarker(mark + gap + body) == body
  {
    var t := mark + gap + body;
    assert !IsSpace(t[0]) by { assert FoldCase(t[0]) == 'l'; }
    assert SkipSpaces(t, 0) == 0;
    assert MarkerAt(t, 0) by {
      forall k | 0 <= k < |Marker| ensures FoldCase(t[k]) == Marker[k] {
        assert t[k] == mark[k];
      }
    }
    var j := SkipSpaces(t, |Marker|);
    assert forall k :: |Marker| <= k < |mark| + |gap| ==> t[k] == gap[k - |Marker|];
    assert |body| > 0 ==> t[|mark| + |gap|] == body[0];
    assert j == |mark| + |gap|;
    assert t[j..] == body;
  }

  /** Text that does not open with the marker passes through unchanged. */
  lemma NoMarkerUnchanged(t: string)
    requires Trimmed(t)
    requires !MarkerAt(t, 0)
    ensures StripMarker(t) == t
  {
    if t != [] {
      assert SkipSpaces(t, 0) == 0;
    }
  }

  /** `LAURA:` alone passes the empty-text check but leaves nothing to say. */
  lemma MarkerOnlySpeaksNothing()
    ensures PrepareSpeech("LAURA:") == Speak("")
  {
    var t := "LAURA:";
    assert !IsSpace(t[0]) && !IsSpace(t[|t| - 1]);
    TrimOfTrimmed(t);
    assert SkipSpaces(t, 0) == 0;
    assert MarkerAt(t, 0);
  }

  /** The anchored pattern removes one marker, not a run of them. */
  lemma OnlyOneMarkerRemoved()
    ensures StripMarker("Laura: LAURA: hi") == "LAURA: hi"
  {
    var t := "Laura: LAURA: hi";
    assert SkipSpaces(t, 0) == 0;
    assert MarkerAt(t, 0);
    assert SkipSpaces(t, 6) == 7 by { assert SkipSpaces(t, 7) == 7; }
    assert t[7..] == "LAURA: hi";
  }
}
