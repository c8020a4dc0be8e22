/**
  Character classes and string helpers shared by the text-preparation
  pipeline of the TTS bridge: whitespace as Python's `str.strip()` and the
  regular-expression class `\s` understand it, `str.strip()` itself, and
  `" ".join(...)`.
 */
module Text {

  /** Whitespace: the characters for which Python's `str.isspace()` holds,
      which is also the set `\s` matches in a `str` regular expression. */
  predicate IsSpace(c: char) {
    || c == ' '
    || ('\t' <= c <= '\r')
    || ('\U{1C}' <= c <= '\U{1F}')
    || c == '\U{85}' || c == '\U{A0}' || c == '\U{1680}'
    || ('\U{2000}' <= c <= '\U{200A}')
    || c == '\U{2028}' || c == '\U{2029}' || c == '\U{202F}'
    || c == '\U{205F}' || c == '\U{3000}'
  }

  predicate AllSpaces(s: string) {
    forall k :: 0 <= k < |s| ==> IsSpace(s[k])
  }

  /** Neither end of `s` is whitespace (what `strip()` guarantees). */
  predicate Trimmed(s: string) {
    s == [] || (!IsSpace(s[0]) && !IsSpace(s[|s| - 1]))
  }

  /** The end of the whitespace run that starts at `i`. */
  function SkipSpaces(s: string, i: nat): (j: nat)
    requires i <= |s|
    ensures i <= j <= |s|
    ensures forall k :: i <= k < j ==> IsSpace(s[k])
    ensures j == |s| || !IsSpace(s[j])
    decreases |s| - i
  {
    if i < |s| && IsSpace(s[i]) then SkipSpaces(s, i + 1) else i
  }

  /** The start of the whitespace run that ends at `j`. */
  function SkipSpacesBack(s: string, j: nat): (i: nat)
    requires j <= |s|
    ensures i <= j
    ensures forall k :: i <= k < j ==> IsSpace(s[k])
    ensures i == 0 || !IsSpace(s[i - 1])
  {
    if j > 0 && IsSpace(s[j - 1]) then SkipSpacesBack(s, j - 1) else j
  }

  /** Python's `s.strip()`: `s` is its leading whitespace run, the result,
      and a whitespace tail, and the result has whitespace at neither end. */
  function Trim(s: string): (r: string)
    ensures Trimmed(r)
    ensures SkipSpaces(s, 0) + |r| <= |s|
    ensures r == s[SkipSpaces(s, 0)..SkipSpaces(s, 0) + |r|]
    ensures AllSpaces(s[..SkipSpaces(s, 0)])
    ensures AllSpaces(s[SkipSpaces(s, 0) + |r|..])
    ensures r == [] <==> AllSpaces(s)
  {
    var a := SkipSpaces(s, 0);
    if a == |s| then
      []
    else
      var b := SkipSpacesBack(s, |s|);
      assert !IsSpace(s[a]);
      assert a < b;
      assert !AllSpaces(s) by { assert !IsSpace(s[a]); }
      s[a..b]
  }

  /** Stripping text that is already stripped changes nothing. */
  lemma TrimOfTrimmed(s: string)
    requires Trimmed(s)
    ensures Trim(s) == s
  {
    if s != [] {
      assert SkipSpaces(s, 0) == 0;
      assert Trim(s) != [] by { assert !IsSpace(s[0]); }
    }
  }

  /** `strip()` is idempotent. */
  lemma TrimIdempotent(s: string)
    ensures Trim(Trim(s)) == Trim(s)
  {
    TrimOfTrimmed(Trim(s));
  }

  /** Python's `" ".join(xs)`. */
  function JoinSpace(xs: seq<string>): string
  {
    if |xs| == 0 then ""
    else if |xs| == 1 then xs[0]
    else xs[0] + " " + JoinSpace(xs[1..])
  }

  /** Appending one more item adds exactly one space and the item. */
  lemma {:induction false} JoinSpaceSnoc(xs: seq<string>, s: string)
    requires |xs| > 0
    ensures JoinSpace(xs + [s]) == JoinSpace(xs) + " " + s
    decreases |xs|
  {
    if |xs| == 1 {
      assert (xs + [s])[1..] == [s];
    } else {
      assert (xs + [s])[1..] == xs[1..] + [s];
      JoinSpaceSnoc(xs[1..], s);
    }
  }

  /** Joining a concatenation joins the two joins with one space. */
  lemma {:induction false} JoinSpaceAppend(xs: seq<string>, ys: seq<string>)
    requires |xs| > 0 && |ys| > 0
    ensures JoinSpace(xs + ys) == JoinSpace(xs) + " " + JoinSpace(ys)
    decreases |xs|
  {
    if |xs| == 1 {
      assert (xs + ys)[1..] == ys;
    } else {
      assert (xs + ys)[1..] == xs[1..] + ys;
      JoinSpaceAppend(xs[1..], ys);
    }
  }

  /** A join never gets shorter when more items are joined. */
  lemma {:induction false} JoinSpacePrefixLength(xs: seq<string>, k: nat)
    requires 1 <= k <= |xs|
    ensures |JoinSpace(xs[..k])| <= |JoinSpace(xs)|
    decreases |xs| - k
  {
    if k < |xs| {
      assert xs[..k + 1] == xs[..k] + [xs[k]];
      JoinSpaceSnoc(xs[..k], xs[k]);
      JoinSpacePrefixLength(xs, k + 1);
    } else {
      assert xs[..k] == xs;
    }
  }

  /** Joining non-empty stripped items gives non-empty stripped text. */
  lemma {:induction false} JoinSpaceTrimmed(xs: seq<string>)
    requires |xs| > 0
    requires forall k :: 0 <= k < |xs| ==> xs[k] != [] && Trimmed(xs[k])
    ensures JoinSpace(xs) != [] && Trimmed(JoinSpace(xs))
    decreases |xs|
  {
    if |xs| > 1 {
      JoinSpaceTrimmed(xs[1..]);
      var t := JoinSpace(xs[1..]);
      var j := xs[0] + " " + t;
      assert j[0] == xs[0][0];
      assert j[|j| - 1] == t[|t| - 1];
    }
  }
}
