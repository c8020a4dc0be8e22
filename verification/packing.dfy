/**
  Greedy packing of sentences into chunks, as the sentence loop of `tts`
  does it: a sentence joins the current chunk (after one space) while the
  chunk's length plus the sentence's length plus one is at most the
  limit; otherwise the current chunk, if any, is closed and the sentence
  starts the next one, however long it is.
 */
module Packing {
  import opened Text

  /** The loop over strings, line for line: `chunks` are the chunks already
      closed (in the route each is synthesized on the spot), `current` the
      chunk being built. The loop only appends: chunks already closed stay
      as they are, no empty chunk is ever closed, and each sentence closes
      at most one chunk, with one more at the end. */
  function PackLoop(sentences: seq<string>, maxChars: int, chunks: seq<string>, current: string): (r: seq<string>)
    ensures |chunks| <= |r| && r[..|chunks|] == chunks
    ensures forall k :: |chunks| <= k < |r| ==> r[k] != ""
    ensures |r| <= |chunks| + |sentences| + (if current != "" then 1 else 0)
    decreases |sentences|
  {
    if |sentences| == 0 then
      if current != "" then chunks + [current] else chunks
    else
      var s := sentences[0];
      if |current| + |s| + 1 <= maxChars then
        PackLoop(sentences[1..], maxChars, chunks, current + (if current != "" then " " else "") + s)
      else
        PackLoop(sentences[1..], maxChars, if current != "" then chunks + [current] else chunks, s)
  }

  /** The chunks handed to speech synthesis, in order: never an empty one,
      and never more chunks than sentences. */
  function Pack(sentences: seq<string>, maxChars: int): (r: seq<string>)
    ensures forall k :: 0 <= k < |r| ==> r[k] != ""
    ensures |r| <= |sentences|
  {
    PackLoop(sentences, maxChars, [], "")
  }

  /** Concatenation of a sequence of groups. */
  function Flatten(groups: seq<seq<string>>): seq<string>
  {
    if |groups| == 0 then [] else groups[0] + Flatten(groups[1..])
  }

  /** The chunk text of each group. */
  function JoinGroups(groups: seq<seq<string>>): (chunks: seq<string>)
    ensures |chunks| == |groups|
    ensures forall k :: 0 <= k < |groups| ==> chunks[k] == JoinSpace(groups[k])
  {
    seq(|groups|, k requires 0 <= k < |groups| => JoinSpace(groups[k]))
  }

  /** A chunk of several sentences stays within the limit; a chunk of one
      sentence may be of any length. */
  predicate Fits(group: seq<string>, maxChars: int) {
    |group| == 1 || |JoinSpace(group)| <= maxChars
  }

  /** `next` does not fit behind `group`, counting the joining space. */
  predicate Closes(group: seq<string>, next: string, maxChars: int) {
    |JoinSpace(group)| + |next| + 1 > maxChars
  }

  /** The greedy packing, described without the loop: groups are non-empty
      and fit, and a group is closed only when the first sentence of the
      next one would not fit behind it. */
  predicate IsGreedy(groups: seq<seq<string>>, maxChars: int) {
    && (forall k :: 0 <= k < |groups| ==> |groups[k]| > 0 && Fits(groups[k], maxChars))
    && (forall k :: 0 < k < |groups| ==> Closes(groups[k - 1], groups[k][0], maxChars))
  }

  lemma FlattenSnoc(groups: seq<seq<string>>, g: seq<string>)
    ensures Flatten(groups + [g]) == Flatten(groups) + g
  {
    if |groups| == 0 {
      assert [g][1..] == [];
    } else {
      assert (groups + [g])[1..] == groups[1..] + [g];
      FlattenSnoc(groups[1..], g);
    }
  }

  lemma GreedySnoc(groups: seq<seq<string>>, g: seq<string>, maxChars: int)
    requires IsGreedy(groups, maxChars)
    requires |g| > 0 && Fits(g, maxChars)
    requires |groups| > 0 ==> Closes(groups[|groups| - 1], g[0], maxChars)
    ensures IsGreedy(groups + [g], maxChars)
  {
  }

  /** The packing loop over groups of sentences instead of strings. */
  function GroupLoop(sentences: seq<string>, maxChars: int, done: seq<seq<string>>, current: seq<string>): (r: seq<seq<string>>)
    requires current == [] ==> done == []
    requires IsGreedy(done, maxChars)
    requires current != [] ==> Fits(current, maxChars)
    requires current != [] && |done| > 0 ==> Closes(done[|done| - 1], current[0], maxChars)
    ensures Flatten(r) == Flatten(done) + current + sentences
    ensures IsGreedy(r, maxChars)
    ensures |r| > 0 <==> current != [] || |sentences| > 0
    decreases |sentences|
  {
    if |sentences| == 0 then
      if current == [] then
        done
      else
        GreedySnoc(done, current, maxChars);
        FlattenSnoc(done, current);
        done + [current]
    else
      var s := sentences[0];
      assert sentences == [s] + sentences[1..];
      if current != [] && |JoinSpace(current)| + |s| + 1 <= maxChars then
        JoinSpaceSnoc(current, s);
        GroupLoop(sentences[1..], maxChars, done, current + [s])
      else if current == [] then
        GroupLoop(sentences[1..], maxChars, done, [s])
      else
        GreedySnoc(done, current, maxChars);
        FlattenSnoc(done, current);
        GroupLoop(sentences[1..], maxChars, done + [current], [s])
  }

  /** The sentence groups the packing produces. */
  function Groups(sentences: seq<string>, maxChars: int): (groups: seq<seq<string>>)
    ensures Flatten(groups) == sentences
    ensures IsGreedy(groups, maxChars)
    ensures |groups| > 0 <==> |sentences| > 0
  {
    GroupLoop(sentences, maxChars, [], [])
  }

  predicate NonEmptyItems(xs: seq<string>) {
    forall k :: 0 <= k < |xs| ==> xs[k] != ""
  }

  lemma JoinGroupsSnoc(groups: seq<seq<string>>, g: seq<string>)
    ensures JoinGroups(groups + [g]) == JoinGroups(groups) + [JoinSpace(g)]
  {
  }

  lemma JoinSpaceEmpty(xs: seq<string>)
    requires NonEmptyItems(xs)
    ensures JoinSpace(xs) == "" <==> xs == []
  {
    if |xs| > 0 {
      assert xs[0] != "";
    }
  }

  /** While no sentence is empty, the string loop and the group loop move in
      lockstep: the current string is the join of the current group. */
  lemma {:induction false} PackLoopJoinsGroups(sentences: seq<string>, maxChars: int, done: seq<seq<string>>, current: seq<string>)
    requires NonEmptyItems(sentences) && NonEmptyItems(current)
    requires current == [] ==> done == []
    requires IsGreedy(done, maxChars)
    requires current != [] ==> Fits(current, maxChars)
    requires current != [] && |done| > 0 ==> Closes(done[|done| - 1], current[0], maxChars)
    ensures PackLoop(sentences, maxChars, JoinGroups(done), JoinSpace(current))
         == JoinGroups(GroupLoop(sentences, maxChars, done, current))
    decreases |sentences|
  {
    JoinSpaceEmpty(current);
    JoinGroupsSnoc(done, current);
    var chunks, cur := JoinGroups(done), JoinSpace(current);
    if |sentences| > 0 {
      var s := sentences[0];
      var rest := sentences[1..];
      assert NonEmptyItems(rest);
      if current != [] && |cur| + |s| + 1 <= maxChars {
        JoinSpaceSnoc(current, s);
        assert PackLoop(sentences, maxChars, chunks, cur) == PackLoop(rest, maxChars, chunks, JoinSpace(current + [s]));
        PackLoopJoinsGroups(rest, maxChars, done, current + [s]);
      } else if current == [] {
        assert cur == "" && cur + "" + s == s == JoinSpace([s]);
        assert PackLoop(sentences, maxChars, chunks, cur) == PackLoop(rest, maxChars, chunks, JoinSpace([s]));
        PackLoopJoinsGroups(rest, maxChars, done, [s]);
      } else {
        assert PackLoop(sentences, maxChars, chunks, cur) == PackLoop(rest, maxChars, JoinGroups(done + [current]), JoinSpace([s]));
        GreedySnoc(done, current, maxChars);
        PackLoopJoinsGroups(rest, maxChars, done + [current], [s]);
      }
    }
  }

  /** For non-empty sentences the chunks are exactly the joined greedy groups. */
  lemma PackIsJoinedGroups(sentences: seq<string>, maxChars: int)
    requires NonEmptyItems(sentences)
    ensures Pack(sentences, maxChars) == JoinGroups(Groups(sentences, maxChars))
  {
    assert JoinGroups([]) == [];
    PackLoopJoinsGroups(sentences, maxChars, [], []);
  }

  lemma FlattenFirst(groups: seq<seq<string>>)
    requires |groups| > 0 && |groups[0]| > 0
    ensures |Flatten(groups)| > 0 && Flatten(groups)[0] == groups[0][0]
  {
  }

  /** There is only one greedy grouping of a sentence list: two greedy
      groupings of the same sentences are equal. */
  lemma {:induction false} GreedyUnique(g1: seq<seq<string>>, g2: seq<seq<string>>, maxChars: int)
    requires IsGreedy(g1, maxChars) && IsGreedy(g2, maxChars)
    requires Flatten(g1) == Flatten(g2)
    ensures g1 == g2
    decreases |g1|
  {
    if |g1| == 0 || |g2| == 0 {
      if |g1| > 0 { FlattenFirst(g1); }
      if |g2| > 0 { FlattenFirst(g2); }
    } else {
      var a, b := g1[0], g2[0];
      var s := Flatten(g1);
      assert s == a + Flatten(g1[1..]) && s == b + Flatten(g2[1..]);
      if |a| < |b| {
        ShorterFirstGroupImpossible(g1, g2, maxChars);
      } else if |b| < |a| {
        ShorterFirstGroupImpossible(g2, g1, maxChars);
      }
      assert a == s[..|a|] == b;
      assert Flatten(g1[1..]) == Flatten(g2[1..]);
      assert IsGreedy(g1[1..], maxChars) && IsGreedy(g2[1..], maxChars) by {
        forall k | 0 < k < |g1| - 1 ensures Closes(g1[1..][k - 1], g1[1..][k][0], maxChars) {
          assert g1[1..][k] == g1[k + 1];
        }
        forall k | 0 < k < |g2| - 1 ensures Closes(g2[1..][k - 1], g2[1..][k][0], maxChars) {
          assert g2[1..][k] == g2[k + 1];
        }
      }
      GreedyUnique(g1[1..], g2[1..], maxChars);
      assert g1 == [a] + g1[1..] && g2 == [b] + g2[1..];
    }
  }

  /** Every sentence of a chunk within the limit fitted behind the ones before it. */
  lemma PrefixFits(b: seq<string>, n: nat, maxChars: int)
    requires 1 <= n < |b|
    requires |JoinSpace(b)| <= maxChars
    ensures !Closes(b[..n], b[n], maxChars)
  {
    assert b[..n + 1] == b[..n] + [b[n]];
    JoinSpaceSnoc(b[..n], b[n]);
    JoinSpacePrefixLength(b, n + 1);
  }

  /** In two greedy groupings of the same sentences the first groups have
      the same length: if one were shorter, the sentence after it would fit
      (the longer group holds it) and yet close it. */
  lemma ShorterFirstGroupImpossible(g1: seq<seq<string>>, g2: seq<seq<string>>, maxChars: int)
    requires IsGreedy(g1, maxChars) && IsGreedy(g2, maxChars)
    requires Flatten(g1) == Flatten(g2)
    requires |g1| > 0 && |g2| > 0
    ensures |g1[0]| >= |g2[0]|
  {
    var a, b := g1[0], g2[0];
    var s := Flatten(g1);
    var t1, t2 := Flatten(g1[1..]), Flatten(g2[1..]);
    assert s == a + t1;
    assert s == b + t2;
    if |a| < |b| {
      var n := |a|;
      assert |t1| > 0;
      FlattenFirst(g1[1..]);
      var next := g1[1][0];
      assert t1[0] == next;
      assert b[n] == next by { assert s[n] == b[n]; assert s[n] == t1[0]; }
      assert b[..n] == a by { assert s[..n] == a; assert s[..n] == b[..n]; }
      assert Closes(a, next, maxChars);
      assert |JoinSpace(b)| <= maxChars;
      PrefixFits(b, n, maxChars);
      assert false;
    }
  }

  /** Packing loses, adds and reorders nothing: joining the chunks with
      single spaces gives the sentences joined with single spaces. */
  lemma {:induction false} JoinGroupsFlatten(groups: seq<seq<string>>)
    requires forall k :: 0 <= k < |groups| ==> |groups[k]| > 0
    ensures JoinSpace(JoinGroups(groups)) == JoinSpace(Flatten(groups))
    decreases |groups|
  {
    if |groups| > 1 {
      var rest := groups[1..];
      JoinGroupsFlatten(rest);
      assert JoinGroups(groups)[1..] == JoinGroups(rest);
      FlattenFirst(rest);
      JoinSpaceAppend(groups[0], Flatten(rest));
    } else if |groups| == 1 {
      assert groups[1..] == [];
      assert Flatten(groups) == groups[0];
      assert JoinGroups(groups) == [JoinSpace(groups[0])];
    }
  }

  /** The chunk list keeps every sentence, in order, and only changes the
      whitespace between them to single spaces. */
  lemma PackKeepsText(sentences: seq<string>, maxChars: int)
    requires NonEmptyItems(sentences)
    ensures JoinSpace(Pack(sentences, maxChars)) == JoinSpace(sentences)
  {
    PackIsJoinedGroups(sentences, maxChars);
    JoinGroupsFlatten(Groups(sentences, maxChars));
  }

  /** A sentence inside a group is one of the flattened sentences. */
  lemma InFlatten(groups: seq<seq<string>>, k: nat, i: nat)
    requires k < |groups| && i < |groups[k]|
    ensures groups[k][i] in Flatten(groups)
  {
    if k > 0 {
      InFlatten(groups[1..], k - 1, i);
    } else {
      assert Flatten(groups) == groups[0] + Flatten(groups[1..]);
    }
  }

  /** Every chunk is non-empty, and is within the limit or is a single
      sentence (an over-long chunk is a group of exactly one sentence); a non-empty sentence list gives at least one chunk and
      never more chunks than sentences. */
  lemma PackChunkShape(sentences: seq<string>, maxChars: int)
    requires NonEmptyItems(sentences)
    ensures |sentences| > 0 ==> |Pack(sentences, maxChars)| > 0
    ensures |Pack(sentences, maxChars)| <= |sentences|
    ensures forall k :: 0 <= k < |Pack(sentences, maxChars)| ==>
              && Pack(sentences, maxChars)[k] != ""
              && (|Pack(sentences, maxChars)[k]| <= maxChars || Pack(sentences, maxChars)[k] in sentences)
    ensures forall k :: 0 <= k < |Pack(sentences, maxChars)| && |Pack(sentences, maxChars)[k]| > maxChars ==>
              k < |Groups(sentences, maxChars)| && |Groups(sentences, maxChars)[k]| == 1
  {
    PackIsJoinedGroups(sentences, maxChars);
    var groups := Groups(sentences, maxChars);
    var chunks := Pack(sentences, maxChars);
    forall k | 0 <= k < |chunks|
      ensures chunks[k] != "" && (|chunks[k]| <= maxChars || chunks[k] in sentences)
    {
      assert chunks[k] == JoinSpace(groups[k]);
      assert groups[k][0] in sentences by { InFlatten(groups, k, 0); }
      assert groups[k][0] != "";
    }
  }
}
