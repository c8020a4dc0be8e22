/**
  The text path of the `POST /tts` route: read and strip the `text` field,
  refuse it when blank, pick the character limit, truncate or split into
  sentence chunks, and hand each piece to `synthesize`, whose input
  normalisation decides the exact text a speech backend receives. The
  backends themselves (a remote service or local commands) are one opaque
  step; the model is about the sequence of strings they are given.
 */
module Bridge {
  import opened Text
  import opened Normalize
  import opened Sentences
  import opened Packing

  /** The limit used when `max_chars` is absent or zero. */
  const DefaultMaxChars: int := 600

  datatype Option<T> = None | Some(value: T)

  /** The `max_chars` field as the JSON body delivers it: absent, an
      integer, a finite number written with a fraction or an exponent, or
      a boolean. Non-finite numbers, on which `int()` raises, are not
      values of this type. */
  datatype MaxCharsField = Absent | IntField(n: int) | FloatField(x: real) | BoolField(b: bool)

  /** The JSON body of `POST /tts`. An absent `text` reads as empty. */
  datatype Request = Request(text: Option<string>, chunk: bool, maxChars: MaxCharsField)

  /** What the route does with a request. */
  datatype Response =
      /** Status 400, `Missing 'text'`. */
    | MissingText
      /** Every piece went to a speech backend, as these texts, in this
          order; the audio of the last one is sent back. */
    | Spoken(texts: seq<string>)
      /** `synthesize` raised `ValueError` on a blank piece after speaking
          these texts. */
    | Rejected(spoken: seq<string>)
      /** No piece was produced, so taking the last audio file failed. */
    | NoAudio

  /** The `text` field, or the empty string in place of a falsy one (an
      absent field or an empty string). */
  function FieldText(field: Option<string>): (t: string)
    ensures t == "" <==> field.None? || field == Some("")
    ensures field.Some? ==> t == field.value
  {
    match field
    case None => ""
    case Some(s) => s
  }

  /** Python's `int()` of a float: truncation toward zero. */
  function TruncateTowardZero(x: real): (n: int)
    ensures 0.0 <= x ==> n as real <= x < n as real + 1.0
    ensures x < 0.0 ==> n as real - 1.0 < x <= n as real
  {
    if 0.0 <= x then x.Floor else -((-x).Floor)
  }

  /** Python's truthiness of the field: absent, `0`, `0.0` and `false`
      are falsy. */
  predicate Falsy(field: MaxCharsField) {
    match field
    case Absent => true
    case IntField(n) => n == 0
    case FloatField(x) => x == 0.0
    case BoolField(b) => !b
  }

  /** The limit the route works with: the field, or 600 in place of a falsy
      one, converted with `int()`. */
  function EffectiveMaxChars(field: MaxCharsField): (m: int)
    ensures Falsy(field) ==> m == DefaultMaxChars
    ensures field.IntField? && field.n != 0 ==> m == field.n
    ensures field.FloatField? && 0.0 < field.x ==> m as real <= field.x < m as real + 1.0
    ensures field.FloatField? && field.x < 0.0 ==> m as real - 1.0 < field.x <= m as real
    ensures field == BoolField(true) ==> m == 1
    ensures m == 0 <==> field.FloatField? && -1.0 < field.x < 1.0 && field.x != 0.0
  {
    if Falsy(field) then DefaultMaxChars
    else
      match field
      case IntField(n) => n
      case FloatField(x) => TruncateTowardZero(x)
      case BoolField(_) => 1
      case Absent => DefaultMaxChars
  }

  /** Python's `s[:n]`: the first `n` characters, or, for negative `n`,
      all but the last `-n`; either way a prefix of `s`. */
  function Slice(s: string, n: int): (r: string)
    ensures |r| <= |s| && r == s[..|r|]
    ensures 0 <= n ==> |r| == (if n < |s| then n else |s|)
    ensures n < 0 ==> |r| == (if -n < |s| then |s| + n else 0)
  {
    if 0 <= n then
      if n < |s| then s[..n] else s
    else
      if -n < |s| then s[..|s| + n] else []
  }

  /** Without chunking, the text sent on is the first `max_chars`
      characters: at most `max_chars` long, a prefix of the input, and the
      input itself when that is short enough. */
  lemma TruncationBounds(s: string, maxChars: int)
    requires maxChars >= 0
    ensures |Slice(s, maxChars)| <= maxChars
    ensures Slice(s, maxChars) == s[..|Slice(s, maxChars)|]
    ensures |s| <= maxChars <==> Slice(s, maxChars) == s
  {
  }

  /** The strings `tts` passes to `synthesize`. Packing runs
      only when chunking is asked for and the text is over the limit; in
      every other case exactly one piece, the truncated text, goes on. */
  function Pieces(text: string, chunk: bool, maxChars: int): (pieces: seq<string>)
    ensures !(chunk && |text| > maxChars) ==> pieces == [Slice(text, maxChars)]
    ensures chunk && |text| > maxChars ==> pieces == Pack(SplitSentences(text).pieces, maxChars)
  {
    var t := if !chunk && |text| > maxChars then Slice(text, maxChars) else text;
    if chunk && |t| > maxChars then Pack(SplitSentences(t).pieces, maxChars) else [t]
  }

  /** What `synthesize` makes of each piece. */
  function Outcomes(pieces: seq<string>): (outcomes: seq<Speech>)
    ensures |outcomes| == |pieces|
    ensures forall k :: 0 <= k < |pieces| ==> outcomes[k] == PrepareSpeech(pieces[k])
  {
    seq(|pieces|, k requires 0 <= k < |pieces| => PrepareSpeech(pieces[k]))
  }

  /** Calling `synthesize` on each piece in turn: the texts spoken, up to the
      first piece it refuses. */
  function SpeakAll(outcomes: seq<Speech>): (r: Response)
    ensures r.Spoken? || r.Rejected?
    ensures r.Spoken? ==> |r.texts| == |outcomes|
    ensures r.Spoken? ==> forall k :: 0 <= k < |outcomes| ==> outcomes[k] == Speak(r.texts[k])
    ensures r.Rejected? ==> |r.spoken| < |outcomes| && outcomes[|r.spoken|] == EmptyText
    ensures r.Rejected? ==> forall k :: 0 <= k < |r.spoken| ==> outcomes[k] == Speak(r.spoken[k])
    decreases |outcomes|
  {
    if |outcomes| == 0 then
      Spoken([])
    else
      match outcomes[0]
      case EmptyText => Rejected([])
      case Speak(t) =>
        var rest := SpeakAll(outcomes[1..]);
        if rest.Spoken? then Spoken([t] + rest.texts)
        else if rest.Rejected? then Rejected([t] + rest.spoken)
        else rest
  }

  /** Every piece is spoken exactly when `synthesize` refuses none of them. */
  lemma SpeakAllSucceeds(outcomes: seq<Speech>)
    ensures SpeakAll(outcomes).Spoken? <==> forall k :: 0 <= k < |outcomes| ==> outcomes[k].Speak?
  {
  }

  /** On stripped, non-empty text (all the route passes on) there is at
      least one piece, and a piece is blank exactly when chunking is off and
      a zero limit, or a negative one, cuts the whole text away. */
  lemma PiecesOfStrippedText(text: string, chunk: bool, maxChars: int)
    requires text != [] && Trimmed(text)
    ensures |Pieces(text, chunk, maxChars)| >= 1
    ensures (exists k :: 0 <= k < |Pieces(text, chunk, maxChars)| && AllSpaces(Pieces(text, chunk, maxChars)[k]))
        <==> !chunk && (maxChars == 0 || |text| + maxChars <= 0)
  {
    var ps := Pieces(text, chunk, maxChars);
    if chunk && |text| > maxChars {
      ChunkedPieces(text, maxChars);
      forall k | 0 <= k < |ps| ensures !AllSpaces(ps[k]) {
        assert !IsSpace(ps[k][0]);
      }
    } else {
      var p := Slice(text, maxChars);
      assert ps == [p];
      if p == [] {
        assert AllSpaces(ps[0]);
      } else {
        assert p[0] == text[0];
        assert !AllSpaces(ps[0]);
      }
    }
  }

  /** With chunking and an over-long text, the chunks are non-empty and
      stripped, each within the limit or a single sentence, at least one,
      and together they keep every sentence in order, joined by single
      spaces. */
  lemma ChunkedPieces(text: string, maxChars: int)
    requires text != [] && Trimmed(text)
    requires |text| > maxChars
    ensures var ps := Pieces(text, true, maxChars);
            var sentences := SplitSentences(text).pieces;
            && |ps| >= 1
            && JoinSpace(ps) == JoinSpace(sentences)
            && forall k :: 0 <= k < |ps| ==>
                 ps[k] != [] && Trimmed(ps[k]) && (|ps[k]| <= maxChars || ps[k] in sentences)
  {
    var sentences := SplitSentences(text).pieces;
    SplitOfTrimmed(text);
    assert NonEmptyItems(sentences);
    PackChunkShape(sentences, maxChars);
    PackKeepsText(sentences, maxChars);
    PackIsJoinedGroups(sentences, maxChars);
    var groups := Groups(sentences, maxChars);
    var ps := Pieces(text, true, maxChars);
    forall k | 0 <= k < |ps| ensures Trimmed(ps[k]) {
      var g := groups[k];
      forall i | 0 <= i < |g| ensures g[i] != [] && Trimmed(g[i]) {
        InFlatten(groups, k, i);
      }
      JoinSpaceTrimmed(g);
    }
  }

  /** The `tts` route on the text path: read and strip the text, refuse it
      when blank, then speak the pieces and send back the last audio file. */
  function Handle(req: Request): (resp: Response)
    ensures resp.MissingText? <==> AllSpaces(FieldText(req.text))
    ensures !resp.NoAudio?
    ensures resp.Rejected? <==>
              !AllSpaces(FieldText(req.text))
              && !req.chunk
              && (EffectiveMaxChars(req.maxChars) == 0
                  || |Trim(FieldText(req.text))| + EffectiveMaxChars(req.maxChars) <= 0)
    ensures resp.Spoken? ==> |resp.texts| >= 1
    ensures resp.Spoken? && |resp.texts| > 1 ==>
              req.chunk && |Trim(FieldText(req.text))| > EffectiveMaxChars(req.maxChars)
  {
    var text := Trim(FieldText(req.text));
    if text == "" then
      MissingText
    else
      var maxChars := EffectiveMaxChars(req.maxChars);
      var pieces := Pieces(text, req.chunk, maxChars);
      PiecesOfStrippedText(text, req.chunk, maxChars);
      SpeakAllSucceeds(Outcomes(pieces));
      var r := SpeakAll(Outcomes(pieces));
      if r.Spoken? && |r.texts| == 0 then NoAudio else r
  }

  /** With chunking on and an over-long text, every chunk is spoken, in
      order, and `synthesize` changes a chunk only by removing a leading
      marker: its own strip finds nothing to strip. */
  lemma HandleChunked(req: Request)
    requires req.chunk
    requires |Trim(FieldText(req.text))| > EffectiveMaxChars(req.maxChars)
    requires !AllSpaces(FieldText(req.text))
    ensures var ps := Pieces(Trim(FieldText(req.text)), true, EffectiveMaxChars(req.maxChars));
            && Handle(req).Spoken?
            && |Handle(req).texts| == |ps|
            && forall k :: 0 <= k < |ps| ==> Handle(req).texts[k] == StripMarker(ps[k])
  {
    var text := Trim(FieldText(req.text));
    var maxChars := EffectiveMaxChars(req.maxChars);
    var ps := Pieces(text, true, maxChars);
    ChunkedPieces(text, maxChars);
    var texts := Handle(req).texts;
    forall k | 0 <= k < |ps| ensures texts[k] == StripMarker(ps[k]) {
      TrimOfTrimmed(ps[k]);
    }
  }

  /** Without chunking and with a positive limit, exactly one text is
      spoken: the normalisation of the first `max_chars` characters of the
      stripped text. */
  lemma HandleUnchunked(req: Request)
    requires !req.chunk
    requires EffectiveMaxChars(req.maxChars) > 0
    requires !AllSpaces(FieldText(req.text))
    ensures var text := Trim(FieldText(req.text));
            var m := EffectiveMaxChars(req.maxChars);
            var cut := if |text| <= m then text else text[..m];
            && Handle(req).Spoken?
            && Handle(req).texts == [StripMarker(Trim(cut))]
  {
    var text := Trim(FieldText(req.text));
    var m := EffectiveMaxChars(req.maxChars);
    PiecesOfStrippedText(text, false, m);
  }

  /** A fractional limit below one truncates to zero: without chunking the
      whole text is cut away and `synthesize` refuses the empty piece
      before anything is spoken. */
  lemma FractionalLimitRejects(text: string, x: real)
    requires !AllSpaces(text)
    requires 0.0 < x < 1.0
    ensures Handle(Request(Some(text), false, FloatField(x))) == Rejected([])
  {
    var t := Trim(text);
    assert t != [];
    assert EffectiveMaxChars(FloatField(x)) == 0;
    assert Pieces(t, false, 0) == [[]];
    assert Outcomes([[]]) == [EmptyText];
    assert SpeakAll([EmptyText]) == Rejected([]);
  }

  /** `LAURA: ` in front of a stripped body is stripped text whose marker
      removal gives back the body. */
  lemma MarkedTextShape(body: string)
    requires body != [] && Trimmed(body)
    ensures Trimmed("LAURA: " + body) && !AllSpaces("LAURA: " + body)
    ensures StripMarker("LAURA: " + body) == body
  {
    var mark := "LAURA:";
    var t := mark + " " + body;
    assert "LAURA: " + body == t;
    assert t[0] == 'L';
    assert t[|t| - 1] == body[|body| - 1];
    assert forall k :: 0 <= k < |Marker| ==> FoldCase(mark[k]) == Marker[k];
    MarkerRoundTrip(mark, " ", body);
  }

  /** A short marked reply is spoken as exactly the reply without its
      marker (for example `LAURA: Hi there, this is a test reply.` is
      spoken as `Hi there, this is a test reply.`). */
  lemma MarkedReplySpoken(body: string)
    requires body != [] && Trimmed(body)
    requires |body| + 7 <= DefaultMaxChars
    ensures Handle(Request(Some("LAURA: " + body), false, Absent)) == Spoken([body])
  {
    var t := "LAURA: " + body;
    MarkedTextShape(body);
    TrimOfTrimmed(t);
    HandleUnchunked(Request(Some(t), false, Absent));
  }
}
