/**
 * The token loop of `generate_speech`: pull tokens one at a time, ignore end
 * tokens until audio has started and stop on them afterwards, map the other
 * tokens to codebook indices, append the positive ones to an append-only
 * buffer, and decode the last 28 indices each time a frame completes once
 * four frames exist.
 */
module Generate {
  import opened Wrappers
  import TokenMapper
  import CodecBridge

  /**
   * Reading a token's text as a codebook index at a given position; the loop
   * uses `TokenMapper.TurnTokenIntoId`, the lemmas hold for any such reading.
   */
  type IdMapper = (string, nat) -> Option<int>

  /** The token budget: the loop stops once this many indices have been accepted. */
  const MaxTokens: nat := 8192
  /** Token IDs that end generation once audio has started. */
  const EndTokenIds: set<nat> := {128009, 128260, 128261, 128257}

  /**
   * The loop's variables: whether audio has started, the number of accepted
   * indices, the buffer of accepted indices and the decoded segments.
   */
  datatype State = State(audioStarted: bool, count: nat, buffer: seq<int>, audioSegments: seq<CodecBridge.Pcm>)

  const Start: State := State(false, 0, [], [])

  /** After the token: carry on with the next one, or leave the loop. */
  datatype Next = Continue(state: State) | Stop(state: State)

  /** A decode is due when the count is a multiple of 7 above 27. */
  predicate DecodeDue(count: int) {
    count % 7 == 0 && count > 27
  }

  /** Python's `buffer[-28:]`: the last 28 entries, or all of them when there are fewer. */
  function LastWindow(buffer: seq<int>): (w: seq<int>)
    ensures |w| == if |buffer| < 28 then |buffer| else 28
    ensures buffer == buffer[..|buffer| - |w|] + w
  {
    if |buffer| < 28 then buffer else buffer[|buffer| - 28..]
  }

  /** Accepting the index `id`: append it, count it, mark audio as started, and decode when due. */
  function Accept(s: State, id: int, decode: CodecBridge.Decoder): State {
    var buffer := s.buffer + [id];
    var count := s.count + 1;
    var segments :=
      if DecodeDue(count) then s.audioSegments + ToSeq(CodecBridge.Convert(decode, LastWindow(buffer)))
      else s.audioSegments;
    State(true, count, buffer, segments)
  }

  /** One pass of the loop body for the token `token`. */
  function Step(s: State, token: nat, render: nat -> string, idOf: IdMapper, decode: CodecBridge.Decoder, cap: nat): (n: Next)
    ensures token in EndTokenIds ==> n == if s.audioStarted then Stop(s) else Continue(s)
    ensures token !in EndTokenIds ==> (n.Stop? <==> n.state.count >= cap)
    ensures token !in EndTokenIds ==>
      var id := idOf(render(token), s.count);
      if id.Some? && id.value > 0 then
        n.state.buffer == s.buffer + [id.value] && n.state.count == s.count + 1 && n.state.audioStarted
      else
        n.state == s
  {
    if token in EndTokenIds then
      if s.audioStarted then Stop(s) else Continue(s)
    else
      var id := idOf(render(token), s.count);
      var t := if id.Some? && id.value > 0 then Accept(s, id.value, decode) else s;
      if t.count >= cap then Stop(t) else Continue(t)
  }

  /** The loop run from state `s` over `tokens` until a step stops it or the tokens run out. */
  function Run(s: State, tokens: seq<nat>, render: nat -> string, idOf: IdMapper, decode: CodecBridge.Decoder, cap: nat): State
    decreases |tokens|
  {
    if tokens == [] then s
    else
      match Step(s, tokens[0], render, idOf, decode, cap)
      case Stop(t) => t
      case Continue(t) => Run(t, tokens[1..], render, idOf, decode, cap)
  }

  /**
   * The segments that the decodes over an append-only buffer produce: one
   * attempt at each count 28, 35, 42, ... up to the buffer's length, on the 28
   * entries ending there, keeping the attempts that are not `None`, in order.
   */
  function DecodedWindows(decode: CodecBridge.Decoder, buffer: seq<int>): seq<CodecBridge.Pcm>
    decreases |buffer|
  {
    if buffer == [] then []
    else
      DecodedWindows(decode, buffer[..|buffer| - 1])
        + if DecodeDue(|buffer|) then ToSeq(CodecBridge.Convert(decode, LastWindow(buffer))) else []
  }

  /**
   * What holds of the loop's variables between tokens: the count is the
   * buffer's length, audio has started exactly when the count is positive,
   * only positive indices are buffered, and the segments are those decoded
   * from the buffer.
   */
  ghost predicate Consistent(s: State, decode: CodecBridge.Decoder) {
    && s.count == |s.buffer|
    && (s.audioStarted <==> s.count > 0)
    && (forall k :: 0 <= k < |s.buffer| ==> s.buffer[k] > 0)
    && s.audioSegments == DecodedWindows(decode, s.buffer)
  }

  /** The loop starts consistent. */
  lemma StartConsistent(decode: CodecBridge.Decoder)
    ensures Consistent(Start, decode)
  {
  }

  /** Every pass of the loop body keeps the loop's variables consistent. */
  lemma StepConsistent(s: State, token: nat, render: nat -> string, idOf: IdMapper, decode: CodecBridge.Decoder, cap: nat)
    requires Consistent(s, decode)
    ensures Consistent(Step(s, token, render, idOf, decode, cap).state, decode)
  {
    if token !in EndTokenIds {
      var id := idOf(render(token), s.count);
      if id.Some? && id.value > 0 {
        var t := Accept(s, id.value, decode);
        assert t.buffer[..|t.buffer| - 1] == s.buffer;
      }
    }
  }

  /** The loop ends consistent, whatever the tokens. */
  lemma {:induction false} RunConsistent(s: State, tokens: seq<nat>, render: nat -> string, idOf: IdMapper, decode: CodecBridge.Decoder, cap: nat)
    requires Consistent(s, decode)
    ensures Consistent(Run(s, tokens, render, idOf, decode, cap), decode)
    decreases |tokens|
  {
    if tokens != [] {
      StepConsistent(s, tokens[0], render, idOf, decode, cap);
      match Step(s, tokens[0], render, idOf, decode, cap)
      case Stop(t) =>
      case Continue(t) => RunConsistent(t, tokens[1..], render, idOf, decode, cap);
    }
  }

  /** Buffer `b` starts with buffer `a`. */
  predicate Extends(b: seq<int>, a: seq<int>) {
    |a| <= |b| && b[..|a|] == a
  }

  /** One pass of the loop body at most appends to the buffer. */
  lemma StepAppendsOnly(s: State, token: nat, render: nat -> string, idOf: IdMapper, decode: CodecBridge.Decoder, cap: nat)
    ensures Extends(Step(s, token, render, idOf, decode, cap).state.buffer, s.buffer)
  {
    var t := Step(s, token, render, idOf, decode, cap).state;
    assert t.buffer == s.buffer || t.buffer == s.buffer + [t.buffer[|t.buffer| - 1]];
  }

  /** The buffer only grows: a run's final buffer extends the one it started with. */
  lemma {:induction false} RunAppendsOnly(s: State, tokens: seq<nat>, render: nat -> string, idOf: IdMapper, decode: CodecBridge.Decoder, cap: nat)
    ensures Extends(Run(s, tokens, render, idOf, decode, cap).buffer, s.buffer)
    decreases |tokens|
  {
    if tokens != [] {
      StepAppendsOnly(s, tokens[0], render, idOf, decode, cap);
      var n := Step(s, tokens[0], render, idOf, decode, cap);
      if n.Continue? {
        RunAppendsOnly(n.state, tokens[1..], render, idOf, decode, cap);
        var u := Run(n.state, tokens[1..], render, idOf, decode, cap);
        assert u.buffer[..|s.buffer|] == u.buffer[..|n.state.buffer|][..|s.buffer|];
      }
    }
  }

  /** Started below the budget, the loop never accepts more indices than the budget allows. */
  lemma {:induction false} RunWithinBudget(s: State, tokens: seq<nat>, render: nat -> string, idOf: IdMapper, decode: CodecBridge.Decoder, cap: nat)
    requires s.count < cap
    ensures Run(s, tokens, render, idOf, decode, cap).count <= cap
    decreases |tokens|
  {
    if tokens != [] {
      match Step(s, tokens[0], render, idOf, decode, cap)
      case Stop(t) =>
      case Continue(t) => RunWithinBudget(t, tokens[1..], render, idOf, decode, cap);
    }
  }

  predicate AllEndTokens(tokens: seq<nat>) {
    forall k :: 0 <= k < |tokens| ==> tokens[k] in EndTokenIds
  }

  /** End tokens before the first accepted audio token are skipped without any effect. */
  lemma {:induction false} PreambleEndTokensIgnored(s: State, preamble: seq<nat>, rest: seq<nat>, render: nat -> string, idOf: IdMapper, decode: CodecBridge.Decoder, cap: nat)
    requires !s.audioStarted && AllEndTokens(preamble)
    ensures Run(s, preamble + rest, render, idOf, decode, cap) == Run(s, rest, render, idOf, decode, cap)
    decreases |preamble|
  {
    if preamble != [] {
      assert (preamble + rest)[0] == preamble[0];
      assert (preamble + rest)[1..] == preamble[1..] + rest;
      PreambleEndTokensIgnored(s, preamble[1..], rest, render, idOf, decode, cap);
    } else {
      assert preamble + rest == rest;
    }
  }

  /** Once audio has started, an end token ends the loop with nothing changed. */
  lemma EndTokenAfterAudioStops(s: State, token: nat, rest: seq<nat>, render: nat -> string, idOf: IdMapper, decode: CodecBridge.Decoder, cap: nat)
    requires s.audioStarted && token in EndTokenIds
    ensures Run(s, [token] + rest, render, idOf, decode, cap) == s
  {
  }

  /** Between tokens, an end token stops the loop exactly when an index has been accepted, and changes nothing. */
  lemma EndTokenStopsOnceCounting(s: State, token: nat, render: nat -> string, idOf: IdMapper, decode: CodecBridge.Decoder, cap: nat)
    requires Consistent(s, decode) && token in EndTokenIds
    ensures Step(s, token, render, idOf, decode, cap).Stop? <==> s.count > 0
    ensures Step(s, token, render, idOf, decode, cap).state == s
  {
  }

  /** A decode is due exactly at counts 28, 35, 42, ... */
  lemma DecodeDueExactly(count: int)
    ensures DecodeDue(count) <==> exists k: nat :: count == 28 + 7 * k
  {
    if DecodeDue(count) {
      var k: nat := (count - 28) / 7;
      assert count == 28 + 7 * k;
    }
  }

  /** No decode at the first four frames' boundaries, nor just before or after them. */
  lemma NoDecodeBeforeFourFrames()
    ensures !DecodeDue(6) && !DecodeDue(7) && !DecodeDue(13) && !DecodeDue(14) && !DecodeDue(21) && !DecodeDue(27)
    ensures DecodeDue(28) && !DecodeDue(29) && DecodeDue(35) && DecodeDue(42)
  {
  }

  /** The number of decodes due over a buffer of `n` entries. */
  function WindowsDue(n: nat): nat {
    if n < 28 then 0 else (n - 28) / 7 + 1
  }

  /** One more entry adds one decode exactly when a decode is due, at the window ending there. */
  lemma WindowsDueStep(n: nat)
    requires n > 0
    ensures WindowsDue(n) == WindowsDue(n - 1) + (if DecodeDue(n) then 1 else 0)
    ensures DecodeDue(n) ==> 7 * WindowsDue(n - 1) == n - 28
  {
  }

  /** No more segments than decodes attempted. */
  lemma {:induction false} DecodedWindowsBound(decode: CodecBridge.Decoder, buffer: seq<int>)
    ensures |DecodedWindows(decode, buffer)| <= WindowsDue(|buffer|)
    decreases |buffer|
  {
    if buffer != [] {
      DecodedWindowsBound(decode, buffer[..|buffer| - 1]);
      WindowsDueStep(|buffer|);
    }
  }

  /** When every buffered index is in range, every decode attempted yields a segment. */
  lemma {:induction false} DecodedWindowsCount(decode: CodecBridge.Decoder, buffer: seq<int>)
    requires CodecBridge.InRange(buffer)
    ensures |DecodedWindows(decode, buffer)| == WindowsDue(|buffer|)
    decreases |buffer|
  {
    if buffer != [] {
      var n := |buffer|;
      DecodedWindowsCount(decode, buffer[..n - 1]);
      if DecodeDue(n) {
        CodecBridge.ConvertInRangeWindow(decode, LastWindow(buffer));
      }
    }
  }

  /**
   * When every buffered index is in range, segment `i` is the decode of the
   * window of entries `7i .. 7i+27`: the windows overlap by three frames and
   * advance by one.
   */
  lemma {:induction false} DecodedWindowAt(decode: CodecBridge.Decoder, buffer: seq<int>, i: nat)
    requires CodecBridge.InRange(buffer) && i < WindowsDue(|buffer|)
    ensures |DecodedWindows(decode, buffer)| == WindowsDue(|buffer|)
    ensures CodecBridge.Convert(decode, buffer[7 * i..7 * i + 28])
      == Some(DecodedWindows(decode, buffer)[i])
    decreases |buffer|
  {
    var n := |buffer|;
    var front := buffer[..n - 1];
    DecodedWindowsCount(decode, buffer);
    WindowsDueStep(n);
    if i < WindowsDue(n - 1) {
      assert CodecBridge.InRange(front);
      DecodedWindowAt(decode, front, i);
      EarlierWindowKept(decode, buffer, i);
      WindowInFront(buffer, 7 * i);
    } else {
      LastWindowAt(decode, buffer, i);
    }
  }

  /** A window that ends before the last entry is a window of the front too. */
  lemma WindowInFront(buffer: seq<int>, start: nat)
    requires start + 28 < |buffer|
    ensures buffer[start..start + 28] == buffer[..|buffer| - 1][start..start + 28]
  {
  }

  /** The newest segment is the decode of the window ending at the last entry. */
  lemma LastWindowAt(decode: CodecBridge.Decoder, buffer: seq<int>, i: nat)
    requires CodecBridge.InRange(buffer) && DecodeDue(|buffer|)
    requires 7 * i + 28 == |buffer| && i == |DecodedWindows(decode, buffer)| - 1
    ensures CodecBridge.Convert(decode, buffer[7 * i..7 * i + 28]) == Some(DecodedWindows(decode, buffer)[i])
  {
    LastWindowDecoded(decode, buffer);
    assert buffer[7 * i..7 * i + 28] == buffer[|buffer| - 28..];
  }

  /** Appending an entry keeps the segments already produced. */
  lemma EarlierWindowKept(decode: CodecBridge.Decoder, buffer: seq<int>, i: nat)
    requires buffer != [] && i < |DecodedWindows(decode, buffer[..|buffer| - 1])|
    ensures i < |DecodedWindows(decode, buffer)|
    ensures DecodedWindows(decode, buffer)[i] == DecodedWindows(decode, buffer[..|buffer| - 1])[i]
  {
  }

  /** An in-range buffer whose length is due for a decode ends with the segment of its last window. */
  lemma LastWindowDecoded(decode: CodecBridge.Decoder, buffer: seq<int>)
    requires CodecBridge.InRange(buffer) && DecodeDue(|buffer|)
    ensures var all := DecodedWindows(decode, buffer);
      |all| > 0 && CodecBridge.Convert(decode, buffer[|buffer| - 28..]) == Some(all[|all| - 1])
  {
    var w := LastWindow(buffer);
    CodecBridge.ConvertInRangeWindow(decode, w);
  }

  /** The run over the tokens from position `i` on takes one step and then stops or runs on. */
  lemma RunUnfold(s: State, tokens: seq<nat>, i: nat, render: nat -> string, idOf: IdMapper, decode: CodecBridge.Decoder, cap: nat)
    requires i < |tokens|
    ensures var n := Step(s, tokens[i], render, idOf, decode, cap);
      Run(s, tokens[i..], render, idOf, decode, cap) ==
        if n.Stop? then n.state else Run(n.state, tokens[i + 1..], render, idOf, decode, cap)
  {
    assert tokens[i..][0] == tokens[i] && tokens[i..][1..] == tokens[i + 1..];
  }

  /** A token that maps to a positive index is accepted; the loop stops when that reaches the budget. */
  lemma StepAccepts(s: State, token: nat, render: nat -> string, idOf: IdMapper, decode: CodecBridge.Decoder, cap: nat)
    requires token !in EndTokenIds
    requires idOf(render(token), s.count).Some? && idOf(render(token), s.count).value > 0
    ensures var n := Step(s, token, render, idOf, decode, cap);
      n.state == Accept(s, idOf(render(token), s.count).value, decode) && (n.Stop? <==> s.count + 1 >= cap)
  {
  }

  /** A token that maps to nothing usable leaves the state as it is. */
  lemma StepSkips(s: State, token: nat, render: nat -> string, idOf: IdMapper, decode: CodecBridge.Decoder, cap: nat)
    requires token !in EndTokenIds
    requires !(idOf(render(token), s.count).Some? && idOf(render(token), s.count).value > 0)
    ensures Step(s, token, render, idOf, decode, cap) == if s.count >= cap then Stop(s) else Continue(s)
  {
  }

  /**
   * The loop body's handling of an accepted index: append it, count it, mark
   * audio as started, and, when a frame completes with four frames in the
   * buffer, decode the last 28 entries and keep the audio if there is any.
   */
  method AcceptIndex(audioStarted: bool, count: nat, buffer: seq<int>, audioSegments: seq<CodecBridge.Pcm>,
                     tokenId: int, decode: CodecBridge.Decoder)
    returns (audioStarted': bool, count': nat, buffer': seq<int>, audioSegments': seq<CodecBridge.Pcm>)
    requires count == |buffer|
    ensures State(audioStarted', count', buffer', audioSegments')
      == Accept(State(audioStarted, count, buffer, audioSegments), tokenId, decode)
  {
    buffer' := buffer + [tokenId];
    count' := count + 1;
    audioStarted' := true;
    audioSegments' := audioSegments;
    if count' % 7 == 0 && count' > 27 {
      var bufferToProc := buffer'[|buffer'| - 28..];
      assert bufferToProc == LastWindow(buffer');
      var audioBytes := CodecBridge.ConvertToAudio(decode, bufferToProc);
      if audioBytes.Some? {
        audioSegments' := audioSegments' + [audioBytes.value];
      }
      assert audioSegments' == audioSegments + ToSeq(audioBytes);
    }
  }

  /**
   * `generate_speech` without its I/O: runs the token loop over `tokens` and
   * returns whether any segment was produced, with the segments in order.
   */
  method GenerateSpeech(tokens: seq<nat>, render: nat -> string, decode: CodecBridge.Decoder)
    returns (ok: bool, audioSegments: seq<CodecBridge.Pcm>)
    ensures var final := Run(Start, tokens, render, TokenMapper.TurnTokenIntoId, decode, MaxTokens);
      audioSegments == final.audioSegments && audioSegments == DecodedWindows(decode, final.buffer)
    ensures ok <==> audioSegments != []
  {
    var buffer: seq<int> := [];
    var count: nat := 0;
    audioSegments := [];
    var audioStarted := false;
    ghost var final := Run(Start, tokens, render, TokenMapper.TurnTokenIntoId, decode, MaxTokens);
    StartConsistent(decode);
    RunConsistent(Start, tokens, render, TokenMapper.TurnTokenIntoId, decode, MaxTokens);

    for i := 0 to |tokens|
      invariant count == |buffer|
      invariant final == Run(State(audioStarted, count, buffer, audioSegments), tokens[i..], render, TokenMapper.TurnTokenIntoId, decode, MaxTokens)
    {
      ghost var before := State(audioStarted, count, buffer, audioSegments);
      RunUnfold(before, tokens, i, render, TokenMapper.TurnTokenIntoId, decode, MaxTokens);
      var token := tokens[i];
      if token in EndTokenIds {
        if audioStarted {
          break;
        } else {
          continue;
        }
      }
      var tokenText := render(token);
      var tokenId := TokenMapper.TurnTokenIntoId(tokenText, count);
      if tokenId.Some? && tokenId.value > 0 {
        StepAccepts(before, token, render, TokenMapper.TurnTokenIntoId, decode, MaxTokens);
        audioStarted, count, buffer, audioSegments :=
          AcceptIndex(audioStarted, count, buffer, audioSegments, tokenId.value, decode);
      } else {
        StepSkips(before, token, render, TokenMapper.TurnTokenIntoId, decode, MaxTokens);
      }
      if count >= MaxTokens {
        break;
      }
    }
    ok := audioSegments != [];
  }
}
