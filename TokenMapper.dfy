/**
 * Mapping the text of a generated token to a codebook index.  The model's
 * audio vocabulary is a run of `<custom_token_N>` tokens; the same token text
 * stands for a different codebook slot depending on the token's position
 * within its 7-index frame, so the position-dependent offset is subtracted.
 */
module TokenMapper {
  import opened Wrappers
  import opened Strings

  const CustomTokenPrefix: string := "<custom_token_"
  const TokenCloser: string := ">"
  /** Where the number starts inside the marked token; the length of the prefix. */
  const NumberStart: nat := 14

  /**
   * The codebook index the marker number `n` stands for at position `index`
   * among accepted audio tokens: the first 10 marker numbers are not audio,
   * and each of the 7 places within a frame has its own run of 4096 numbers.
   */
  function CodebookIndex(n: int, index: nat): int {
    n - 10 - (index % 7) * 4096
  }

  /**
   * The text from the last marker onwards: it must start with the marker and
   * end with `>`, and what lies between must read as an integer.
   */
  function ParseCustomToken(tail: string, index: nat): (r: Option<int>)
    ensures r.Some? ==> StartsWith(tail, CustomTokenPrefix) && EndsWith(tail, TokenCloser)
    ensures r.Some? ==> |tail| > NumberStart && ParseInt(tail[NumberStart..|tail| - 1]).Some?
    ensures r.Some? ==> r.value == CodebookIndex(ParseInt(tail[NumberStart..|tail| - 1]).value, index)
  {
    if StartsWith(tail, CustomTokenPrefix) && EndsWith(tail, TokenCloser) then
      assert tail[13] == '_' && tail[|tail| - 1] == '>';
      match ParseInt(tail[NumberStart..|tail| - 1])
      case None => None
      case Some(n) => Some(CodebookIndex(n, index))
    else None
  }

  /** The stripped text from its last marker onwards, or `None` when it holds no marker. */
  function LastMarkedToken(tokenString: string): (r: Option<string>)
    ensures r.None? <==> forall k :: !OccursAt(Strip(tokenString), CustomTokenPrefix, k)
    ensures r.Some? ==> EndsWith(Strip(tokenString), r.value) && StartsWith(r.value, CustomTokenPrefix)
  {
    FromLast(Strip(tokenString), CustomTokenPrefix)
  }

  /**
   * `turn_token_into_id(token_string, index)`: strip the text, find the last
   * marker, and read the number between it and the closing `>`; `None` when
   * any step fails.
   */
  function TurnTokenIntoId(tokenString: string, index: nat): (r: Option<int>)
    ensures (forall k :: !OccursAt(Strip(tokenString), CustomTokenPrefix, k)) ==> r == None
    ensures r.Some? ==> EndsWith(Strip(tokenString), TokenCloser)
  {
    match LastMarkedToken(tokenString)
    case None => None
    case Some(tail) =>
      var r := ParseCustomToken(tail, index);
      if r.Some? then
        EndsWithTransitive(Strip(tokenString), tail, TokenCloser);
        r
      else r
  }

  /** The result depends on the position only through its place within the frame. */
  lemma MapperPeriodic(tokenString: string, index: nat)
    ensures TurnTokenIntoId(tokenString, index) == TurnTokenIntoId(tokenString, index + 7)
  {
    assert (index + 7) % 7 == index % 7;
    assert forall n :: CodebookIndex(n, index) == CodebookIndex(n, index + 7);
  }

  /**
   * Only the text from the last marker on matters: whatever precedes it in the
   * stripped text, the result is that of the tail alone.
   */
  lemma MapperUsesLastMarker(tokenString: string, pre: string, tail: string, index: nat)
    requires Strip(tokenString) == pre + tail
    requires StartsWith(tail, CustomTokenPrefix)
    requires forall k :: 0 < k ==> !OccursAt(tail, CustomTokenPrefix, k)
    ensures TurnTokenIntoId(tokenString, index) == ParseCustomToken(tail, index)
  {
    FromLastOfTail(pre, tail, CustomTokenPrefix);
    assert LastMarkedToken(tokenString) == Some(tail);
  }

  /** The marked token whose number text is `num`. */
  function MarkedToken(num: string): (r: string)
    ensures StartsWith(r, CustomTokenPrefix) && EndsWith(r, TokenCloser)
    ensures |r| == NumberStart + |num| + 1 && r[NumberStart..|r| - 1] == num
  {
    var r := CustomTokenPrefix + num + TokenCloser;
    assert r[..NumberStart] == CustomTokenPrefix;
    assert r[NumberStart..|r| - 1] == num;
    r
  }

  /**
   * `MarkedToken` written out. A lemma of its own rather than an assert in
   * its caller, so that the marker literal is unfolded in a small context.
   */
  lemma MarkedTokenSpelledOut(num: string)
    ensures MarkedToken(num) == CustomTokenPrefix + num + TokenCloser
  {
  }

  /** No '<' occurs in a marked token after its first character, so the marker cannot recur inside it. */
  lemma MarkedTokenHasOneMarker(num: string)
    requires '<' !in num
    ensures forall k :: 0 < k ==> !OccursAt(MarkedToken(num), CustomTokenPrefix, k)
  {
    var tail := MarkedToken(num);
    assert tail == CustomTokenPrefix + num + TokenCloser;
    forall k | 0 < k < |tail|
      ensures tail[k] != CustomTokenPrefix[0]
    {
      if k < |CustomTokenPrefix| {
        assert tail[k] == CustomTokenPrefix[k];
      } else if k < |CustomTokenPrefix| + |num| {
        assert tail[k] == num[k - |CustomTokenPrefix|];
      } else {
        assert tail[k] == '>';
      }
    }
    NoLaterOccurrence(tail, CustomTokenPrefix);
  }

  /** When the stripped text ends in a marked token whose number text has no '<', that token is the last marked one. */
  lemma LastMarkedTokenIsMarked(tokenString: string, pre: string, num: string)
    requires Strip(tokenString) == pre + CustomTokenPrefix + num + TokenCloser
    requires '<' !in num
    ensures LastMarkedToken(tokenString) == Some(MarkedToken(num))
  {
    MarkedTokenSpelledOut(num);
    Regroup(pre, CustomTokenPrefix, num, TokenCloser);
    MarkedTokenHasOneMarker(num);
    FromLastOfTail(pre, MarkedToken(num), CustomTokenPrefix);
  }

  /** The marked token reads as its number less the offsets, or `None` when the number text is not an integer. */
  lemma ParseMarkedToken(num: string, index: nat)
    ensures ParseInt(num).None? ==> ParseCustomToken(MarkedToken(num), index) == None
    ensures ParseInt(num).Some? ==>
      ParseCustomToken(MarkedToken(num), index) == Some(CodebookIndex(ParseInt(num).value, index))
  {
  }

  /** What the mapper returns once the last marked token is known to carry the number text `num`. */
  lemma MapperOnLastMarked(tokenString: string, num: string, index: nat)
    requires LastMarkedToken(tokenString) == Some(MarkedToken(num))
    ensures ParseInt(num).None? ==> TurnTokenIntoId(tokenString, index) == None
    ensures ParseInt(num).Some? ==>
      TurnTokenIntoId(tokenString, index) == Some(CodebookIndex(ParseInt(num).value, index))
  {
    ParseMarkedToken(num, index);
  }

  /**
   * A stripped text that ends in `<custom_token_` + num + `>`, with no '<' in
   * num, maps to num's value less the offsets for its place within the frame,
   * and to `None` when num is not an integer.
   */
  lemma MapperOnMarkedNumber(tokenString: string, pre: string, num: string, index: nat)
    requires Strip(tokenString) == pre + CustomTokenPrefix + num + TokenCloser
    requires '<' !in num
    ensures ParseInt(num).None? ==> TurnTokenIntoId(tokenString, index) == None
    ensures ParseInt(num).Some? ==>
      TurnTokenIntoId(tokenString, index) == Some(CodebookIndex(ParseInt(num).value, index))
  {
    LastMarkedTokenIsMarked(tokenString, pre, num);
    MapperOnLastMarked(tokenString, num, index);
  }

  /**
   * The well-formed case: `<custom_token_N>` at position `index`, with `N`
   * written in decimal after any number of leading zeros `z`, maps to
   * `N - 10 - (index % 7) * 4096`.
   */
  lemma MapperOnDecimal(tokenString: string, pre: string, z: string, n: nat, index: nat)
    requires AllZeros(z)
    requires Strip(tokenString) == pre + CustomTokenPrefix + (z + Decimal(n)) + TokenCloser
    ensures TurnTokenIntoId(tokenString, index) == Some(CodebookIndex(n, index))
  {
    var d := z + Decimal(n);
    ParsePaddedDecimal(z, n);
    DigitsExclude(d, '<');
    LastMarkedTokenIsMarked(tokenString, pre, d);
    MapperOnLastMarked(tokenString, d, index);
  }

  /** An empty number, as in `<custom_token_>`, is a parse failure. */
  lemma MapperRejectsEmptyNumber(tokenString: string, pre: string, index: nat)
    requires Strip(tokenString) == pre + "<custom_token_>"
    ensures TurnTokenIntoId(tokenString, index) == None
  {
    assert "<custom_token_>" == CustomTokenPrefix + "" + TokenCloser;
    assert Strip(tokenString) == pre + CustomTokenPrefix + "" + TokenCloser;
    MapperOnMarkedNumber(tokenString, pre, "", index);
  }
}
