/**
 * Turning a window of codebook indices into audio: cut it to whole 7-index
 * frames, split each frame over the codec's three codebooks (1, 2 and 4
 * indices per frame), reject the window when an index is out of range, and
 * hand the three sequences to the codec.
 */
module CodecBridge {
  import opened Wrappers

  /** The largest index the range check lets through (the check rejects only values above it). */
  const MaxCode: int := 4096

  /** 16-bit little-endian PCM bytes, as the codec bridge returns them. */
  type Pcm = seq<bv8>

  /**
   * The codec decode followed by the slice of the middle samples and the
   * conversion to 16-bit PCM, taken as given: a function of the three
   * codebook sequences.
   */
  type Decoder = (seq<int>, seq<int>, seq<int>) -> Pcm

  /** The three per-codebook index sequences (coarse, middle, fine). */
  datatype Codes = Codes(c0: seq<int>, c1: seq<int>, c2: seq<int>)

  /** Appends one frame `f[i..i+7]` to the three sequences in the codec's order. */
  function AddFrame(c: Codes, f: seq<int>, i: nat): Codes
    requires i + 7 <= |f|
  {
    Codes(c.c0 + [f[i]],
          c.c1 + [f[i + 1], f[i + 4]],
          c.c2 + [f[i + 2], f[i + 3], f[i + 5], f[i + 6]])
  }

  /** The three sequences built from the whole frames of `f`, one frame after another. */
  function Deinterleaved(f: seq<int>): (c: Codes)
    requires |f| % 7 == 0
    ensures |c.c0| == |f| / 7 && |c.c1| == 2 * |c.c0| && |c.c2| == 4 * |c.c0|
    decreases |f|
  {
    if f == [] then Codes([], [], [])
    else AddFrame(Deinterleaved(f[..|f| - 7]), f, |f| - 7)
  }

  /**
   * Where the indices of frame `j` land: `f[7j]` in slot `j` of codebook 0,
   * `f[7j+1], f[7j+4]` in slots `2j, 2j+1` of codebook 1, and
   * `f[7j+2], f[7j+3], f[7j+5], f[7j+6]` in slots `4j .. 4j+3` of codebook 2.
   */
  predicate FrameLaidOut(f: seq<int>, c: Codes, j: int) {
    && 0 <= j && 7 * j + 7 <= |f| && j < |c.c0| && 2 * j + 2 <= |c.c1| && 4 * j + 4 <= |c.c2|
    && c.c0[j] == f[7 * j]
    && c.c1[2 * j] == f[7 * j + 1] && c.c1[2 * j + 1] == f[7 * j + 4]
    && c.c2[4 * j] == f[7 * j + 2] && c.c2[4 * j + 1] == f[7 * j + 3]
    && c.c2[4 * j + 2] == f[7 * j + 5] && c.c2[4 * j + 3] == f[7 * j + 6]
  }

  /** Codes `c` hold every frame of `f` in its fixed slots, and nothing else. */
  predicate LaidOut(f: seq<int>, c: Codes) {
    && |f| % 7 == 0 && |c.c0| == |f| / 7 && |c.c1| == 2 * |c.c0| && |c.c2| == 4 * |c.c0|
    && forall j :: 0 <= j < |c.c0| ==> FrameLaidOut(f, c, j)
  }

  /** A frame laid out in a prefix stays laid out when frames and codes are extended. */
  lemma FrameLaidOutExtended(g: seq<int>, p: Codes, f: seq<int>, c: Codes, j: int)
    requires FrameLaidOut(g, p, j)
    requires |g| <= |f| && g == f[..|g|]
    requires |p.c0| <= |c.c0| && p.c0 == c.c0[..|p.c0|]
    requires |p.c1| <= |c.c1| && p.c1 == c.c1[..|p.c1|]
    requires |p.c2| <= |c.c2| && p.c2 == c.c2[..|p.c2|]
    ensures FrameLaidOut(f, c, j)
  {
  }

  /** The frame `AddFrame` appends is laid out in the slots after the earlier frames. */
  lemma AddedFrameLaidOut(p: Codes, f: seq<int>, i: nat)
    requires i + 7 == |f| && i % 7 == 0
    requires |p.c0| == i / 7 && |p.c1| == 2 * |p.c0| && |p.c2| == 4 * |p.c0|
    ensures FrameLaidOut(f, AddFrame(p, f, i), i / 7)
  {
  }

  /** Frame `j` of the window is laid out in its fixed slots. */
  lemma {:induction false} DeinterleaveAt(f: seq<int>, j: int)
    requires |f| % 7 == 0 && 0 <= j < |f| / 7
    ensures FrameLaidOut(f, Deinterleaved(f), j)
    decreases |f|
  {
    var i := |f| - 7;
    var g := f[..i];
    var p := Deinterleaved(g);
    var c := Deinterleaved(f);
    assert c == AddFrame(p, f, i);
    if j < |g| / 7 {
      DeinterleaveAt(g, j);
      FrameLaidOutExtended(g, p, f, c, j);
    } else {
      AddedFrameLaidOut(p, f, i);
    }
  }

  /** The deinterleaving puts every index of every frame in its fixed slot. */
  lemma DeinterleaveLayout(f: seq<int>)
    requires |f| % 7 == 0
    ensures LaidOut(f, Deinterleaved(f))
  {
    forall j | 0 <= j < |f| / 7
      ensures FrameLaidOut(f, Deinterleaved(f), j)
    {
      DeinterleaveAt(f, j);
    }
  }

  /** Rebuilds the frames from the three sequences: the inverse of the deinterleaving. */
  function Interleaved(c: Codes): (f: seq<int>)
    requires |c.c1| == 2 * |c.c0| && |c.c2| == 4 * |c.c0|
    ensures |f| == 7 * |c.c0|
    decreases |c.c0|
  {
    var n := |c.c0|;
    if n == 0 then []
    else
      Interleaved(Codes(c.c0[..n - 1], c.c1[..2 * n - 2], c.c2[..4 * n - 4]))
        + [c.c0[n - 1], c.c1[2 * n - 2], c.c2[4 * n - 4], c.c2[4 * n - 3],
           c.c1[2 * n - 1], c.c2[4 * n - 2], c.c2[4 * n - 1]]
  }

  /**
   * Interleaving undoes the deinterleaving, and the three sequences are as
   * long as the frames together: every index of the frames appears in them
   * exactly once.
   */
  lemma {:induction false} DeinterleaveRoundTrip(f: seq<int>)
    requires |f| % 7 == 0
    ensures var c := Deinterleaved(f);
      |c.c0| + |c.c1| + |c.c2| == |f| && Interleaved(c) == f
    decreases |f|
  {
    if f != [] {
      var i := |f| - 7;
      var g := f[..i];
      DeinterleaveRoundTrip(g);
      var p := Deinterleaved(g);
      var c := Deinterleaved(f);
      var n := |c.c0|;
      assert c.c0[..n - 1] == p.c0 && c.c1[..2 * n - 2] == p.c1 && c.c2[..4 * n - 4] == p.c2;
      LastFrame(f);
    }
  }

  lemma LastFrame(f: seq<int>)
    requires |f| >= 7
    ensures var i := |f| - 7;
      f == f[..i] + [f[i], f[i + 1], f[i + 2], f[i + 3], f[i + 4], f[i + 5], f[i + 6]]
  {
    var i := |f| - 7;
    assert f == f[..i] + f[i..];
  }

  /** Every value of `s` lies in [0, 4096]: the check rejects only values below 0 or above 4096. */
  predicate InRange(s: seq<int>) {
    forall k :: 0 <= k < |s| ==> 0 <= s[k] <= MaxCode
  }

  predicate CodesInRange(c: Codes) {
    InRange(c.c0) && InRange(c.c1) && InRange(c.c2)
  }

  /** Within one laid-out frame, in-range codes mean in-range indices. */
  lemma FrameInRange(f: seq<int>, c: Codes, j: int, k: int)
    requires FrameLaidOut(f, c, j) && CodesInRange(c)
    requires 7 * j <= k < 7 * j + 7
    ensures 0 <= f[k] <= MaxCode
  {
    var r := k - 7 * j;
    if r == 0 {
      assert f[k] == c.c0[j];
    } else if r == 1 {
      assert f[k] == c.c1[2 * j];
    } else if r == 4 {
      assert f[k] == c.c1[2 * j + 1];
    } else if r == 2 {
      assert f[k] == c.c2[4 * j];
    } else if r == 3 {
      assert f[k] == c.c2[4 * j + 1];
    } else if r == 5 {
      assert f[k] == c.c2[4 * j + 2];
    } else {
      assert f[k] == c.c2[4 * j + 3];
    }
  }

  /** Within one laid-out frame, in-range indices mean in-range codes. */
  lemma FrameCodesInRange(f: seq<int>, c: Codes, j: int)
    requires FrameLaidOut(f, c, j) && InRange(f)
    ensures 0 <= c.c0[j] <= MaxCode
    ensures 0 <= c.c1[2 * j] <= MaxCode && 0 <= c.c1[2 * j + 1] <= MaxCode
    ensures 0 <= c.c2[4 * j] <= MaxCode && 0 <= c.c2[4 * j + 1] <= MaxCode
    ensures 0 <= c.c2[4 * j + 2] <= MaxCode && 0 <= c.c2[4 * j + 3] <= MaxCode
  {
    assert 0 <= f[7 * j] <= MaxCode && 0 <= f[7 * j + 1] <= MaxCode && 0 <= f[7 * j + 4] <= MaxCode;
    assert 0 <= f[7 * j + 2] <= MaxCode && 0 <= f[7 * j + 3] <= MaxCode;
    assert 0 <= f[7 * j + 5] <= MaxCode && 0 <= f[7 * j + 6] <= MaxCode;
  }

  /** Every index of the frames lands in one of the three sequences, so in-range codes mean in-range frames. */
  lemma CodesInRangeCoverFrames(f: seq<int>, c: Codes)
    requires LaidOut(f, c) && CodesInRange(c)
    ensures InRange(f)
  {
    forall k | 0 <= k < |f| ensures 0 <= f[k] <= MaxCode {
      var j := k / 7;
      assert FrameLaidOut(f, c, j);
      FrameInRange(f, c, j, k);
    }
  }

  lemma CoarseCodesInRange(f: seq<int>, c: Codes)
    requires LaidOut(f, c) && InRange(f)
    ensures InRange(c.c0)
  {
    forall m | 0 <= m < |c.c0| ensures 0 <= c.c0[m] <= MaxCode {
      assert FrameLaidOut(f, c, m);
      FrameCodesInRange(f, c, m);
    }
  }

  lemma MiddleCodesInRange(f: seq<int>, c: Codes)
    requires LaidOut(f, c) && InRange(f)
    ensures InRange(c.c1)
  {
    forall m | 0 <= m < |c.c1| ensures 0 <= c.c1[m] <= MaxCode {
      var j := m / 2;
      assert m == 2 * j || m == 2 * j + 1;
      assert FrameLaidOut(f, c, j);
      FrameCodesInRange(f, c, j);
    }
  }

  lemma FineCodesInRange(f: seq<int>, c: Codes)
    requires LaidOut(f, c) && InRange(f)
    ensures InRange(c.c2)
  {
    forall m | 0 <= m < |c.c2| ensures 0 <= c.c2[m] <= MaxCode {
      var j := m / 4;
      assert 4 * j <= m < 4 * j + 4;
      assert FrameLaidOut(f, c, j);
      FrameCodesInRange(f, c, j);
    }
  }

  /** The range check passes exactly when every index of the frames lies in [0, 4096]. */
  lemma RangeCheckOnFrames(f: seq<int>)
    requires |f| % 7 == 0
    ensures CodesInRange(Deinterleaved(f)) <==> InRange(f)
  {
    var c := Deinterleaved(f);
    DeinterleaveLayout(f);
    if CodesInRange(c) {
      CodesInRangeCoverFrames(f, c);
    }
    if InRange(f) {
      CoarseCodesInRange(f, c);
      MiddleCodesInRange(f, c);
      FineCodesInRange(f, c);
    }
  }

  /** The whole frames at the front of `multiframe`; a trailing partial frame is dropped. */
  function WholeFrames(multiframe: seq<int>): (frame: seq<int>)
    ensures |frame| % 7 == 0 && |multiframe| - 7 < |frame| <= |multiframe|
    ensures frame == multiframe[..|frame|]
  {
    multiframe[..|multiframe| / 7 * 7]
  }

  /**
   * What `convert_to_audio` returns for `multiframe`: `None` for fewer than 7
   * indices or when an index of the whole frames is out of range, otherwise the
   * decoder's audio for the deinterleaved frames.
   */
  function Convert(decode: Decoder, multiframe: seq<int>): (r: Option<Pcm>)
    ensures r.None? <==>
      |multiframe| < 7 || exists k :: 0 <= k < |WholeFrames(multiframe)| && !(0 <= multiframe[k] <= MaxCode)
  {
    if |multiframe| < 7 then None
    else
      var frame := WholeFrames(multiframe);
      var c := Deinterleaved(frame);
      RangeCheckOnFrames(frame);
      if CodesInRange(c) then Some(decode(c.c0, c.c1, c.c2)) else None
  }

  /** Indices after the last whole frame never influence the result. */
  lemma ConvertIgnoresPartialFrame(decode: Decoder, multiframe: seq<int>, extra: seq<int>)
    requires |multiframe| % 7 == 0 && |extra| < 7
    ensures Convert(decode, multiframe + extra) == Convert(decode, multiframe)
  {
    var whole := multiframe + extra;
    assert |whole| / 7 * 7 == |multiframe|;
    assert WholeFrames(whole) == multiframe;
    assert WholeFrames(multiframe) == multiframe;
  }

  /** An in-range window of whole frames always reaches the decoder, with its codes in the fixed layout. */
  lemma ConvertInRangeWindow(decode: Decoder, window: seq<int>)
    requires |window| >= 7 && |window| % 7 == 0 && InRange(window)
    ensures var c := Deinterleaved(window);
      Convert(decode, window) == Some(decode(c.c0, c.c1, c.c2))
  {
    assert WholeFrames(window) == window;
    RangeCheckOnFrames(window);
  }

  /**
   * `convert_to_audio(snac_model, device, multiframe)`: builds the three code
   * sequences frame by frame, checks their range, and decodes them.
   */
  method ConvertToAudio(decode: Decoder, multiframe: seq<int>) returns (audio: Option<Pcm>)
    ensures audio == Convert(decode, multiframe)
  {
    if |multiframe| < 7 {
      return None;
    }
    var c0: seq<int>, c1: seq<int>, c2: seq<int> := [], [], [];
    var numFrames := |multiframe| / 7;
    var frame := multiframe[..numFrames * 7];
    for j := 0 to numFrames
      invariant Codes(c0, c1, c2) == Deinterleaved(frame[..7 * j])
    {
      var i := 7 * j;
      assert frame[..i + 7][..i] == frame[..i];
      c0 := c0 + [frame[i]];
      c1 := c1 + [frame[i + 1]];
      c1 := c1 + [frame[i + 4]];
      c2 := c2 + [frame[i + 2]];
      c2 := c2 + [frame[i + 3]];
      c2 := c2 + [frame[i + 5]];
      c2 := c2 + [frame[i + 6]];
    }
    assert frame[..7 * numFrames] == frame;
    if !InRange(c0) || !InRange(c1) || !InRange(c2) {
      return None;
    }
    audio := Some(decode(c0, c1, c2));
  }
}
