/** Building the model's input text from a voice tag and the text to speak. */
module Prompt {
  import opened Wrappers
  import opened Strings

  const AudioMarker: string := "<|audio|>"
  const EndOfTurnMarker: string := "<|eot_id|>"
  const VoiceSeparator: string := ": "

  /** The fixed voice catalogue; the command line rejects any other voice tag. */
  const AvailableVoices: seq<string> := ["tara", "leah", "jess", "leo", "dan", "mia", "zac", "zoe"]

  /** `format_prompt(text, voice)`: start marker, voice tag, separator, text, end-of-turn marker. */
  function FormatPrompt(text: string, voice: string): (r: string)
    ensures |r| == |AudioMarker| + |voice| + |VoiceSeparator| + |text| + |EndOfTurnMarker|
    ensures StartsWith(r, AudioMarker) && EndsWith(r, EndOfTurnMarker)
  {
    AudioMarker + voice + VoiceSeparator + text + EndOfTurnMarker
  }

  /**
   * Reads a prompt back: the voice is everything before the first separator
   * after the start marker, the text everything after it up to the final
   * end-of-turn marker.
   */
  function SplitPrompt(p: string): (r: Option<(string, string)>)
    ensures r.Some? ==> StartsWith(p, AudioMarker) && EndsWith(p, EndOfTurnMarker)
    ensures r.Some? ==> FormatPrompt(r.value.1, r.value.0) == p
  {
    if |p| >= |AudioMarker| + |EndOfTurnMarker| && StartsWith(p, AudioMarker) && EndsWith(p, EndOfTurnMarker) then
      var body := p[|AudioMarker|..|p| - |EndOfTurnMarker|];
      var sep := Find(body, VoiceSeparator);
      if sep == -1 then None
      else
        SplitEnds(p, AudioMarker, EndOfTurnMarker);
        SplitAround(body, VoiceSeparator, sep);
        FormatPromptAround(body[sep + |VoiceSeparator|..], body[..sep]);
        Some((body[..sep], body[sep + |VoiceSeparator|..]))
    else None
  }

  lemma FormatPromptAround(text: string, voice: string)
    ensures FormatPrompt(text, voice) == AudioMarker + (voice + VoiceSeparator + text) + EndOfTurnMarker
  {
  }

  /** Every voice in the catalogue is free of the separator's colon. */
  lemma CatalogueVoicesHaveNoColon()
    ensures forall v :: v in AvailableVoices ==> ':' !in v
  {
  }

  /** For a voice tag without a colon, the prompt determines voice and text: formatting has a left inverse. */
  lemma {:induction false} PromptRoundTrip(text: string, voice: string)
    requires ':' !in voice
    ensures SplitPrompt(FormatPrompt(text, voice)) == Some((voice, text))
  {
    var p := FormatPrompt(text, voice);
    var body := voice + VoiceSeparator + text;
    assert p == AudioMarker + body + EndOfTurnMarker;
    assert p[|AudioMarker|..|p| - |EndOfTurnMarker|] == body;
    assert OccursAt(body, VoiceSeparator, |voice|);
    forall k | 0 <= k < |voice|
      ensures !OccursAt(body, VoiceSeparator, k)
    {
      assert body[k] == voice[k];
    }
    assert Find(body, VoiceSeparator) == |voice|;
    assert body[..|voice|] == voice;
    assert body[|voice| + |VoiceSeparator|..] == text;
  }

  /** Prompts for catalogue voices are read back exactly. */
  lemma CataloguePromptRoundTrip(text: string, voice: string)
    requires voice in AvailableVoices
    ensures SplitPrompt(FormatPrompt(text, voice)) == Some((voice, text))
  {
    CatalogueVoicesHaveNoColon();
    PromptRoundTrip(text, voice);
  }
}
