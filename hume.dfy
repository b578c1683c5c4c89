/** The acting description sent with each Hume request:
    `infer_quick_emotion_hint` reads the line's punctuation and
    `build_hume_description` joins the hint to the character's base
    description. */
module Hume {

  import opened Text

  const LoudHint := "loud, excited"
  const ExcitedHint := "excited"
  const QuestionHint := "curious, questioning"
  const DefaultDescription := "Expressive delivery, clear articulation."
  /** The head put before a hint when the base description is blank. */
  const HintedDefault := "Expressive delivery."

  /** `infer_quick_emotion_hint`, on the stripped text. */
  function EmotionHint(text: string): (r: string)
    ensures r == LoudHint <==> Count(Strip(text), '!') >= 2
    ensures r == ExcitedHint <==> Count(Strip(text), '!') == 1
    ensures r == QuestionHint <==> '!' !in Strip(text) && EndsWith(Strip(text), "?")
    ensures r == [] <==> '!' !in Strip(text) && !EndsWith(Strip(text), "?")
  {
    var t := Strip(text);
    CountZero(t, '!');
    if Count(t, '!') >= 2 then LoudHint
    else if '!' in t then ExcitedHint
    else if EndsWith(t, "?") then QuestionHint
    else ""
  }

  /** Stripping only removes whitespace, so it keeps every `!`. */
  lemma CountStrip(s: string)
    ensures Count(Strip(s), '!') == Count(s, '!')
  {
    var i, j := StripIsSlice(s);
    assert s == s[..i] + s[i..j] + s[j..];
    CountAppend(s[..i] + s[i..j], s[j..], '!');
    CountAppend(s[..i], s[i..j], '!');
    SpaceCountZero(s[..i]);
    SpaceCountZero(s[j..]);
  }

  lemma SpaceCountZero(s: string)
    requires AllSpace(s)
    ensures Count(s, '!') == 0
  {
    forall k | 0 <= k < |s| ensures s[k] != '!' {
      assert IsSpace(s[k]);
    }
    CountZero(s, '!');
  }

  /** The hint in terms of the raw line: two or more `!` anywhere, exactly
      one `!`, else a `?` as the last character that is not whitespace. */
  lemma HintOfRawText(text: string)
    ensures Count(text, '!') >= 2 ==> EmotionHint(text) == LoudHint
    ensures Count(text, '!') == 1 ==> EmotionHint(text) == ExcitedHint
    ensures Count(text, '!') == 0 && EndsWith(Strip(text), "?") ==> EmotionHint(text) == QuestionHint
    ensures Count(text, '!') == 0 && !EndsWith(Strip(text), "?") ==> EmotionHint(text) == []
  {
    CountStrip(text);
    CountZero(Strip(text), '!');
  }

  /** `build_hume_description`: the stripped base description (or the
      default one when it is blank), with `Emotion hint: <hint>.` after it
      when hints are on and the line gives one. */
  function Description(baseDesc: string, lineText: string, autoHints: bool): (r: string)
    ensures r != []
    ensures !autoHints || EmotionHint(lineText) == [] ==>
      r == (if Strip(baseDesc) != [] then Strip(baseDesc) else DefaultDescription)
    ensures autoHints && EmotionHint(lineText) != [] ==>
      EndsWith(r, " Emotion hint: " + EmotionHint(lineText) + ".")
    ensures Strip(baseDesc) != [] ==> StartsWith(r, Strip(baseDesc))
    ensures autoHints && EmotionHint(lineText) != [] && Strip(baseDesc) == [] ==>
      StartsWith(r, HintedDefault)
    ensures autoHints && EmotionHint(lineText) != [] ==>
      |r| == |(if Strip(baseDesc) != [] then Strip(baseDesc) else HintedDefault)|
             + |" Emotion hint: " + EmotionHint(lineText) + "."|
  {
    var base := Strip(baseDesc);
    if !autoHints then
      (if base != [] then base else DefaultDescription)
    else
      var hint := EmotionHint(lineText);
      if hint != [] then
        var tail := " Emotion hint: " + hint + ".";
        var head := if base != [] then base else HintedDefault;
        EndsWithConcat(head, tail);
        assert (head + tail)[..|head|] == head;
        head + tail
      else
        (if base != [] then base else DefaultDescription)
  }
}
