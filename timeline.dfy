/** The episode timeline of the ElevenLabs/Hume app and the stem app: each
    accepted clip is placed after a gap on the full mix and on every
    character's stem, the speaking character's stem carrying the clip and
    every other stem silence of the same length. */
module Timeline {

  import opened Wrappers
  import opened Text
  import opened Audio

  /** An accepted clip and who speaks it. */
  datatype Cut = Cut(speaker: string, clip: Clip)

  /** `GAP_SAME_SPEAKER_MS` and `GAP_SPEAKER_CHANGE_MS` of the ElevenLabs/Hume
      app and of the stem app. */
  const ElevenHumeGapSame: nat := 100
  const ElevenHumeGapChange: nat := 100
  const StemGapSame: nat := 200
  const StemGapChange: nat := 200

  /** The gap before a clip of `speaker`: none before the first clip,
      `same` after a clip of the same speaker, `change` after another's. */
  function GapBefore(cuts: seq<Cut>, speaker: string, same: nat, change: nat): nat
  {
    if cuts == [] then 0 else if cuts[|cuts| - 1].speaker == speaker then same else change
  }

  /** The full mix. */
  function Mix(cuts: seq<Cut>, same: nat, change: nat): Clip
  {
    if cuts == [] then []
    else
      var n := |cuts|;
      var pre := cuts[..n - 1];
      Mix(pre, same, change) + Silence(GapBefore(pre, cuts[n - 1].speaker, same, change)) + cuts[n - 1].clip
  }

  /** The stem of character `ch`. */
  function Stem(cuts: seq<Cut>, ch: string, same: nat, change: nat): Clip
  {
    if cuts == [] then []
    else
      var n := |cuts|;
      var pre := cuts[..n - 1];
      var c := cuts[n - 1];
      Stem(pre, ch, same, change) + Silence(GapBefore(pre, c.speaker, same, change))
        + (if c.speaker == ch then c.clip else Silence(|c.clip|))
  }

  /** Who is heard at each millisecond of the timeline. */
  datatype Owner = InGap | Voice(speaker: string)

  function Owners(cuts: seq<Cut>, same: nat, change: nat): seq<Owner>
  {
    if cuts == [] then []
    else
      var n := |cuts|;
      var pre := cuts[..n - 1];
      var c := cuts[n - 1];
      Owners(pre, same, change) + seq(GapBefore(pre, c.speaker, same, change), _ => InGap)
        + seq(|c.clip|, _ => Voice(c.speaker))
  }

  /** The speaker of the last clip placed (`last_speaker`). */
  function LastSpeaker(cuts: seq<Cut>): Option<string>
  {
    if cuts == [] then None else Some(cuts[|cuts| - 1].speaker)
  }

  function Duration(cuts: seq<Cut>): nat
  {
    if cuts == [] then 0 else Duration(cuts[..|cuts| - 1]) + |cuts[|cuts| - 1].clip|
  }

  // ---------------------------------------------------------------------------
  // Properties of the timeline

  lemma Snoc(cuts: seq<Cut>, c: Cut)
    ensures (cuts + [c])[..|cuts|] == cuts && (cuts + [c])[|cuts|] == c
  {
  }

  /** Every stem is exactly as long as the full mix. */
  lemma {:induction false} StemLength(cuts: seq<Cut>, ch: string, same: nat, change: nat)
    ensures |Stem(cuts, ch, same, change)| == |Mix(cuts, same, change)|
  {
    if cuts != [] {
      StemLength(cuts[..|cuts| - 1], ch, same, change);
    }
  }

  lemma {:induction false} OwnersLength(cuts: seq<Cut>, same: nat, change: nat)
    ensures |Owners(cuts, same, change)| == |Mix(cuts, same, change)|
  {
    if cuts != [] {
      OwnersLength(cuts[..|cuts| - 1], same, change);
    }
  }

  /** A stem holds the mix wherever its character is speaking and silence
      everywhere else (in gaps and under other characters' clips). */
  lemma {:induction false} StemContent(cuts: seq<Cut>, ch: string, same: nat, change: nat, i: nat)
    requires i < |Mix(cuts, same, change)|
    ensures i < |Owners(cuts, same, change)| && i < |Stem(cuts, ch, same, change)|
    ensures Stem(cuts, ch, same, change)[i] ==
      if Owners(cuts, same, change)[i] == Voice(ch) then Mix(cuts, same, change)[i] else 0
  {
    var n := |cuts|;
    var pre := cuts[..n - 1];
    var c := cuts[n - 1];
    var g := GapBefore(pre, c.speaker, same, change);
    var m := Mix(pre, same, change);
    StemLength(pre, ch, same, change);
    OwnersLength(pre, same, change);
    StemLength(cuts, ch, same, change);
    OwnersLength(cuts, same, change);
    if i < |m| {
      StemContent(pre, ch, same, change, i);
    }
  }

  /** Gaps are silent in the full mix. */
  lemma {:induction false} GapsSilent(cuts: seq<Cut>, same: nat, change: nat, i: nat)
    requires i < |Mix(cuts, same, change)|
    ensures i < |Owners(cuts, same, change)|
    ensures Owners(cuts, same, change)[i] == InGap ==> Mix(cuts, same, change)[i] == 0
  {
    var n := |cuts|;
    var pre := cuts[..n - 1];
    OwnersLength(pre, same, change);
    OwnersLength(cuts, same, change);
    if i < |Mix(pre, same, change)| {
      GapsSilent(pre, same, change, i);
    }
  }

  /** Placing a clip extends the mix and every stem: the earlier timeline is
      kept as it is. */
  lemma {:induction false} MixPrefix(cuts: seq<Cut>, k: nat, same: nat, change: nat)
    requires k <= |cuts|
    ensures Mix(cuts[..k], same, change) <= Mix(cuts, same, change)
    decreases |cuts| - k
  {
    if k < |cuts| {
      MixPrefix(cuts, k + 1, same, change);
      assert cuts[..k + 1][..k] == cuts[..k];
    } else {
      assert cuts[..k] == cuts;
    }
  }

  /** The k-th clip sits in the mix right after its gap, ending where the
      timeline stood once it was placed. */
  lemma ClipInMix(cuts: seq<Cut>, k: nat, same: nat, change: nat)
    requires k < |cuts|
    ensures var end := |Mix(cuts[..k + 1], same, change)|;
      |cuts[k].clip| <= end <= |Mix(cuts, same, change)| &&
      Mix(cuts, same, change)[end - |cuts[k].clip|..end] == cuts[k].clip
  {
    var pre := cuts[..k + 1];
    var clip := cuts[k].clip;
    var m := Mix(pre, same, change);
    var full := Mix(cuts, same, change);
    assert pre[|pre| - 1] == cuts[k];
    MixEndsWithClip(pre, same, change);
    MixPrefix(cuts, k + 1, same, change);
    var end := |m|;
    assert full[end - |clip|..end] == m[end - |clip|..];
  }

  /** The mix ends with the last clip placed. */
  lemma MixEndsWithClip(cuts: seq<Cut>, same: nat, change: nat)
    requires cuts != []
    ensures var clip := cuts[|cuts| - 1].clip; var m := Mix(cuts, same, change);
      |clip| <= |m| && m[|m| - |clip|..] == clip
  {
  }

  /** With one gap length `g` for both cases, the mix lasts the clips plus
      `g` between each consecutive pair. */
  lemma {:induction false} UniformLength(cuts: seq<Cut>, g: nat)
    requires cuts != []
    ensures |Mix(cuts, g, g)| == Duration(cuts) + g * (|cuts| - 1)
  {
    var n := |cuts|;
    if n > 1 {
      UniformLength(cuts[..n - 1], g);
    }
  }

  /** Both stem apps use one gap length for both cases: 100 ms between
      consecutive clips in the ElevenLabs/Hume app, 200 ms in the stem app. */
  lemma AppMixLengths(cuts: seq<Cut>)
    requires cuts != []
    ensures |Mix(cuts, ElevenHumeGapSame, ElevenHumeGapChange)| == Duration(cuts) + 100 * (|cuts| - 1)
    ensures |Mix(cuts, StemGapSame, StemGapChange)| == Duration(cuts) + 200 * (|cuts| - 1)
  {
    UniformLength(cuts, 100);
    UniformLength(cuts, 200);
  }

  /** The mix is empty iff no clip was placed (clips are never empty). */
  lemma {:induction false} MixEmpty(cuts: seq<Cut>, same: nat, change: nat)
    requires forall k :: 0 <= k < |cuts| ==> cuts[k].clip != []
    ensures Mix(cuts, same, change) == [] <==> cuts == []
  {
  }

  // ---------------------------------------------------------------------------
  // Export: each stem is padded with silence or cut to the mix's length.

  function Fit(track: Clip, n: nat): (r: Clip)
    ensures |r| == n
    ensures |track| <= n ==> r[..|track|] == track && Silent(r[|track|..])
    ensures |track| >= n ==> r == track[..n]
  {
    if |track| < n then
      assert (track + Silence(n - |track|))[|track|..] == Silence(n - |track|);
      track + Silence(n - |track|)
    else if |track| > n then track[..n]
    else
      assert track[..n] == track;
      track
  }

  /** The stems already match the mix, so the export leaves them as built. */
  lemma FitStem(cuts: seq<Cut>, ch: string, same: nat, change: nat)
    ensures Fit(Stem(cuts, ch, same, change), |Mix(cuts, same, change)|) == Stem(cuts, ch, same, change)
  {
    StemLength(cuts, ch, same, change);
  }

  // ---------------------------------------------------------------------------
  // The in-place updates of `character_tracks`, one loop over the
  // characters each

  /** The tracks are keyed by exactly the characters. */
  ghost predicate Keyed(tracks: map<string, Clip>, characters: seq<string>)
  {
    forall ch :: ch in tracks <==> ch in characters
  }

  /** `for ch in character_tracks: character_tracks[ch] += silent(n)`. */
  method AppendSilenceToAll(tracks: map<string, Clip>, characters: seq<string>, n: nat) returns (r: map<string, Clip>)
    requires Keyed(tracks, characters) && Distinct(characters)
    ensures Keyed(r, characters)
    ensures forall ch :: ch in characters ==> r[ch] == tracks[ch] + Silence(n)
  {
    r := tracks;
    for c := 0 to |characters|
      invariant Keyed(r, characters)
      invariant forall j :: 0 <= j < c ==> r[characters[j]] == tracks[characters[j]] + Silence(n)
      invariant forall j :: c <= j < |characters| ==> r[characters[j]] == tracks[characters[j]]
    {
      r := r[characters[c] := r[characters[c]] + Silence(n)];
    }
  }

  /** Tops a track up with silence to `position` (longer tracks are kept). */
  function PadTo(track: Clip, position: nat): Clip
  {
    if |track| < position then track + Silence(position - |track|) else track
  }

  /** Padding keeps the track as a prefix, reaches the position, and adds
      only silence. */
  lemma PadToSpec(track: Clip, position: nat)
    ensures |PadTo(track, position)| == if |track| < position then position else |track|
    ensures track <= PadTo(track, position)
    ensures forall i :: |track| <= i < |PadTo(track, position)| ==> PadTo(track, position)[i] == 0
  {
  }

  /** The catch-up loop run before each clip is placed. */
  method PadAllTo(tracks: map<string, Clip>, characters: seq<string>, position: nat) returns (r: map<string, Clip>)
    requires Keyed(tracks, characters) && Distinct(characters)
    ensures Keyed(r, characters)
    ensures forall ch :: ch in characters ==> r[ch] == PadTo(tracks[ch], position)
  {
    r := tracks;
    for c := 0 to |characters|
      invariant Keyed(r, characters)
      invariant forall j :: 0 <= j < c ==> r[characters[j]] == PadTo(tracks[characters[j]], position)
      invariant forall j :: c <= j < |characters| ==> r[characters[j]] == tracks[characters[j]]
    {
      var ch := characters[c];
      if |r[ch]| < position {
        r := r[ch := r[ch] + Silence(position - |r[ch]|)];
      }
    }
  }

  /** The speaker's track gets the clip, every other track silence of the
      clip's length. */
  method AppendClip(tracks: map<string, Clip>, characters: seq<string>, speaker: string, clip: Clip)
    returns (r: map<string, Clip>)
    requires Keyed(tracks, characters) && Distinct(characters) && speaker in characters
    ensures Keyed(r, characters)
    ensures forall ch :: ch in characters ==>
      r[ch] == tracks[ch] + (if ch == speaker then clip else Silence(|clip|))
  {
    r := tracks[speaker := tracks[speaker] + clip];
    for c := 0 to |characters|
      invariant Keyed(r, characters)
      invariant r[speaker] == tracks[speaker] + clip
      invariant forall j :: 0 <= j < c && characters[j] != speaker ==>
        r[characters[j]] == tracks[characters[j]] + Silence(|clip|)
      invariant forall j :: c <= j < |characters| && characters[j] != speaker ==>
        r[characters[j]] == tracks[characters[j]]
    {
      var ch := characters[c];
      if ch != speaker {
        r := r[ch := r[ch] + Silence(|clip|)];
      }
    }
  }

  // ---------------------------------------------------------------------------
  // Placing one clip

  /** The loop's state agrees with the timeline of the clips placed so far:
      the full mix, one stem per character, the position (the mix length)
      and the last speaker. */
  ghost predicate Agrees(cuts: seq<Cut>, same: nat, change: nat, characters: seq<string>,
                   finalAudio: Clip, tracks: map<string, Clip>, position: nat, lastSpeaker: Option<string>)
  {
    && finalAudio == Mix(cuts, same, change)
    && Keyed(tracks, characters)
    && (forall ch :: ch in characters ==> tracks[ch] == Stem(cuts, ch, same, change))
    && position == |finalAudio|
    && lastSpeaker == LastSpeaker(cuts)
  }

  /** The state before the first event: an empty mix, an empty track per
      character, position 0 and no last speaker. */
  method Start(characters: seq<string>, same: nat, change: nat)
    returns (finalAudio: Clip, tracks: map<string, Clip>, position: nat, lastSpeaker: Option<string>)
    ensures Agrees([], same, change, characters, finalAudio, tracks, position, lastSpeaker)
  {
    finalAudio := [];
    tracks := map ch | ch in characters :: [];
    position := 0;
    lastSpeaker := None;
  }

  /** One more clip extends the mix by its gap and the clip. */
  lemma MixStep(cuts: seq<Cut>, c: Cut, same: nat, change: nat)
    ensures Mix(cuts + [c], same, change) == Mix(cuts, same, change) + Silence(GapBefore(cuts, c.speaker, same, change)) + c.clip
    ensures LastSpeaker(cuts + [c]) == Some(c.speaker)
  {
    Snoc(cuts, c);
  }

  /** One more clip extends each stem by the gap and by the clip or as much
      silence. */
  lemma StemStep(cuts: seq<Cut>, c: Cut, ch: string, same: nat, change: nat)
    ensures Stem(cuts + [c], ch, same, change) == Stem(cuts, ch, same, change)
      + Silence(GapBefore(cuts, c.speaker, same, change)) + (if c.speaker == ch then c.clip else Silence(|c.clip|))
  {
    Snoc(cuts, c);
  }

  /** The gap: `gap` ms of silence on the mix and on every track. */
  method PlaceGap(characters: seq<string>, finalAudio: Clip, tracks: map<string, Clip>, position: nat, gap: nat)
    returns (finalAudio': Clip, tracks': map<string, Clip>, position': nat)
    requires Keyed(tracks, characters) && Distinct(characters)
    ensures finalAudio' == finalAudio + Silence(gap) && position' == position + gap
    ensures Keyed(tracks', characters)
    ensures forall ch :: ch in characters ==> tracks'[ch] == tracks[ch] + Silence(gap)
  {
    finalAudio', tracks', position' := finalAudio, tracks, position;
    if gap > 0 {
      finalAudio' := finalAudio' + Silence(gap);
      tracks' := AppendSilenceToAll(tracks', characters, gap);
      position' := position' + gap;
    } else {
      assert finalAudio == finalAudio + Silence(gap);
      assert forall ch :: ch in characters ==> tracks[ch] == tracks[ch] + Silence(gap);
    }
  }

  /** The clip: appended to the mix, then the tracks are caught up to the
      position and the clip (or silence) appended to each. */
  method PlaceClip(characters: seq<string>, finalAudio: Clip, tracks: map<string, Clip>, position: nat,
                   speaker: string, clip: Clip)
    returns (finalAudio': Clip, tracks': map<string, Clip>, position': nat)
    requires Keyed(tracks, characters) && Distinct(characters) && speaker in characters
    requires forall ch :: ch in characters ==> |tracks[ch]| == position
    ensures finalAudio' == finalAudio + clip && position' == position + |clip|
    ensures Keyed(tracks', characters)
    ensures forall ch :: ch in characters ==>
      tracks'[ch] == tracks[ch] + (if ch == speaker then clip else Silence(|clip|))
  {
    if |finalAudio| == 0 {
      finalAudio' := clip;
    } else {
      finalAudio' := finalAudio + clip;
    }
    var padded := PadAllTo(tracks, characters, position);
    assert padded == tracks;
    tracks' := AppendClip(padded, characters, speaker, clip);
    position' := position + |clip|;
  }

  /** The tracks after the gap are as long as the mix after it. */
  lemma GapLengths(cuts: seq<Cut>, same: nat, change: nat, characters: seq<string>, gap: nat,
                   mix: Clip, tracks: map<string, Clip>)
    requires mix == Mix(cuts, same, change) + Silence(gap) && Keyed(tracks, characters)
    requires forall ch :: ch in characters ==> tracks[ch] == Stem(cuts, ch, same, change) + Silence(gap)
    ensures forall ch :: ch in characters ==> |tracks[ch]| == |mix|
  {
    forall ch | ch in characters ensures |tracks[ch]| == |mix| {
      StemLength(cuts, ch, same, change);
    }
  }

  /** After the gap and the clip, the state agrees with the timeline one
      clip longer. */
  lemma AgreesStep(cuts: seq<Cut>, same: nat, change: nat, characters: seq<string>, speaker: string, clip: Clip,
                   finalAudio: Clip, tracks: map<string, Clip>, position: nat)
    requires Keyed(tracks, characters) && position == |finalAudio|
    requires finalAudio == Mix(cuts, same, change) + Silence(GapBefore(cuts, speaker, same, change)) + clip
    requires forall ch :: ch in characters ==>
      tracks[ch] == Stem(cuts, ch, same, change) + Silence(GapBefore(cuts, speaker, same, change))
                    + (if ch == speaker then clip else Silence(|clip|))
    ensures Agrees(cuts + [Cut(speaker, clip)], same, change, characters, finalAudio, tracks, position, Some(speaker))
  {
    MixStep(cuts, Cut(speaker, clip), same, change);
    forall ch | ch in characters
      ensures tracks[ch] == Stem(cuts + [Cut(speaker, clip)], ch, same, change)
    {
      StemStep(cuts, Cut(speaker, clip), ch, same, change);
    }
  }

  /** The whole step for one accepted clip. */
  method Place(ghost cuts: seq<Cut>, same: nat, change: nat, characters: seq<string>,
               finalAudio: Clip, tracks: map<string, Clip>, position: nat, lastSpeaker: Option<string>,
               speaker: string, clip: Clip)
    returns (finalAudio': Clip, tracks': map<string, Clip>, position': nat, lastSpeaker': Option<string>)
    requires Distinct(characters) && speaker in characters && clip != []
    requires Agrees(cuts, same, change, characters, finalAudio, tracks, position, lastSpeaker)
    ensures Agrees(cuts + [Cut(speaker, clip)], same, change, characters, finalAudio', tracks', position', lastSpeaker')
  {
    var gap := 0;
    if lastSpeaker.Some? {
      gap := if lastSpeaker.value == speaker then same else change;
    }
    assert gap == GapBefore(cuts, speaker, same, change);
    var a, t, p := PlaceGap(characters, finalAudio, tracks, position, gap);
    GapLengths(cuts, same, change, characters, gap, a, t);
    finalAudio', tracks', position' := PlaceClip(characters, a, t, p, speaker, clip);
    lastSpeaker' := Some(speaker);
    AgreesStep(cuts, same, change, characters, speaker, clip, finalAudio', tracks', position');
  }

  // ---------------------------------------------------------------------------
  // Export

  /** What goes into the archive: the full mix and one stem per character. */
  datatype Rendered = Rendered(full: Clip, stems: map<string, Clip>)

  /** One stem of the export loop: padded with silence or cut to `n`. */
  method FitTrack(track: Clip, n: nat) returns (r: Clip)
    ensures r == Fit(track, n)
  {
    r := track;
    if |r| < n {
      r := r + Silence(n - |r|);
    } else if |r| > n {
      r := r[..n];
    }
  }

  /** The guard and the export loop: no audio stops the run; otherwise each
      track is padded with silence or cut to the full mix's length. */
  method Export(finalAudio: Clip, tracks: map<string, Clip>, characters: seq<string>) returns (r: Option<Rendered>)
    requires Keyed(tracks, characters) && Distinct(characters)
    ensures r.None? <==> |finalAudio| == 0
    ensures r.Some? ==> r.value.full == finalAudio && Keyed(r.value.stems, characters)
    ensures r.Some? ==> forall ch :: ch in characters ==> r.value.stems[ch] == Fit(tracks[ch], |finalAudio|)
  {
    if |finalAudio| == 0 {
      return None;
    }
    var stems := FitAll(tracks, characters, |finalAudio|);
    return Some(Rendered(finalAudio, stems));
  }

  /** The loop over `character_tracks.items()`. */
  method FitAll(tracks: map<string, Clip>, characters: seq<string>, n: nat) returns (stems: map<string, Clip>)
    requires Keyed(tracks, characters) && Distinct(characters)
    ensures Keyed(stems, characters)
    ensures forall ch :: ch in characters ==> stems[ch] == Fit(tracks[ch], n)
  {
    stems := tracks;
    for c := 0 to |characters|
      invariant Keyed(stems, characters)
      invariant forall j :: 0 <= j < c ==> stems[characters[j]] == Fit(tracks[characters[j]], n)
      invariant forall j :: c <= j < |characters| ==> stems[characters[j]] == tracks[characters[j]]
    {
      var ch := characters[c];
      var track := FitTrack(stems[ch], n);
      stems := stems[ch := track];
    }
  }
}
