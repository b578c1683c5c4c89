/** The episode loops of the ElevenLabs/Hume app and of the stem app: each
    parsed event gets a clip (from its character's provider, a recorded take
    or the voice map), events without one are skipped, and every accepted
    clip is placed on the timeline. */
module Episode {

  import opened Wrappers
  import opened Text
  import opened Audio
  import opened Takes
  import opened ScriptParser
  import opened Preflight
  import opened Timeline

  // ---------------------------------------------------------------------------
  // Which events are accepted

  /** The clips accepted from the events, in order: an event is skipped when
      it has no clip or an empty one. */
  function Accepted(items: seq<Event>, sources: seq<Option<Clip>>): (r: seq<Cut>)
    requires |sources| == |items|
    ensures |r| <= |items|
  {
    if items == [] then []
    else
      var n := |items|;
      Accepted(items[..n - 1], sources[..n - 1])
        + (if sources[n - 1].Some? && sources[n - 1].value != [] then [Cut(items[n - 1].speaker, sources[n - 1].value)] else [])
  }

  lemma AcceptedStep(items: seq<Event>, sources: seq<Option<Clip>>, i: nat)
    requires |sources| == |items| && i < |items|
    ensures Accepted(items[..i + 1], sources[..i + 1]) == Accepted(items[..i], sources[..i])
      + (if sources[i].Some? && sources[i].value != [] then [Cut(items[i].speaker, sources[i].value)] else [])
  {
    assert items[..i + 1][..i] == items[..i];
    assert sources[..i + 1][..i] == sources[..i];
  }

  /** Every accepted clip is non-empty and spoken by an event's speaker. */
  lemma {:induction false} AcceptedCuts(items: seq<Event>, sources: seq<Option<Clip>>, k: nat)
    requires |sources| == |items| && k < |Accepted(items, sources)|
    ensures Accepted(items, sources)[k].clip != []
    ensures Speaks(items, Accepted(items, sources)[k].speaker)
  {
    var n := |items|;
    var pre := Accepted(items[..n - 1], sources[..n - 1]);
    if k < |pre| {
      AcceptedCuts(items[..n - 1], sources[..n - 1], k);
      var j :| 0 <= j < n - 1 && items[..n - 1][j].speaker == pre[k].speaker;
      assert items[j].speaker == pre[k].speaker;
    } else {
      assert items[n - 1].speaker == Accepted(items, sources)[k].speaker;
    }
  }

  /** Nothing is placed iff no event had a non-empty clip. */
  lemma {:induction false} AcceptedNone(items: seq<Event>, sources: seq<Option<Clip>>)
    requires |sources| == |items|
    ensures Accepted(items, sources) == [] <==>
      forall k :: 0 <= k < |items| ==> sources[k].None? || sources[k].value == []
  {
    if items != [] {
      var n := |items|;
      AcceptedNone(items[..n - 1], sources[..n - 1]);
      if Accepted(items[..n - 1], sources[..n - 1]) == [] && (sources[n - 1].None? || sources[n - 1].value == []) {
        forall k | 0 <= k < n ensures sources[k].None? || sources[k].value == [] {
          if k < n - 1 {
            assert sources[..n - 1][k] == sources[k];
          }
        }
      }
    }
  }

  /** The mix is empty iff nothing was accepted. */
  lemma MixOfAcceptedEmpty(items: seq<Event>, sources: seq<Option<Clip>>, same: nat, change: nat)
    requires |sources| == |items|
    ensures Mix(Accepted(items, sources), same, change) == [] <==> Accepted(items, sources) == []
  {
    var cuts := Accepted(items, sources);
    if cuts != [] {
      AcceptedCuts(items, sources, |cuts| - 1);
    }
  }

  // ---------------------------------------------------------------------------
  // The ElevenLabs/Hume app: the clip each event gets

  /** How many of `items` `ch` speaks. */
  function CountSpeaker(items: seq<Event>, ch: string): (r: nat)
    ensures r <= |items|
  {
    if items == [] then 0
    else CountSpeaker(items[..|items| - 1], ch) + (if items[|items| - 1].speaker == ch then 1 else 0)
  }

  lemma CountSpeakerStep(items: seq<Event>, ch: string, i: nat)
    requires i < |items|
    ensures CountSpeaker(items[..i + 1], ch) == CountSpeaker(items[..i], ch) + (if items[i].speaker == ch then 1 else 0)
  {
    assert items[..i + 1][..i] == items[..i];
  }

  /** Every recorded-file configuration has takes and a take sequence. */
  predicate FilesUsable(configs: map<string, CharConfig>)
  {
    forall ch :: ch in configs && configs[ch].File? ==> configs[ch].takes != [] && configs[ch].sequence != []
  }

  /** Validation passing for the configured characters gives it. */
  lemma ReadyFilesUsable(characters: seq<string>, configs: map<string, CharConfig>, hasHumeKey: bool)
    requires Ready(characters, configs, hasHumeKey)
    requires forall ch :: ch in configs ==> ch in characters
    ensures FilesUsable(configs)
  {
    forall ch | ch in configs && configs[ch].File?
      ensures configs[ch].takes != [] && configs[ch].sequence != []
    {
      var k :| 0 <= k < |characters| && characters[k] == ch;
      assert Usable(configs[characters[k]], hasHumeKey);
    }
  }

  /** The clip of event `k`: none without a configuration; the take the
      sequence picks for the speaker's k-th recorded line; otherwise what the
      provider returned (`generated[k]`, the result of the ElevenLabs or Hume
      request with its retries). */
  function Source(items: seq<Event>, configs: map<string, CharConfig>, generated: seq<Option<Clip>>, k: nat): Option<Clip>
    requires k < |items| == |generated| && FilesUsable(configs)
  {
    var speaker := items[k].speaker;
    if speaker !in configs then None
    else match configs[speaker]
      case File(takes, sequence) => Some(takes[TakeIndex(sequence, |takes|, CountSpeaker(items[..k], speaker))])
      case _ => generated[k]
  }

  function Sources(items: seq<Event>, configs: map<string, CharConfig>, generated: seq<Option<Clip>>): (r: seq<Option<Clip>>)
    requires |items| == |generated| && FilesUsable(configs)
    ensures |r| == |items|
  {
    seq(|items|, k requires 0 <= k < |items| => Source(items, configs, generated, k))
  }

  /** The n-th recorded line of a character (counting from 0) plays the take
      its sequence names at position n, cycling. */
  lemma RecordedLineTake(items: seq<Event>, configs: map<string, CharConfig>, generated: seq<Option<Clip>>, k: nat)
    requires k < |items| == |generated| && FilesUsable(configs)
    requires items[k].speaker in configs && configs[items[k].speaker].File?
    ensures var cfg := configs[items[k].speaker];
      var n := CountSpeaker(items[..k], items[k].speaker);
      var t := cfg.sequence[n % |cfg.sequence|];
      Sources(items, configs, generated)[k] ==
        Some(cfg.takes[if t < 1 then 0 else if t > |cfg.takes| then |cfg.takes| - 1 else t - 1])
  {
  }

  /** A speaker without a configuration gets no audio; one voiced by
      ElevenLabs or Hume gets that provider's generated clip. */
  lemma GeneratedLineClip(items: seq<Event>, configs: map<string, CharConfig>, generated: seq<Option<Clip>>, k: nat)
    requires k < |items| == |generated| && FilesUsable(configs)
    ensures items[k].speaker !in configs ==> Sources(items, configs, generated)[k].None?
    ensures items[k].speaker in configs && !configs[items[k].speaker].File? ==>
      Sources(items, configs, generated)[k] == generated[k]
  {
  }

  /** The loop state the ElevenLabs/Hume loop keeps besides the timeline:
      `file_line_index` counts each recorded-file character's lines so far. */
  ghost predicate LineIndexes(fileIndex: map<string, nat>, items: seq<Event>, configs: map<string, CharConfig>,
                              characters: seq<string>)
  {
    && (forall ch :: ch in fileIndex <==> ch in characters)
    && (forall ch :: ch in characters && ch in configs && configs[ch].File? ==> fileIndex[ch] == CountSpeaker(items, ch))
  }

  /** `file_line_index` before the first event: 0 for every character. */
  method StartIndexes(items: seq<Event>, configs: map<string, CharConfig>, characters: seq<string>)
    returns (fileIndex: map<string, nat>)
    ensures LineIndexes(fileIndex, items[..0], configs, characters)
  {
    fileIndex := map ch | ch in characters :: 0;
    assert items[..0] == [];
  }

  /** The provider branch for event `i`. */
  method ChooseClip(items: seq<Event>, configs: map<string, CharConfig>, generated: seq<Option<Clip>>,
                    characters: seq<string>, fileIndex: map<string, nat>, i: nat)
    returns (audio: Option<Clip>, fileIndex': map<string, nat>)
    requires i < |items| == |generated| && FilesUsable(configs)
    requires items[i].speaker in characters && items[i].speaker in configs
    requires LineIndexes(fileIndex, items[..i], configs, characters)
    ensures audio == Sources(items, configs, generated)[i]
    ensures LineIndexes(fileIndex', items[..i + 1], configs, characters)
  {
    var speaker := items[i].speaker;
    fileIndex' := fileIndex;
    forall ch | ch in characters
      ensures CountSpeaker(items[..i + 1], ch) == CountSpeaker(items[..i], ch) + (if speaker == ch then 1 else 0)
    {
      CountSpeakerStep(items, ch, i);
    }
    match configs[speaker]
    case Eleven(_) =>
      audio := generated[i];
    case Hume(_, _, _) =>
      audio := generated[i];
    case File(takes, sequence) =>
      var idx := fileIndex[speaker];
      fileIndex' := fileIndex[speaker := idx + 1];
      var takeIdx := TakeIndex(sequence, |takes|, idx);
      audio := Some(takes[takeIdx]);
  }

  /** `file_line_index` counts nothing when an event has no configuration. */
  lemma SkipKeepsIndexes(fileIndex: map<string, nat>, items: seq<Event>, configs: map<string, CharConfig>,
                         characters: seq<string>, i: nat)
    requires i < |items| && items[i].speaker !in configs
    requires LineIndexes(fileIndex, items[..i], configs, characters)
    ensures LineIndexes(fileIndex, items[..i + 1], configs, characters)
  {
    forall ch | ch in characters && ch in configs && configs[ch].File?
      ensures fileIndex[ch] == CountSpeaker(items[..i + 1], ch)
    {
      CountSpeakerStep(items, ch, i);
    }
  }

  /** A speaker of the script is one of the detected characters. */
  lemma SpeakerDetected(items: seq<Event>, i: nat)
    requires i < |items|
    ensures items[i].speaker in Characters(items)
  {
    assert Speaks(items, items[i].speaker);
  }

  /** An event without a usable clip leaves the timeline as it was. */
  lemma SkipEvent(items: seq<Event>, sources: seq<Option<Clip>>, i: nat, same: nat, change: nat,
                  characters: seq<string>, finalAudio: Clip, tracks: map<string, Clip>, position: nat,
                  lastSpeaker: Option<string>)
    requires |sources| == |items| && i < |items|
    requires sources[i].None? || sources[i].value == []
    requires Agrees(Accepted(items[..i], sources[..i]), same, change, characters, finalAudio, tracks, position, lastSpeaker)
    ensures Agrees(Accepted(items[..i + 1], sources[..i + 1]), same, change, characters, finalAudio, tracks, position, lastSpeaker)
  {
    AcceptedStep(items, sources, i);
    assert Accepted(items[..i + 1], sources[..i + 1]) == Accepted(items[..i], sources[..i]);
  }

  /** An event with a non-empty clip is placed on the timeline. */
  method PlaceEvent(ghost items: seq<Event>, ghost sources: seq<Option<Clip>>, i: nat, same: nat, change: nat,
                    characters: seq<string>, finalAudio: Clip, tracks: map<string, Clip>, position: nat,
                    lastSpeaker: Option<string>, speaker: string, clip: Clip)
    returns (finalAudio': Clip, tracks': map<string, Clip>, position': nat, lastSpeaker': Option<string>)
    requires |sources| == |items| && i < |items|
    requires items[i].speaker == speaker && sources[i] == Some(clip) && clip != []
    requires Distinct(characters) && speaker in characters
    requires Agrees(Accepted(items[..i], sources[..i]), same, change, characters, finalAudio, tracks, position, lastSpeaker)
    ensures Agrees(Accepted(items[..i + 1], sources[..i + 1]), same, change, characters, finalAudio', tracks', position', lastSpeaker')
  {
    AcceptedStep(items, sources, i);
    finalAudio', tracks', position', lastSpeaker' :=
      Place(Accepted(items[..i], sources[..i]), same, change, characters,
            finalAudio, tracks, position, lastSpeaker, speaker, clip);
  }

  /** One pass of the ElevenLabs/Hume loop: the configuration is looked up,
      the clip chosen, and the clip placed unless there is none. */
  method EpisodeEvent(items: seq<Event>, configs: map<string, CharConfig>, generated: seq<Option<Clip>>, i: nat,
                      same: nat, change: nat, characters: seq<string>,
                      finalAudio: Clip, tracks: map<string, Clip>, position: nat, lastSpeaker: Option<string>,
                      fileIndex: map<string, nat>)
    returns (finalAudio': Clip, tracks': map<string, Clip>, position': nat, lastSpeaker': Option<string>,
             fileIndex': map<string, nat>)
    requires i < |items| == |generated| && FilesUsable(configs)
    requires characters == Characters(items) && Distinct(characters)
    requires Agrees(Accepted(items[..i], Sources(items, configs, generated)[..i]), same, change, characters,
                    finalAudio, tracks, position, lastSpeaker)
    requires LineIndexes(fileIndex, items[..i], configs, characters)
    ensures Agrees(Accepted(items[..i + 1], Sources(items, configs, generated)[..i + 1]), same, change, characters,
                   finalAudio', tracks', position', lastSpeaker')
    ensures LineIndexes(fileIndex', items[..i + 1], configs, characters)
  {
    ghost var sources := Sources(items, configs, generated);
    finalAudio', tracks', position', lastSpeaker', fileIndex' := finalAudio, tracks, position, lastSpeaker, fileIndex;
    var speaker := items[i].speaker;
    SpeakerDetected(items, i);
    if speaker !in configs {
      SkipKeepsIndexes(fileIndex, items, configs, characters, i);
      SkipEvent(items, sources, i, same, change, characters, finalAudio, tracks, position, lastSpeaker);
      return;
    }
    var audio;
    audio, fileIndex' := ChooseClip(items, configs, generated, characters, fileIndex, i);
    if audio.None? || audio.value == [] {
      SkipEvent(items, sources, i, same, change, characters, finalAudio, tracks, position, lastSpeaker);
      return;
    }
    finalAudio', tracks', position', lastSpeaker' :=
      PlaceEvent(items, sources, i, same, change, characters, finalAudio, tracks, position, lastSpeaker, speaker, audio.value);
  }

  /** The timeline the run builds from its accepted clips. */
  ghost predicate Built(cuts: seq<Cut>, same: nat, change: nat, characters: seq<string>,
                        finalAudio: Clip, tracks: map<string, Clip>)
  {
    && finalAudio == Mix(cuts, same, change)
    && Keyed(tracks, characters)
    && (forall ch :: ch in characters ==> tracks[ch] == Stem(cuts, ch, same, change))
  }

  /** The episode loop of the ElevenLabs/Hume app. */
  method GenerateEpisode(items: seq<Event>, configs: map<string, CharConfig>, generated: seq<Option<Clip>>,
                         same: nat, change: nat)
    returns (finalAudio: Clip, tracks: map<string, Clip>)
    requires |items| == |generated| && FilesUsable(configs)
    ensures Built(Accepted(items, Sources(items, configs, generated)), same, change, Characters(items), finalAudio, tracks)
  {
    var characters := Characters(items);
    SortedDistinct(characters);
    ghost var sources := Sources(items, configs, generated);
    var position, lastSpeaker;
    finalAudio, tracks, position, lastSpeaker := Start(characters, same, change);
    assert items[..0] == [] && sources[..0] == [];
    var fileIndex := StartIndexes(items, configs, characters);
    for i := 0 to |items|
      invariant Agrees(Accepted(items[..i], sources[..i]), same, change, characters, finalAudio, tracks, position, lastSpeaker)
      invariant LineIndexes(fileIndex, items[..i], configs, characters)
    {
      finalAudio, tracks, position, lastSpeaker, fileIndex :=
        EpisodeEvent(items, configs, generated, i, same, change, characters,
                     finalAudio, tracks, position, lastSpeaker, fileIndex);
    }
    assert items[..|items|] == items && sources[..|items|] == sources;
  }

  // ---------------------------------------------------------------------------
  // The stem app: the clip each event gets from the voice map

  /** The clip of event `k`: none when its speaker has no voice id;
      otherwise what the ElevenLabs request returned (`generated[k]`). */
  function Voiced(items: seq<Event>, voiceMap: map<string, string>, generated: seq<Option<Clip>>): (r: seq<Option<Clip>>)
    requires |items| == |generated|
    ensures |r| == |items|
    ensures forall k :: 0 <= k < |items| && r[k].Some? ==> items[k].speaker in voiceMap
    ensures forall k :: 0 <= k < |items| && items[k].speaker in voiceMap ==> r[k] == generated[k]
  {
    seq(|items|, k requires 0 <= k < |items| => if items[k].speaker in voiceMap then generated[k] else None)
  }

  /** The episode loop of the stem app. */
  method GenerateStems(items: seq<Event>, voiceMap: map<string, string>, generated: seq<Option<Clip>>,
                       same: nat, change: nat)
    returns (finalAudio: Clip, tracks: map<string, Clip>)
    requires |items| == |generated|
    ensures Built(Accepted(items, Voiced(items, voiceMap, generated)), same, change, Characters(items), finalAudio, tracks)
  {
    var characters := Characters(items);
    SortedDistinct(characters);
    ghost var sources := Voiced(items, voiceMap, generated);
    var position, lastSpeaker;
    finalAudio, tracks, position, lastSpeaker := Start(characters, same, change);
    assert items[..0] == [] && sources[..0] == [];
    for i := 0 to |items|
      invariant Agrees(Accepted(items[..i], sources[..i]), same, change, characters, finalAudio, tracks, position, lastSpeaker)
    {
      var speaker := items[i].speaker;
      SpeakerDetected(items, i);
      if speaker !in voiceMap {
        SkipEvent(items, sources, i, same, change, characters, finalAudio, tracks, position, lastSpeaker);
        continue;
      }
      var audio := generated[i];
      if audio.None? || audio.value == [] {
        SkipEvent(items, sources, i, same, change, characters, finalAudio, tracks, position, lastSpeaker);
        continue;
      }
      finalAudio, tracks, position, lastSpeaker :=
        PlaceEvent(items, sources, i, same, change, characters, finalAudio, tracks, position, lastSpeaker, speaker, audio.value);
    }
    assert items[..|items|] == items && sources[..|items|] == sources;
  }

  // ---------------------------------------------------------------------------
  // A whole run, up to the archive

  /** The stem app from the parsed script to the archive: no accepted clip
      stops the run; otherwise the full mix is the timeline's mix and every
      exported stem is the character's stem, already as long as the mix. */
  method RenderStems(items: seq<Event>, voiceMap: map<string, string>, generated: seq<Option<Clip>>,
                     same: nat, change: nat)
    returns (r: Option<Rendered>)
    requires |items| == |generated|
    ensures var cuts := Accepted(items, Voiced(items, voiceMap, generated));
      && (r.None? <==> cuts == [])
      && (r.Some? ==> r.value.full == Mix(cuts, same, change))
      && (r.Some? ==> forall ch :: ch in Characters(items) ==>
            ch in r.value.stems && r.value.stems[ch] == Stem(cuts, ch, same, change))
  {
    var finalAudio, tracks := GenerateStems(items, voiceMap, generated, same, change);
    ghost var cuts := Accepted(items, Voiced(items, voiceMap, generated));
    SortedDistinct(Characters(items));
    r := Export(finalAudio, tracks, Characters(items));
    MixOfAcceptedEmpty(items, Voiced(items, voiceMap, generated), same, change);
    forall ch | ch in Characters(items) ensures Fit(tracks[ch], |finalAudio|) == Stem(cuts, ch, same, change) {
      FitStem(cuts, ch, same, change);
    }
  }

  /** The ElevenLabs/Hume app from the parsed script to the archive. */
  method RenderEpisode(items: seq<Event>, configs: map<string, CharConfig>, generated: seq<Option<Clip>>,
                       same: nat, change: nat)
    returns (r: Option<Rendered>)
    requires |items| == |generated| && FilesUsable(configs)
    ensures var cuts := Accepted(items, Sources(items, configs, generated));
      && (r.None? <==> cuts == [])
      && (r.Some? ==> r.value.full == Mix(cuts, same, change))
      && (r.Some? ==> forall ch :: ch in Characters(items) ==>
            ch in r.value.stems && r.value.stems[ch] == Stem(cuts, ch, same, change))
  {
    var finalAudio, tracks := GenerateEpisode(items, configs, generated, same, change);
    ghost var cuts := Accepted(items, Sources(items, configs, generated));
    SortedDistinct(Characters(items));
    r := Export(finalAudio, tracks, Characters(items));
    MixOfAcceptedEmpty(items, Sources(items, configs, generated), same, change);
    forall ch | ch in Characters(items) ensures Fit(tracks[ch], |finalAudio|) == Stem(cuts, ch, same, change) {
      FitStem(cuts, ch, same, change);
    }
  }
}
