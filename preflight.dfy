/** The checks run before an episode is generated: the per-character
    provider configuration of the ElevenLabs/Hume app, and the voice-id maps
    of the stem app and the single-track app. */
module Preflight {

  import opened Wrappers
  import opened Text
  import opened Audio
  import opened Takes

  // ---------------------------------------------------------------------------
  // Provider configuration (`CharConfig` and the validation loop)

  /** How a Hume voice is referenced: by id, or by name with its provider. */
  datatype HumeVoice = VoiceId(id: string) | VoiceName(name: string, provider: string)

  datatype CharConfig =
    | Eleven(voiceId: string)
    | Hume(voice: HumeVoice, baseDesc: string, autoHints: bool)
    | File(takes: seq<Clip>, sequence: seq<int>)   // no upload = no takes

  /** The configuration the setup form stores: ids, names and the base
      description stripped, the take sequence parsed. */
  function ElevenConfig(rawId: string): CharConfig
  {
    Eleven(Strip(rawId))
  }

  function HumeConfig(byName: bool, rawId: string, rawName: string, provider: string, rawDesc: string, autoHints: bool): CharConfig
  {
    if byName then Hume(VoiceName(Strip(rawName), provider), Strip(rawDesc), autoHints)
    else Hume(VoiceId(Strip(rawId)), Strip(rawDesc), autoHints)
  }

  function FileConfig(takes: seq<Clip>, sequenceText: string): CharConfig
  {
    File(takes, TakeSequence(sequenceText))
  }

  /** Why the run stops. */
  datatype Problem =
    | MissingConfig(character: string)
    | MissingElevenVoice(character: string)
    | MissingHumeKey
    | MissingHumeVoiceId(character: string)
    | MissingHumeVoiceName(character: string)
    | MissingTakes(character: string)
    | MissingSequence(character: string)

  /** What the generator needs from a configuration. */
  predicate Usable(cfg: CharConfig, hasHumeKey: bool)
  {
    match cfg
    case Eleven(id) => id != []
    case Hume(voice, _, _) =>
      hasHumeKey && (match voice
        case VoiceId(id) => id != []
        case VoiceName(name, _) => name != [])
    case File(takes, sequence) => takes != [] && sequence != []
  }

  /** The checks for one character, in the order the loop makes them. */
  function CheckCharacter(ch: string, cfg: Option<CharConfig>, hasHumeKey: bool): (r: Option<Problem>)
    ensures r.None? <==> cfg.Some? && Usable(cfg.value, hasHumeKey)
    ensures r == Some(MissingHumeKey) ==> cfg.Some? && cfg.value.Hume?
    ensures r.Some? && r.value != MissingHumeKey ==> r.value.character == ch
  {
    match cfg
    case None => Some(MissingConfig(ch))
    case Some(Eleven(id)) => if id == [] then Some(MissingElevenVoice(ch)) else None
    case Some(Hume(voice, _, _)) =>
      if !hasHumeKey then Some(MissingHumeKey)
      else (match voice
        case VoiceId(id) => if id == [] then Some(MissingHumeVoiceId(ch)) else None
        case VoiceName(name, _) => if name == [] then Some(MissingHumeVoiceName(ch)) else None)
    case Some(File(takes, sequence)) =>
      if takes == [] then Some(MissingTakes(ch))
      else if sequence == [] then Some(MissingSequence(ch))
      else None
  }

  function Lookup(configs: map<string, CharConfig>, ch: string): Option<CharConfig>
  {
    if ch in configs then Some(configs[ch]) else None
  }

  /** Every character has a configuration the generator can use. */
  predicate Ready(characters: seq<string>, configs: map<string, CharConfig>, hasHumeKey: bool)
  {
    forall k :: 0 <= k < |characters| ==>
      characters[k] in configs && Usable(configs[characters[k]], hasHumeKey)
  }

  /** The validation loop: it stops at the first character whose
      configuration fails a check. */
  method Validate(characters: seq<string>, configs: map<string, CharConfig>, hasHumeKey: bool) returns (r: Outcome<Problem>)
    ensures r.Pass? <==> Ready(characters, configs, hasHumeKey)
    ensures r.Fail? ==>
      exists k :: 0 <= k < |characters| &&
        CheckCharacter(characters[k], Lookup(configs, characters[k]), hasHumeKey) == Some(r.error) &&
        forall j :: 0 <= j < k ==> characters[j] in configs && Usable(configs[characters[j]], hasHumeKey)
  {
    for i := 0 to |characters|
      invariant forall j :: 0 <= j < i ==> characters[j] in configs && Usable(configs[characters[j]], hasHumeKey)
    {
      var problem := CheckCharacter(characters[i], Lookup(configs, characters[i]), hasHumeKey);
      if problem.Some? {
        return Fail(problem.value);
      }
    }
    return Pass;
  }

  /** Once validation passes, every recorded-file character has takes and a
      take sequence, which is what take selection needs. */
  lemma ReadyFiles(characters: seq<string>, configs: map<string, CharConfig>, hasHumeKey: bool, k: nat)
    requires Ready(characters, configs, hasHumeKey) && k < |characters|
    ensures configs[characters[k]].File? ==>
      |configs[characters[k]].takes| > 0 && |configs[characters[k]].sequence| > 0
    ensures configs[characters[k]].Hume? ==> hasHumeKey
  {
  }

  /** A form entry passes the checks iff what is left of it after stripping
      is not empty; a recorded file passes iff it has takes and its sequence
      text gives at least one number. */
  lemma ConfigUsable(rawId: string, byName: bool, rawName: string, provider: string, rawDesc: string, autoHints: bool,
                     takes: seq<Clip>, sequenceText: string, hasHumeKey: bool)
    ensures Usable(ElevenConfig(rawId), hasHumeKey) <==> !AllSpace(rawId)
    ensures Usable(HumeConfig(byName, rawId, rawName, provider, rawDesc, autoHints), hasHumeKey) <==>
      hasHumeKey && (if byName then !AllSpace(rawName) else !AllSpace(rawId))
    ensures Usable(FileConfig(takes, sequenceText), hasHumeKey) <==>
      takes != [] && TakeSequence(sequenceText) != []
  {
  }

  // ---------------------------------------------------------------------------
  // Voice-id maps (`voice_map`) of the stem app and the single-track app

  /** How an entered voice id is tested and stored. */
  datatype IdPolicy =
    | TestRawStoreStripped   // stem app: `if voice_id:` then store `voice_id.strip()`
    | TestRawStoreRaw        // single-track app: store the entry as typed
    | TestStripped           // the entry is stripped before it is tested

  predicate Accepts(p: IdPolicy, input: string)
  {
    if p == TestStripped then Strip(input) != [] else input != []
  }

  function Stored(p: IdPolicy, input: string): string
  {
    if p == TestRawStoreRaw then input else Strip(input)
  }

  /** The map filled by the setup loop over the characters, `inputs[k]`
      being what was entered for `characters[k]`. */
  function VoiceMap(p: IdPolicy, characters: seq<string>, inputs: seq<string>): map<string, string>
    requires |inputs| == |characters|
  {
    if characters == [] then map[]
    else
      var n := |characters|;
      var m := VoiceMap(p, characters[..n - 1], inputs[..n - 1]);
      if Accepts(p, inputs[n - 1]) then m[characters[n - 1] := Stored(p, inputs[n - 1])] else m
  }

  method BuildVoiceMap(p: IdPolicy, characters: seq<string>, inputs: seq<string>) returns (voiceMap: map<string, string>)
    requires |inputs| == |characters|
    ensures voiceMap == VoiceMap(p, characters, inputs)
  {
    voiceMap := map[];
    for i := 0 to |characters|
      invariant voiceMap == VoiceMap(p, characters[..i], inputs[..i])
    {
      assert characters[..i + 1][..i] == characters[..i];
      assert inputs[..i + 1][..i] == inputs[..i];
      if Accepts(p, inputs[i]) {
        voiceMap := voiceMap[characters[i] := Stored(p, inputs[i])];
      }
    }
    assert characters[..|characters|] == characters;
    assert inputs[..|inputs|] == inputs;
  }

  /** The number of accepted entries. */
  function CountAccepted(p: IdPolicy, inputs: seq<string>): (n: nat)
    ensures n <= |inputs|
  {
    if inputs == [] then 0
    else CountAccepted(p, inputs[..|inputs| - 1]) + (if Accepts(p, inputs[|inputs| - 1]) then 1 else 0)
  }

  /** All entries are accepted iff the count is the number of entries. */
  lemma {:induction false} CountAcceptedAll(p: IdPolicy, inputs: seq<string>)
    ensures CountAccepted(p, inputs) == |inputs| <==> forall k :: 0 <= k < |inputs| ==> Accepts(p, inputs[k])
  {
    if inputs != [] {
      var n := |inputs|;
      CountAcceptedAll(p, inputs[..n - 1]);
      assert forall k :: 0 <= k < n - 1 ==> inputs[..n - 1][k] == inputs[k];
    }
  }

  /** Only characters are keys of the map. */
  lemma {:induction false} VoiceMapKeys(p: IdPolicy, characters: seq<string>, inputs: seq<string>)
    requires |inputs| == |characters|
    ensures forall x :: x in VoiceMap(p, characters, inputs) ==> x in characters
  {
    if characters != [] {
      var n := |characters|;
      VoiceMapKeys(p, characters[..n - 1], inputs[..n - 1]);
      assert forall x :: x in characters[..n - 1] ==> x in characters;
    }
  }

  /** A distinct character is in the map iff its entry was accepted, and
      then it maps to the stored form of its entry. */
  lemma {:induction false} VoiceMapEntries(p: IdPolicy, characters: seq<string>, inputs: seq<string>, k: nat)
    requires |inputs| == |characters| && StrictlySorted(characters) && k < |characters|
    ensures characters[k] in VoiceMap(p, characters, inputs) <==> Accepts(p, inputs[k])
    ensures characters[k] in VoiceMap(p, characters, inputs) ==>
      VoiceMap(p, characters, inputs)[characters[k]] == Stored(p, inputs[k])
  {
    var n := |characters|;
    if k < n - 1 {
      var pre := characters[..n - 1];
      assert StrictlySorted(pre);
      VoiceMapEntries(p, pre, inputs[..n - 1], k);
      assert Less(characters[k], characters[n - 1]);
      LessIrreflexive(characters[k]);
    } else {
      assert characters[n - 1] !in VoiceMap(p, characters[..n - 1], inputs[..n - 1]) by {
        LastNotBefore(characters);
        VoiceMapKeys(p, characters[..n - 1], inputs[..n - 1]);
      }
    }
  }

  lemma LastNotBefore(s: seq<string>)
    requires StrictlySorted(s) && s != []
    ensures s[|s| - 1] !in s[..|s| - 1]
  {
    if s[|s| - 1] in s[..|s| - 1] {
      var j :| 0 <= j < |s| - 1 && s[..|s| - 1][j] == s[|s| - 1];
      assert Less(s[j], s[|s| - 1]);
      LessIrreflexive(s[j]);
    }
  }

  /** With distinct characters the map has one entry per accepted id. */
  lemma {:induction false} VoiceMapSize(p: IdPolicy, characters: seq<string>, inputs: seq<string>)
    requires |inputs| == |characters| && StrictlySorted(characters)
    ensures |VoiceMap(p, characters, inputs)| == CountAccepted(p, inputs)
  {
    if characters != [] {
      var n := |characters|;
      var pre := characters[..n - 1];
      var m := VoiceMap(p, pre, inputs[..n - 1]);
      assert |m| == CountAccepted(p, inputs[..n - 1]) by {
        assert StrictlySorted(pre);
        VoiceMapSize(p, pre, inputs[..n - 1]);
      }
      assert characters[n - 1] !in m by {
        LastNotBefore(characters);
        VoiceMapKeys(p, pre, inputs[..n - 1]);
      }
    }
  }

  /** The guard `len(voice_map) != len(characters)` lets the run go on iff
      every character's entry was accepted. */
  lemma VoiceMapGate(p: IdPolicy, characters: seq<string>, inputs: seq<string>)
    requires |inputs| == |characters| && StrictlySorted(characters)
    ensures |VoiceMap(p, characters, inputs)| == |characters| <==>
      forall k :: 0 <= k < |characters| ==> Accepts(p, inputs[k])
  {
    VoiceMapSize(p, characters, inputs);
    CountAcceptedAll(p, inputs);
  }

  /** Stem app as written: an id of blanks passes the guard and is stored
      as the empty id. */
  lemma BlankIdPasses()
    ensures var m := VoiceMap(TestRawStoreStripped, ["ann"], [" "]);
      |m| == 1 && "ann" in m && m["ann"] == []
  {
    assert AllSpace(" ");
    var m := VoiceMap(TestRawStoreStripped, ["ann"], [" "]);
    assert ["ann"][..0] == [];
    assert m == map["ann" := []];
  }

  /** Testing the stripped entry instead: once the guard passes, every
      character has a non-empty, trimmed voice id. */
  lemma StrippedIdsUsable(characters: seq<string>, inputs: seq<string>)
    requires |inputs| == |characters| && StrictlySorted(characters)
    requires |VoiceMap(TestStripped, characters, inputs)| == |characters|
    ensures forall k :: 0 <= k < |characters| ==>
      characters[k] in VoiceMap(TestStripped, characters, inputs) &&
      VoiceMap(TestStripped, characters, inputs)[characters[k]] != [] &&
      IsTrimmed(VoiceMap(TestStripped, characters, inputs)[characters[k]])
  {
    VoiceMapGate(TestStripped, characters, inputs);
    forall k | 0 <= k < |characters|
      ensures characters[k] in VoiceMap(TestStripped, characters, inputs) &&
        VoiceMap(TestStripped, characters, inputs)[characters[k]] != [] &&
        IsTrimmed(VoiceMap(TestStripped, characters, inputs)[characters[k]])
    {
      VoiceMapEntries(TestStripped, characters, inputs, k);
    }
  }
}
