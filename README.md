# Vobble Audio Studio: script-to-episode core

Vobble Audio Studio turns a dialogue script into an audio episode. It comes as three apps:

- **ElevenLabs/Hume app** (`app_file_eleven_hume.py`): each character's voice comes from ElevenLabs, from Hume, or from recorded takes. It exports a full mix and one stem per character.
- **Stem app** (`appstem.py`): every character has an ElevenLabs voice id. It exports a full mix and one stem per character.
- **Single-track app** (`app2.py`): voices a `name: text` script line by line onto one track.

This project models the logic those apps share, and what each one does on its own:

- **Script parsing** (`ScriptParser`, `parse_script_blocks`). It accepts `name: text` lines and blocks: a `name:` line, then dialogue lines. Blank lines, `sfx:`/`music:` cues and `[direction]` lines are handled as the loop does. Character detection gives the sorted distinct speakers.
- **The cadence stabiliser** (`Cadence`: `strip_unknown_brackets`, `ensure_line_tail`). Bracketed tags other than the three pause tags are removed. Every line ends in punctuation and a `[short pause]` unless it already ends in a pause tag.
- **Stem file names** (`Naming`, `safe_filename`).
- **The Hume acting description** (`Hume`: `infer_quick_emotion_hint`, `build_hume_description`).
- **Recorded takes** (`Takes`): `parse_take_sequence` and the looping, clamped choice of a take for each line.
- **Provider requests** (`Retry`). The three retry loops around `requests.post` are modelled, with their three different break conditions. The status check and the tail padding of the returned clip are modelled too.
- **Pre-flight checks** (`Preflight`). This covers the ElevenLabs/Hume app's validation of each character's configuration, and the voice-id maps of the other two apps together with their "all characters assigned" check.
- **The timeline** (`Timeline`, `Episode`). This is the stem apps' mixer: gaps, the full mix, per-character stems, and the pad-or-truncate export. It covers both episode loops, including skipped events and recorded-take counters.
- **The single-track app** (`SingleTrack`): `detect_characters`, the line loop, and the clip-then-gap track.

Audio is modelled as a `Clip = seq<int>` with one sample per millisecond (`Audio`). Silence is a run of zeros. With `CROSSFADE_MS = 0`, `append` is concatenation.

Helpers defined identically in two or three apps are modelled once. The table cites one of them:

- `normalize_name`, `is_sfx_or_music_line`, `parse_script_blocks`, `strip_unknown_brackets` and `ensure_line_tail` are the same in all three apps, or in the two stem apps.
- `safe_filename` is the same in `appstem.py`:71-72 and `app_file_eleven_hume.py`:86-87.
- The mixer loop and the export are the same in both stem apps:
  - `app_file_eleven_hume.py`:523-571;
  - `appstem.py`:278-326.

The gap lengths are parameters of the timeline functions. The apps' constants are declared as follows:

| app | constants | source lines |
|---|---|---|
| ElevenLabs/Hume app | 100/100 ms | `app_file_eleven_hume.py`:61-62 |
| stem app | 200/200 ms | `appstem.py`:46-47 |
| single-track app | 400/800 ms | `app2.py`:45-46 |

The lemmas `Timeline.AppMixLengths` and `SingleTrack.AppTrackLength` state what those constants give.

## Model

| member | source | states |
|---|---|---|
| Text.StripIsSlice | app_file_eleven_hume.py:123 | `strip` returns a slice of its input, with only whitespace before and after the slice |
| Text.StripIdempotent | app_file_eleven_hume.py:114-116 | stripping an already stripped string changes nothing |
| Text.LowerIsLower | app_file_eleven_hume.py:84 | `lower` gives a string with no upper-case letter, and leaves such a string unchanged |
| Text.IndexOfFirst | app_file_eleven_hume.py:119 | the index found is the first `:`, and there is none exactly when the line has no `:` |
| Text.SplitOn | app2.py:92 | `split("\n")` gives at least one part; no part holds the separator; the parts joined with it give the text back |
| Text.SplitJoin | app2.py:92 | splitting parts that hold no separator, after joining them, gives back exactly those parts |
| Text.Insert | app_file_eleven_hume.py:155 | inserting into a strictly sorted list keeps it strictly sorted, with exactly the old elements plus the new one |
| Text.SortedUnique | app_file_eleven_hume.py:155 | two strictly sorted lists with the same elements are equal, so `sorted(set(...))` is determined by the set |
| Text.SortedCardinality | app_file_eleven_hume.py:155 | a strictly sorted list has as many entries as distinct elements |
| ScriptParser.NormalizeName | app_file_eleven_hume.py:83-84 | the name is trimmed and lower-case, no longer than the input, and empty exactly when the input is all whitespace |
| ScriptParser.NormalizeNameIdempotent | app_file_eleven_hume.py:83-84 | normalising a normalised name changes nothing |
| ScriptParser.IsSfxOrMusicLine | app_file_eleven_hume.py:89-91 | a line is a production cue when, stripped and lower-cased, it starts with `sfx:` or `music:`; `ScriptParser.SfxLineDropped` states what the parser does with it |
| ScriptParser.SfxLineDropped | app_file_eleven_hume.py:89-91 | such a line, in any letter case and with any surrounding whitespace, is classified as a cue, and removing it from the script leaves the parse unchanged |
| ScriptParser.SpeakerMatch | app_file_eleven_hume.py:119 | a match needs a `:` in the line; `SpeakerMatchName`, `SpeakerMatchWritten` and `SpeakerMatchLongName` state which lines match and what they give |
| ScriptParser.SpeakerMatchName | app_file_eleven_hume.py:119 | a matched speaker line opens a name that is trimmed, lower-case, at most 60 characters long and free of `:` |
| ScriptParser.SpeakerMatchWritten | app_file_eleven_hume.py:119 | `name:text`, with 1 to 60 characters in the stripped name and no `:` in it, matches and gives the normalised name and the stripped text |
| ScriptParser.SpeakerMatchLongName | app_file_eleven_hume.py:119 | with more than 60 characters before the first `:` once stripped, the line does not match |
| ScriptParser.Classify | app_file_eleven_hume.py:122-146 | the kind the loop gives a line, tested in the loop's order. `ClassifyAfterTrimmed` and `ClassifyTextTrimmed` state that the text passed on is trimmed, and non-empty for a text line; `SfxLineDropped` and `CueInvisible` state that cues are dropped |
| ScriptParser.ClassifyAfterTrimmed | app_file_eleven_hume.py:139 | the same-line dialogue of a speaker line is trimmed |
| ScriptParser.ClassifyTextTrimmed | app_file_eleven_hume.py:148-149 | a text line passes on its stripped text, which is non-empty |
| ScriptParser.Flush | app_file_eleven_hume.py:111-117 | flushing empties the block, keeps the speaker, and appends at most one event after the events so far (`FlushBlock` states which one) |
| ScriptParser.Step | app_file_eleven_hume.py:122-149 | one line never removes or changes an event; a cue changes nothing; a text line adds no event and keeps the speaker; a speaker line opens its speaker |
| ScriptParser.Parse | app_file_eleven_hume.py:93-152 | the events of a script's lines; described by `EventsWellFormed`, `RunKeepsItems`, `CueInvisible`, `DroppedBeforeSpeaker`, `BlockForm`, `BlankKeepsSpeaker`, `SingleLineForm` and `ClosedPrefix` |
| ScriptParser.ReadLine | app_file_eleven_hume.py:122-149 | one iteration of the loop moves the parser state exactly as the line's kind says (blank, cue, speaker line, text line) |
| ScriptParser.ParseScriptBlocks | app_file_eleven_hume.py:93-152 | the loop computes the parse of the script's lines, and every event has a non-empty well-formed speaker and non-empty trimmed dialogue |
| ScriptParser.EventsWellFormed | app_file_eleven_hume.py:111-116 | every event the parser emits is well formed (speaker trimmed, lower-case, free of `:`, at most 60 characters; dialogue non-empty and trimmed) |
| ScriptParser.RunKeepsItems | app_file_eleven_hume.py:116 | reading more lines only appends events; earlier events are never changed |
| ScriptParser.CueInvisible | app_file_eleven_hume.py:129-134 | inserting an `sfx:`/`music:` cue or a `[direction]` line anywhere leaves the parse unchanged |
| ScriptParser.DroppedBeforeSpeaker | app_file_eleven_hume.py:148-149 | lines before the first speaker line contribute nothing to the parse |
| ScriptParser.EmptyNameDropped | app_file_eleven_hume.py:113 | a speaker line whose name is blank (such as ` : hi`) and the lines after it up to the next speaker line yield no event |
| ScriptParser.ClosedPrefix | app_file_eleven_hume.py:125-141 | after a blank line or a speaker line, the events parsed so far are a prefix of the final parse |
| ScriptParser.JoinTrimmed | app_file_eleven_hume.py:114-116 | joining non-empty trimmed lines with one space gives a non-empty trimmed dialogue, so the final `strip` never drops a block |
| ScriptParser.FlushBlock | app_file_eleven_hume.py:111-117 | flushing a block of trimmed lines under a named speaker appends one event: the lines joined by single spaces |
| ScriptParser.BlockForm | app_file_eleven_hume.py:136-149 | a speaker line followed by text lines adds one event: the same-line text and the text lines, joined by spaces (none if there is no text) |
| ScriptParser.BlankKeepsSpeaker | app_file_eleven_hume.py:125-127 | a blank line closes the block but not the speaker: text lines after it form a new event of the same speaker |
| ScriptParser.SingleLineForm | app_file_eleven_hume.py:136-146 | a script of `name: text` lines parses to exactly one event per line, in order |
| ScriptParser.Characters | app_file_eleven_hume.py:154-155 | the detected characters are strictly sorted and are exactly the speakers of the events |
| ScriptParser.CharactersExact | app_file_eleven_hume.py:154-155 | it is the only such list, and it has one entry per distinct speaker |
| Cadence.KeptIsPauseTag | app_file_eleven_hume.py:161-163 | a bracketed match is kept exactly when its lower-cased text is `[pause]`, `[short pause]` or `[long pause]` |
| Cadence.MatchIsTag | app_file_eleven_hume.py:164 | a match of `\[[^\]]+\]` is a `[`, at least one character other than `]`, and a `]` |
| Cadence.MatchLength | app_file_eleven_hume.py:164 | a match found at the start of the text is at least 3 characters long and fits in the text; `MatchIsTag` and `MatchOfTag` state that it is exactly the bracketed tag there |
| Cadence.MatchOfTag | app_file_eleven_hume.py:164 | a text starting with a tag matches exactly that tag |
| Cadence.Rewrite | app_file_eleven_hume.py:164 | the substitution never lengthens the text; `RewriteTag` and `NoMatch` give its step at every position |
| Cadence.RewriteTag | app_file_eleven_hume.py:161-164 | a tag at the front is kept whole when it is a pause tag and removed whole otherwise, and the rest is rewritten after it |
| Cadence.NoMatch | app_file_eleven_hume.py:164 | where no match starts (any character but `[`, or a `[` with no later `]` or with `]` right after it), the character is copied |
| Cadence.StripUnknownBrackets | app_file_eleven_hume.py:160-164 | the result is trimmed and no longer than the input |
| Cadence.RewriteNoBracket | app_file_eleven_hume.py:164 | text without `[` is left unchanged by the substitution |
| Cadence.KeepsPauseTag | app_file_eleven_hume.py:161-164 | a pause tag, in any case, survives the substitution, together with the text before it |
| Cadence.DropsOtherTag | app_file_eleven_hume.py:161-164 | any other bracketed tag is removed, and the text around it is kept |
| Cadence.AddTail | app_file_eleven_hume.py:170-173 | non-empty text ends up ending in a pause tag; `.` is added only when the text does not end in `.`, `!`, `?` or `,`; the text is unchanged exactly when it is empty or already ends in a pause tag |
| Cadence.EnsureLineTail | app_file_eleven_hume.py:166-174 | the result is empty exactly when the cleaned line is empty; otherwise it starts with the cleaned line and ends in a pause tag |
| Cadence.EnsureLineTailStable | app_file_eleven_hume.py:166-174 | on text without `[`, applying `ensure_line_tail` twice gives the same as once |
| Cadence.StrayBracketNotStable | app_file_eleven_hume.py:164-173 | with a stray `[` it is not idempotent: `x[` becomes `x[. [short pause]`, and a second pass gives `x. [short pause]` |
| Cadence.UnknownTagDropped | app_file_eleven_hume.py:161-174 | a line opening with an unknown tag is voiced as the rest of the line with its tail |
| Cadence.PlainLineExample | app_file_eleven_hume.py:171-173 | `Hello` becomes `Hello. [short pause]` |
| Cadence.PausedLineExample | app_file_eleven_hume.py:170 | `Wait [pause]` is left as it is |
| Cadence.UnknownTagExample | app_file_eleven_hume.py:161-173 | `[explosion] Hi!` becomes `Hi! [short pause]` |
| Naming.SafeFilename | appstem.py:71-72 | the file name holds only `a-z`, `0-9`, `_` and `-`, and neither begins nor ends with `_` |
| Naming.SubRuns | appstem.py:72 | the `re.sub` step gives only `a-z`, `0-9`, `_` and `-`; `SubRunsAllowed` and `SubRunsMark` state what it leaves alone and what it replaces |
| Naming.SubRunsAllowed | appstem.py:72 | text made only of allowed characters is left unchanged |
| Naming.SubRunsMark | appstem.py:72 | a trailing disallowed character after allowed text becomes one `_` |
| Naming.SafeFixedPoint | appstem.py:71-72 | a name is left unchanged exactly when it is already safe in that sense |
| Naming.SafeFilenameIdempotent | appstem.py:71-72 | applying `safe_filename` twice gives the same as once |
| Naming.TrailingMarkDropped | appstem.py:331 | a safe name followed by one punctuation mark maps to the same file name as the bare name |
| Naming.StemNamesCollide | appstem.py:331 | the characters `ann!`, `ann?` and `ann` all get the stem file `ann_stem.wav` |
| Hume.EmotionHint | app_file_eleven_hume.py:217-225 | each of the four hints is returned exactly under its condition on the stripped line: two or more `!`; exactly one `!`; no `!` and a final `?`; otherwise none |
| Hume.CountStrip | app_file_eleven_hume.py:218-219 | stripping keeps every `!` |
| Hume.HintOfRawText | app_file_eleven_hume.py:217-225 | the hint in terms of the raw line: the `!` count over the whole line decides, then a final `?` after trailing whitespace |
| Hume.Description | app_file_eleven_hume.py:227-236 | the description is never empty. Without a hint, it is the stripped base or the default. With a hint, it is the stripped base (or `Expressive delivery.` when that is blank) followed by exactly ` Emotion hint: <hint>.` |
| Takes.ParseShow | app_file_eleven_hume.py:312 | `int` reads back every integer written in decimal |
| Takes.ParseInt | app_file_eleven_hume.py:311-314 | a value is read only from text opening with a digit or a sign; `ParseShow` states that every integer written in decimal reads back |
| Takes.PartValues | app_file_eleven_hume.py:307-314 | at most one number per comma-separated part; `PartValuesShown` states that written numbers are read back in order |
| Takes.TakeSequence | app_file_eleven_hume.py:302-315 | blank text gives no numbers, and there is at most one number per comma-separated part of the stripped text |
| Takes.ParseTakeSequence | app_file_eleven_hume.py:302-315 | the loop computes the take sequence: empty for blank text, at most one number per comma-separated part |
| Takes.PartValuesShown | app_file_eleven_hume.py:307-314 | numbers written out are all read back, in order |
| Takes.TakeSequenceRoundTrip | app_file_eleven_hume.py:302-315 | a non-empty list of integers written with commas parses back to itself |
| Takes.TakeIndex | app_file_eleven_hume.py:514-517 | the chosen take index is always a valid index into the takes |
| Takes.TakeIndexInRange | app_file_eleven_hume.py:514-515 | a take number between 1 and the number of takes chooses that take, counting from 1 |
| Takes.TakeIndexClamped | app_file_eleven_hume.py:515-517 | a number below 1 chooses the first take; a number above the count chooses the last one |
| Takes.TakeIndexCycles | app_file_eleven_hume.py:514 | the sequence loops: line `n` and line `n + len(sequence)` use the same take |
| Takes.TakeIndexExample | app_file_eleven_hume.py:514-518 | sequence `1,3,2` with two takes gives takes 1, 2, 2, 1 for the first four lines |
| Retry.FirstStopFirst | app_file_eleven_hume.py:194-202 | the loop breaks at the first attempt meeting its condition; none breaks exactly when no attempt meets it |
| Retry.FirstStop | app_file_eleven_hume.py:194-202 | the attempt where the retry loop breaks is one of the attempts and meets the loop's condition; `FirstStopFirst` states that it is the first such attempt, and that there is none exactly when no attempt meets it |
| Retry.Fetch | app_file_eleven_hume.py:193-211 | audio comes only from an attempt where the loop stopped with status 200, and it is at least as long as the tail pad |
| Retry.Request | app_file_eleven_hume.py:193-211 | the retry loop, status check and padding compute exactly the request function |
| Retry.StatusCheckUnreachable | app_file_eleven_hume.py:204-206 | for the ElevenLabs and Hume loops, the status check after the loop always passes |
| Retry.FetchUntilAudio | app_file_eleven_hume.py:193-211 | an ElevenLabs request gives audio exactly when some attempt got status 200 with a body. The audio is that body decoded, plus the tail pad |
| Retry.FetchUntilOk | app_file_eleven_hume.py:260-282 | a Hume request gives audio exactly when some attempt got status 200 |
| Retry.FetchUntilReply | app2.py:146-169 | a single-track request gives audio exactly when the first attempt that did not raise got status 200 |
| Retry.PoliciesDiffer | app2.py:146-157 | a 500 reply followed by a 200 reply is retried to success by the ElevenLabs loop, but fails the single-track loop |
| Retry.GenerateAudioEleven | app_file_eleven_hume.py:180-211 | the method returns the ElevenLabs clip of the line |
| Retry.ElevenClip | app_file_eleven_hume.py:180-211 | a clip exists only for a line that is non-empty after cadence cleanup, and it holds at least the 60 ms tail pad |
| Retry.ElevenClipSpec | app_file_eleven_hume.py:180-211 | there is a clip exactly when the cadenced line is non-empty and some attempt returned audio. The clip lasts the decoded audio plus 60 ms |
| Retry.GenerateAudioHume | app_file_eleven_hume.py:238-282 | the method returns the Hume clip |
| Retry.HumeClip | app_file_eleven_hume.py:243-282 | a clip exists only when the API key is set, and it holds at least the 60 ms tail pad |
| Retry.HumeClipSpec | app_file_eleven_hume.py:243-282 | there is a clip exactly when the API key is set and some attempt got status 200 |
| Retry.GenerateAudioSingleTrack | app2.py:127-169 | the method returns the single-track clip of the line |
| Retry.SingleTrackClip | app2.py:127-169 | a clip exists only for a line that is non-empty after cadence cleanup, and it holds at least the single-track tail pad |
| Retry.SingleTrackClipSpec | app2.py:127-169 | there is a clip exactly when the cadenced line is non-empty and the first reply that did not raise has status 200 |
| Preflight.CheckCharacter | app_file_eleven_hume.py:441-469 | no problem is reported exactly when the character has a usable configuration; each problem names the character, except the missing Hume key |
| Preflight.Usable | app_file_eleven_hume.py:447-469 | the per-provider conditions the validation loop demands of one configuration; `CheckCharacter` and `ConfigUsable` state that no problem is reported exactly when they hold |
| Preflight.Ready | app_file_eleven_hume.py:440-469 | every character has a usable configuration; `Validate` states that validation passes exactly then, and `ReadyFiles` what it guarantees to generation |
| Preflight.Validate | app_file_eleven_hume.py:440-469 | validation passes exactly when every character is ready. A failure is the first character's problem, and every character before it is usable |
| Preflight.ReadyFiles | app_file_eleven_hume.py:463-469 | after validation, every recorded-file character has takes and a non-empty sequence, and every Hume character has the API key |
| Preflight.ConfigUsable | app_file_eleven_hume.py:365-436 | what the setup form stores is usable exactly when the entered id or name is not blank (and the Hume key exists), or when there are takes and a non-empty parsed sequence |
| Preflight.BuildVoiceMap | appstem.py:235-248 | the setup loop computes the voice map of the entered ids |
| Preflight.VoiceMap | appstem.py:246-247 | the voice map of the entered ids; `VoiceMapKeys`, `VoiceMapEntries` and `VoiceMapSize` state its keys, its entries and its size |
| Preflight.VoiceMapKeys | appstem.py:246-247 | only detected characters get an entry |
| Preflight.VoiceMapEntries | appstem.py:246-247 | a character gets an entry exactly when its entry passes the app's test. The stored id is the entry, stripped (stem app) or as typed (single-track app) |
| Preflight.CountAcceptedAll | appstem.py:252 | every entry passes exactly when the count of passing entries is the number of characters |
| Preflight.VoiceMapSize | appstem.py:252 | the map has one entry per passing input |
| Preflight.VoiceMapGate | appstem.py:252-254 | the "all characters assigned" check passes exactly when every character's entry passes the test |
| Preflight.BlankIdPasses | appstem.py:246-247 | in the stem app, an id of one space passes, and the stored id is empty |
| Preflight.StrippedIdsUsable | appstem.py:246-254 | when ids are stripped before the test, passing the check means every stored id is non-empty and trimmed |
| Timeline.StemLength | app_file_eleven_hume.py:528-552 | every stem is exactly as long as the full mix |
| Timeline.GapBefore | app_file_eleven_hume.py:523-526 | the gap before a clip: none for the first clip, `same` after the same speaker, `change` otherwise; `UniformLength`, `AppMixLengths` and `GapsSilent` state its effect on the mix |
| Timeline.Mix | app_file_eleven_hume.py:523-538 | the full mix of the placed clips; described by `MixPrefix`, `ClipInMix`, `GapsSilent`, `UniformLength`, `AppMixLengths` and `MixStep` |
| Timeline.MixStep | app_file_eleven_hume.py:528-538 | placing one more clip appends its gap of silence and then the clip |
| Timeline.Stem | app_file_eleven_hume.py:528-553 | one character's stem of the placed clips; described by `StemLength`, `StemContent` and `StemStep` |
| Timeline.StemStep | app_file_eleven_hume.py:528-550 | placing one more clip appends the gap to every stem, then the clip to its speaker's stem and silence of its length to the others |
| Timeline.StemContent | app_file_eleven_hume.py:543-550 | at each millisecond, a character's stem carries the mix's sample when that character is speaking, and silence otherwise |
| Timeline.GapsSilent | app_file_eleven_hume.py:528-532 | the mix is silent in every gap |
| Timeline.MixPrefix | app_file_eleven_hume.py:534-538 | placing more clips keeps the mix built so far as a prefix |
| Timeline.ClipInMix | app_file_eleven_hume.py:534-538 | every accepted clip appears intact in the mix, ending where the mix of the clips up to it ends |
| Timeline.UniformLength | app_file_eleven_hume.py:523-532 | with one gap length `g`, the mix lasts the clips plus `g` between each pair of consecutive clips |
| Timeline.AppMixLengths | app_file_eleven_hume.py:61-62 | with the apps' gaps, the mix lasts the clips plus 100 ms (ElevenLabs/Hume app) or 200 ms (stem app) per pair of clips |
| Timeline.Fit | app_file_eleven_hume.py:567-571 | the exported stem has the mix's length. It is the stem followed by silence, or the stem's first part |
| Timeline.FitStem | app_file_eleven_hume.py:567-571 | the pad-or-truncate step never changes a stem the loop built |
| Timeline.AppendSilenceToAll | app_file_eleven_hume.py:530-531 | every stem gains the gap's silence |
| Timeline.PadAllTo | app_file_eleven_hume.py:543-545 | every stem shorter than the timeline position is padded to it |
| Timeline.PadTo | app_file_eleven_hume.py:543-545 | padding one stem to the timeline position; `PadToSpec` states it |
| Timeline.PadToSpec | app_file_eleven_hume.py:543-545 | the padded stem keeps the old one as a prefix, reaches the position (or keeps its length when already there) and adds only silence |
| Timeline.AppendClip | app_file_eleven_hume.py:547-550 | the speaker's stem gains the clip, and every other stem gains silence of the same length |
| Timeline.Start | app_file_eleven_hume.py:472-476 | the empty mix, empty stems, position 0 and no last speaker agree with the timeline of no clips |
| Timeline.PlaceGap | app_file_eleven_hume.py:528-532 | the gap is appended to the mix and to every stem, and the position advances by it |
| Timeline.PlaceClip | app_file_eleven_hume.py:534-552 | the clip is appended to the mix and to its speaker's stem, silence of its length to every other stem, and the position advances by its length |
| Timeline.Place | app_file_eleven_hume.py:523-553 | placing a clip keeps the mix, stems, position and last speaker equal to the timeline with that clip appended |
| Timeline.FitTrack | app_file_eleven_hume.py:568-571 | one stem is padded or truncated to the mix's length |
| Timeline.FitAll | app_file_eleven_hume.py:567-571 | every character's stem is padded or truncated to the mix's length |
| Timeline.Export | app_file_eleven_hume.py:555-571 | nothing is exported exactly when the mix is empty; otherwise the mix and every fitted stem are |
| Episode.AcceptedCuts | app_file_eleven_hume.py:520-521 | every placed clip is non-empty and belongs to a speaker of the script |
| Episode.Accepted | app_file_eleven_hume.py:520-521 | the clips placed on the timeline, in event order, at most one per event; `AcceptedStep`, `AcceptedCuts` and `AcceptedNone` state which (also appstem.py:275-276) |
| Episode.AcceptedStep | app_file_eleven_hume.py:520-521 | one more event adds its clip exactly when the clip exists and is non-empty |
| Episode.AcceptedNone | app_file_eleven_hume.py:520-521 | no clip is placed exactly when every event's clip is missing or empty |
| Episode.MixOfAcceptedEmpty | app_file_eleven_hume.py:555-557 | the mix is empty exactly when no clip was placed |
| Episode.ReadyFilesUsable | app_file_eleven_hume.py:463-469 | after validation, every recorded-file configuration has takes and a sequence |
| Episode.StartIndexes | app_file_eleven_hume.py:479 | the per-character line counters start at zero |
| Episode.CountSpeaker | app_file_eleven_hume.py:511-512 | the line counter of a character: at most the number of events; `CountSpeakerStep` states it advances by one on that character's lines only, and `RecordedLineTake` uses it |
| Episode.CountSpeakerStep | app_file_eleven_hume.py:511-512 | one more event advances the count exactly when it is that character's line |
| Episode.ChooseClip | app_file_eleven_hume.py:493-518 | the clip chosen for an event is its provider's clip. For a recorded-file character, it is the take chosen by that character's line count so far, and the counter advances |
| Episode.Sources | app_file_eleven_hume.py:493-518 | one audio source per event; `RecordedLineTake` and `GeneratedLineClip` state which one each event gets |
| Episode.RecordedLineTake | app_file_eleven_hume.py:510-518 | a recorded-file speaker's line plays the take its sequence picks at that speaker's count of earlier lines, cycling, with the take number clamped to the takes |
| Episode.GeneratedLineClip | app_file_eleven_hume.py:489-508 | a speaker without a configuration gets no audio; an ElevenLabs or Hume speaker gets that provider's generated clip |
| Episode.SkipKeepsIndexes | app_file_eleven_hume.py:489-491 | skipping an event without a configuration leaves every line counter correct |
| Episode.SpeakerDetected | app_file_eleven_hume.py:328-329 | every event's speaker is a detected character, so it has a stem |
| Episode.SkipEvent | app_file_eleven_hume.py:520-521 | skipping an event without audio leaves the timeline unchanged |
| Episode.PlaceEvent | app_file_eleven_hume.py:523-553 | placing an event's clip keeps the timeline in step with the accepted clips |
| Episode.EpisodeEvent | app_file_eleven_hume.py:485-553 | one iteration of the loop keeps the timeline and the line counters in step with the events read so far |
| Episode.GenerateEpisode | app_file_eleven_hume.py:471-553 | the loop builds exactly the mix and stems of the accepted clips, with one stem per detected character |
| Episode.GenerateStems | appstem.py:256-308 | the stem app's loop skips speakers without a voice id and failed generations, and builds the mix and stems of the rest |
| Episode.Voiced | appstem.py:271-274 | the stem app's audio per event: an event has audio only when its speaker has a voice id, and then it has the generated clip |
| Episode.RenderStems | appstem.py:256-326 | there is no output exactly when no clip was placed. Otherwise the full mix is that of the placed clips, and each character's stem is that character's part of it |
| Episode.RenderEpisode | app_file_eleven_hume.py:471-571 | the same for the ElevenLabs/Hume app, whose clips come from each character's provider or recorded takes |
| SingleTrack.LineNameShape | app2.py:95-99 | every detected name is non-empty, trimmed, lower-case and free of `:` |
| SingleTrack.LineName | app2.py:95-99 | the name a line adds to the characters; `LineNameShape` and `NamesExact` state its shape and its use |
| SingleTrack.Names | app2.py:90-100 | the set of names the lines give; `NamesExact` states it has exactly those names |
| SingleTrack.NamesExact | app2.py:90-101 | a name is detected exactly when some line yields it |
| SingleTrack.SortedList | app2.py:101 | the set of names becomes a strictly sorted list with the same elements |
| SingleTrack.DetectCharacters | app2.py:90-101 | the detected characters are strictly sorted, and are exactly the names before the first `:` of the script's lines |
| SingleTrack.EventNamed | app2.py:234-236 | a line gives an event exactly when it holds a `:`; its speaker is the name detection found in it |
| SingleTrack.LineEvent | app2.py:227-237 | the speaker and dialogue of a line; `EventNamed` and `LineEventRoundTrip` state when it exists and what it holds |
| SingleTrack.LineCut | app2.py:226-248 | the clip a line contributes; `LineParts` states exactly when it exists |
| SingleTrack.Spoken | app2.py:226-259 | the clips the single-track loop places, in line order; `SpokenStep` and `LineParts` state what each line adds |
| SingleTrack.SpokenStep | app2.py:226-259 | one more line adds its clip when it gives one, and nothing otherwise |
| SingleTrack.LineEventRoundTrip | app2.py:234-237 | a line written as `name:text` gives back exactly that speaker and text |
| SingleTrack.AppendWithGap | app2.py:248-259 | a clip is appended, followed by its gap, and becomes the previous speaker |
| SingleTrack.LineParts | app2.py:226-246 | a line contributes a clip exactly when it has a `:`, its speaker has a voice id, and generation gives a non-empty clip |
| SingleTrack.SingleTrackLine | app2.py:226-259 | one iteration of the loop extends the track by the line's clip, if any |
| SingleTrack.RunLines | app2.py:226-259 | the loop builds the track of the clips the lines give |
| SingleTrack.SingleTrackEpisode | app2.py:217-259 | the episode is the track of the clips of the script's lines, split on `\n` |
| SingleTrack.TrackPrefix | app2.py:248-257 | placing more clips keeps the track built so far as a prefix |
| SingleTrack.TrailGap | app2.py:254-257 | the gap after a clip: `same` after the same speaker as before, `change` otherwise; `FirstClip` and `TrackBounds` state its effect |
| SingleTrack.Track | app2.py:248-257 | the single track of the placed clips; described by `TrackPrefix`, `FirstClip`, `TrackBounds`, `TrackVersusMix` and `AppTrackLength` |
| SingleTrack.FirstClip | app2.py:254-257 | the first clip is followed by the speaker-change gap |
| SingleTrack.TrackBounds | app2.py:254-257 | every clip is followed by between `same` and `change` milliseconds |
| SingleTrack.TrackVersusMix | app2.py:248-257 | the track is exactly one speaker-change gap longer than the stem apps' mix of the same clips |
| SingleTrack.AppTrackLength | app2.py:45-46 | with the app's gaps, the track lasts the clips plus 400 to 800 ms per clip, and exactly 800 ms more than the mix |
| SingleTrack.GapsSwapped | app2.py:254-257 | as written, for lines `x`, `x`, `y` the track is the first clip, the speaker-change gap, the second clip, the same-speaker gap, the third clip and the speaker-change gap |
| SingleTrack.GapsBetweenSpeakers | app_file_eleven_hume.py:523-538 | with the same clips and gaps, the stem apps' mix puts the same-speaker gap between the two `x` lines and the speaker-change gap before `y` |

## Left out

- Streamlit UI, login, progress bars, downloads: not modelled. Provider choices and entered text are parameters.
- Network, JSON, base64 and MP3/PCM decoding are not modelled. Each request attempt is an `Attempt`: it raised, or it got a status and a body. Decoding a body is a parameter function.
- `fade_in`/`fade_out` are not modelled. They keep a clip's length and change its samples, and the model treats clips as opaque samples.
- `split_into_takes` (`app_file_eleven_hume.py`:288-300) is not modelled, because `pydub.split_on_silence` is not part of this model. A file character's takes are given as a list of clips.
- `VOICE_TYPE_PROFILES` and the voice settings sent with each request are not modelled. They do not affect the control flow.
- ZIP and WAV writing are not modelled. `Episode.RenderEpisode` and `Episode.RenderStems` return the full mix and the stems keyed by character name. Each file name is `safe_filename(name)` + `_stem.wav`, and its properties are in `Naming`.
- `Episode.GenerateEpisode` and `Episode.RenderEpisode`: the ElevenLabs and Hume clip of each event is an input (`generated`), because the requests themselves are modelled in `Retry`. Only the recorded-take choice and the per-character line counters are computed in the loop.
- Scripts are split on `\n` only. `splitlines`' other line terminators (`\r`, `\x0b`, `\x0c`, `\x1c`-`\x1e`, `\x85`, `\u2028`, `\u2029`) are not modelled.
- Whitespace is the ASCII whitespace plus `\x1c`-`\x1f`, `\x85` and `\xa0`. The other Unicode spaces that `str.strip` removes are not modelled.
- `lower()` is modelled as ASCII-only: non-ASCII case folding is not modelled.
- `int()` is modelled as an optional sign and ASCII digits. Underscores, surrounding whitespace inside a part (already stripped by the loop) and non-ASCII digits are not modelled.
- Audio `AudioSegment` lengths are whole milliseconds. Sample rates, channels and frame rounding are not modelled.
- The early stop when no dialogue is detected (`app_file_eleven_hume.py`:331-333) is not modelled as a separate step. With no events, `Episode.RenderEpisode` returns nothing.
- The single-track app exports even an empty episode (`app2.py`:261-266). That export is not modelled. `SingleTrack.SingleTrackEpisode` returns the track.
- `Cadence.StripUnknownBrackets`: its own contract states only that the result is trimmed and no longer than the input. What it keeps and what it drops is stated by the lemmas on `Rewrite` listed above: `Cadence.RewriteTag` for a position where a match starts and `Cadence.NoMatch` for every other position, including a `[` that starts no match.
- `Cadence.EnsureLineTailStable` is stated only for lines without `[`. `Cadence.StrayBracketNotStable` shows that it fails in general.

## Findings

| source | as written | input that shows it | evidently intended | confidence | as-written member | corrected member |
|---|---|---|---|---|---|---|
| appstem.py:246-247 | the voice id is tested before it is stripped, then stored stripped | a voice id of one space for character `ann`: the map gets `ann -> ""`, and the "all assigned" check at lines 252-254 passes | strip the id before testing it, as the ElevenLabs/Hume app does at `app_file_eleven_hume.py`:374 and 448, so that every stored id is non-empty | not executed | Preflight.BlankIdPasses | Preflight.StrippedIdsUsable |
| app2.py:254-257 | the gap after a clip is chosen by comparing its speaker with the speaker of the clip before it | lines `ann: Hi`, `ann: Again`, `bob: Yo`: the two lines of `ann` are 800 ms apart and the change to `bob` is 400 ms | the same-speaker gap of 400 ms between two lines of one speaker and the 800 ms gap where the speaker changes, as the names of the constants at app2.py:45-46 say and as the stem apps do | not executed | SingleTrack.GapsSwapped | SingleTrack.GapsBetweenSpeakers |
