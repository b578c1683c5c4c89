/** The single-track app: characters are the names before a `:` on any
    line, each `name: text` line is voiced on its own, and every accepted
    clip is followed by its gap on one track. */
module SingleTrack {

  import opened Wrappers
  import opened Text
  import opened Audio
  import opened ScriptParser
  import opened Retry
  import opened Timeline

  /** `GAP_SAME_SPEAKER_MS` and `GAP_SPEAKER_CHANGE_MS` of the single-track
      app. */
  const GapSame: nat := 400
  const GapChange: nat := 800

  // ---------------------------------------------------------------------------
  // `detect_characters`

  /** The stripped text before the first `:` of the stripped line; `None`
      when the line has no `:`. */
  function Prefix(line: string): Option<string>
  {
    var t := Strip(line);
    match IndexOf(t, ':')
    case None => None
    case Some(i) => Some(Strip(t[..i]))
  }

  /** The character a line names, if any. */
  function LineName(line: string): Option<string>
  {
    match Prefix(line)
    case None => None
    case Some(p) => if p != [] then Some(NormalizeName(p)) else None
  }

  /** A name taken from a line is non-empty, trimmed, lower-case and holds
      no `:`. */
  lemma LineNameShape(line: string)
    ensures LineName(line).Some? ==>
      var x := LineName(line).value;
      x != [] && IsTrimmed(x) && IsLower(x) && ':' !in x
  {
    var t := Strip(line);
    IndexOfFirst(t, ':');
    if LineName(line).Some? {
      var i := IndexOf(t, ':').value;
      var p := Strip(t[..i]);
      StripKeepsOut(t[..i], ':');
      StripKeepsOut(p, ':');
      LowerKeepsOut(Strip(p), ':');
      StripTrimmed(p);
    }
  }

  /** The names of all the lines. */
  function Names(lines: seq<string>): set<string>
  {
    if lines == [] then {}
    else
      var n := |lines|;
      Names(lines[..n - 1]) + (match LineName(lines[n - 1]) case None => {} case Some(x) => {x})
  }

  lemma {:induction false} NamesExact(lines: seq<string>, x: string)
    ensures x in Names(lines) <==> exists k :: 0 <= k < |lines| && LineName(lines[k]) == Some(x)
  {
    if lines != [] {
      var n := |lines|;
      NamesExact(lines[..n - 1], x);
      if x in Names(lines[..n - 1]) {
        var k :| 0 <= k < n - 1 && LineName(lines[..n - 1][k]) == Some(x);
        assert LineName(lines[k]) == Some(x);
      }
      if exists k :: 0 <= k < n && LineName(lines[k]) == Some(x) {
        var k :| 0 <= k < n && LineName(lines[k]) == Some(x);
        if k < n - 1 {
          assert lines[..n - 1][k] == lines[k];
        }
      }
    }
  }

  /** `sorted(list(s))`: the set's elements in increasing order. */
  method SortedList(s: set<string>) returns (r: seq<string>)
    ensures StrictlySorted(r)
    ensures forall x :: x in r <==> x in s
  {
    r := [];
    var rest := s;
    while rest != {}
      invariant rest <= s
      invariant StrictlySorted(r)
      invariant forall x :: x in r <==> x in s && x !in rest
      decreases |rest|
    {
      var x :| x in rest;
      r := Insert(r, x);
      rest := rest - {x};
    }
  }

  /** `detect_characters`: the names of the lines, sorted, each once. */
  method DetectCharacters(script: string) returns (r: seq<string>)
    ensures StrictlySorted(r)
    ensures forall x :: x in r <==> x in Names(SplitOn(script, '\n'))
  {
    var characters: set<string> := {};
    var lines := SplitOn(script, '\n');
    for k := 0 to |lines|
      invariant characters == Names(lines[..k])
    {
      assert lines[..k + 1][..k] == lines[..k];
      var line := Strip(lines[k]);
      var colon := IndexOf(line, ':');
      if colon.Some? {
        var speaker := Strip(line[..colon.value]);
        if speaker != [] {
          characters := characters + {NormalizeName(speaker)};
        }
      }
    }
    assert lines[..|lines|] == lines;
    r := SortedList(characters);
  }

  // ---------------------------------------------------------------------------
  // The line events

  /** A stripped line with a `:` is an event: the normalised text before the
      first `:` and the stripped rest. */
  function LineEvent(line: string): Option<Event>
  {
    var t := Strip(line);
    match IndexOf(t, ':')
    case None => None
    case Some(i) => Some(Event(NormalizeName(t[..i]), Strip(t[i + 1..])))
  }

  /** The lines that give events are the lines that give names, less those
      with nothing before the `:`; the event's speaker is that name. */
  lemma EventNamed(line: string)
    ensures LineName(line).Some? ==> LineEvent(line).Some? && LineEvent(line).value.speaker == LineName(line).value
    ensures LineEvent(line).Some? && LineEvent(line).value.speaker != [] ==> LineName(line).Some?
    ensures LineEvent(line).Some? <==> Prefix(line).Some?
  {
    var t := Strip(line);
    if IndexOf(t, ':').Some? {
      var i := IndexOf(t, ':').value;
      StripIdempotent(t[..i]);
    }
  }

  /** `name: text` reads back as the event it spells. */
  lemma LineEventRoundTrip(name: string, text: string)
    requires name != [] && IsTrimmed(name) && IsLower(name) && ':' !in name
    requires IsTrimmed(text)
    ensures LineEvent(name + ":" + text) == Some(Event(name, text))
  {
    var rest := [':'] + text;
    var line := name + rest;
    assert name + ":" + text == line;
    assert Strip(line) == line by {
      assert line[0] == name[0];
      assert text != [] ==> line[|line| - 1] == text[|text| - 1];
      StripTrimmed(line);
    }
    assert IndexOf(line, ':') == Some(|name|) by {
      IndexOfPrefix(name, rest, ':');
    }
    assert line[..|name|] == name && line[|name| + 1..] == text;
    assert NormalizeName(name) == name by {
      StripTrimmed(name);
      LowerIsLower(name);
    }
    assert Strip(text) == text by {
      StripTrimmed(text);
    }
  }

  // ---------------------------------------------------------------------------
  // The single-track mixer

  /** The gap after a clip of `speaker`: `same` when the clip before it was
      the same speaker's, `change` otherwise (also after the first clip). */
  function TrailGap(cuts: seq<Cut>, speaker: string, same: nat, change: nat): nat
  {
    if cuts != [] && cuts[|cuts| - 1].speaker == speaker then same else change
  }

  /** The episode: each clip, then its gap. */
  function Track(cuts: seq<Cut>, same: nat, change: nat): Clip
  {
    if cuts == [] then []
    else
      var n := |cuts|;
      var pre := cuts[..n - 1];
      Track(pre, same, change) + cuts[n - 1].clip + Silence(TrailGap(pre, cuts[n - 1].speaker, same, change))
  }

  /** The clip a script line contributes: blank lines, lines without `:`,
      speakers without a voice id and failed or empty generations give
      none. */
  function LineCut(line: string, voiceMap: map<string, string>, attempts: seq<Attempt>, decode: seq<int> -> Clip): Option<Cut>
    requires |attempts| == Retries
  {
    if Strip(line) == [] then None
    else match LineEvent(line)
      case None => None
      case Some(e) =>
        if e.speaker !in voiceMap then None
        else match SingleTrackClip(e.dialogue, attempts, decode)
          case None => None
          case Some(c) => if c != [] then Some(Cut(e.speaker, c)) else None
  }

  predicate AttemptsFit(attempts: seq<seq<Attempt>>)
  {
    forall k :: 0 <= k < |attempts| ==> |attempts[k]| == Retries
  }

  /** The clips placed, in line order. */
  function Spoken(lines: seq<string>, voiceMap: map<string, string>, attempts: seq<seq<Attempt>>, decode: seq<int> -> Clip): seq<Cut>
    requires |attempts| == |lines| && AttemptsFit(attempts)
  {
    if lines == [] then []
    else
      var n := |lines|;
      Spoken(lines[..n - 1], voiceMap, attempts[..n - 1], decode)
        + (match LineCut(lines[n - 1], voiceMap, attempts[n - 1], decode) case None => [] case Some(c) => [c])
  }

  lemma SpokenStep(lines: seq<string>, voiceMap: map<string, string>, attempts: seq<seq<Attempt>>, decode: seq<int> -> Clip, k: nat)
    requires |attempts| == |lines| && AttemptsFit(attempts) && k < |lines|
    ensures AttemptsFit(attempts[..k]) && AttemptsFit(attempts[..k + 1])
    ensures Spoken(lines[..k + 1], voiceMap, attempts[..k + 1], decode) ==
      Spoken(lines[..k], voiceMap, attempts[..k], decode)
        + (match LineCut(lines[k], voiceMap, attempts[k], decode) case None => [] case Some(c) => [c])
  {
    assert lines[..k + 1][..k] == lines[..k];
    assert attempts[..k + 1][..k] == attempts[..k];
  }

  /** A clip and its gap appended to the track. */
  method AppendWithGap(ghost cuts: seq<Cut>, same: nat, change: nat, finalAudio: Clip, prevSpeaker: Option<string>,
                       speaker: string, clip: Clip)
    returns (finalAudio': Clip, prevSpeaker': Option<string>)
    requires finalAudio == Track(cuts, same, change) && prevSpeaker == LastSpeaker(cuts)
    ensures finalAudio' == Track(cuts + [Cut(speaker, clip)], same, change)
    ensures prevSpeaker' == LastSpeaker(cuts + [Cut(speaker, clip)])
  {
    if |finalAudio| == 0 {
      finalAudio' := clip;
    } else {
      finalAudio' := finalAudio + clip;
    }
    if prevSpeaker == Some(speaker) {
      finalAudio' := finalAudio' + Silence(same);
    } else {
      finalAudio' := finalAudio' + Silence(change);
    }
    prevSpeaker' := Some(speaker);
    Snoc(cuts, Cut(speaker, clip));
  }

  /** The parts of a line the loop reads, as `LineCut` reads them. */
  lemma LineParts(line: string, voiceMap: map<string, string>, attempts: seq<Attempt>, decode: seq<int> -> Clip, i: nat)
    requires |attempts| == Retries
    requires Strip(line) != [] && IndexOf(Strip(line), ':') == Some(i)
    ensures i < |Strip(line)|
    ensures var speaker := NormalizeName(Strip(line)[..i]);
      var dialogue := Strip(Strip(line)[i + 1..]);
      var audio := SingleTrackClip(dialogue, attempts, decode);
      LineCut(line, voiceMap, attempts, decode) ==
        if speaker !in voiceMap || audio.None? || audio.value == [] then None else Some(Cut(speaker, audio.value))
  {
  }

  /** One line of the episode loop. */
  method SingleTrackLine(line: string, voiceMap: map<string, string>, attempts: seq<Attempt>, decode: seq<int> -> Clip,
                         same: nat, change: nat, ghost cuts: seq<Cut>, finalAudio: Clip, prevSpeaker: Option<string>)
    returns (finalAudio': Clip, prevSpeaker': Option<string>)
    requires |attempts| == Retries
    requires finalAudio == Track(cuts, same, change) && prevSpeaker == LastSpeaker(cuts)
    ensures var cuts' := cuts + (match LineCut(line, voiceMap, attempts, decode) case None => [] case Some(c) => [c]);
      finalAudio' == Track(cuts', same, change) && prevSpeaker' == LastSpeaker(cuts')
  {
    assert cuts + [] == cuts;
    finalAudio', prevSpeaker' := finalAudio, prevSpeaker;
    var t := Strip(line);
    if t == [] {
      return;
    }
    var colon := IndexOf(t, ':');
    if colon.Some? {
      LineParts(line, voiceMap, attempts, decode, colon.value);
      var speaker := NormalizeName(t[..colon.value]);
      var dialogue := Strip(t[colon.value + 1..]);
      if speaker !in voiceMap {
        return;
      }
      var audio := GenerateAudioSingleTrack(dialogue, attempts, decode);
      if audio.Some? && audio.value != [] {
        finalAudio', prevSpeaker' := AppendWithGap(cuts, same, change, finalAudio', prevSpeaker', speaker, audio.value);
      }
    }
  }

  /** The episode loop of the single-track app: the track it exports (there
      is no check for an empty result). */
  method SingleTrackEpisode(script: string, voiceMap: map<string, string>, attempts: seq<seq<Attempt>>,
                            decode: seq<int> -> Clip, same: nat, change: nat)
    returns (finalAudio: Clip)
    requires |attempts| == |SplitOn(script, '\n')| && AttemptsFit(attempts)
    ensures finalAudio == Track(Spoken(SplitOn(script, '\n'), voiceMap, attempts, decode), same, change)
  {
    var lines := SplitOn(script, '\n');
    finalAudio := RunLines(lines, voiceMap, attempts, decode, same, change);
  }

  /** The loop over the script's lines. */
  method RunLines(lines: seq<string>, voiceMap: map<string, string>, attempts: seq<seq<Attempt>>,
                  decode: seq<int> -> Clip, same: nat, change: nat)
    returns (finalAudio: Clip)
    requires |attempts| == |lines| && AttemptsFit(attempts)
    ensures finalAudio == Track(Spoken(lines, voiceMap, attempts, decode), same, change)
  {
    finalAudio := [];
    var prevSpeaker: Option<string> := None;
    assert lines[..0] == [] && attempts[..0] == [];
    for k := 0 to |lines|
      invariant AttemptsFit(attempts[..k])
      invariant finalAudio == Track(Spoken(lines[..k], voiceMap, attempts[..k], decode), same, change)
      invariant prevSpeaker == LastSpeaker(Spoken(lines[..k], voiceMap, attempts[..k], decode))
    {
      SpokenStep(lines, voiceMap, attempts, decode, k);
      finalAudio, prevSpeaker := SingleTrackLine(lines[k], voiceMap, attempts[k], decode, same, change,
                                                 Spoken(lines[..k], voiceMap, attempts[..k], decode),
                                                 finalAudio, prevSpeaker);
    }
    assert lines[..|lines|] == lines && attempts[..|lines|] == attempts;
  }

  // ---------------------------------------------------------------------------
  // Properties of the track

  /** Placing a clip keeps the track so far. */
  lemma {:induction false} TrackPrefix(cuts: seq<Cut>, k: nat, same: nat, change: nat)
    requires k <= |cuts|
    ensures Track(cuts[..k], same, change) <= Track(cuts, same, change)
    decreases |cuts| - k
  {
    if k < |cuts| {
      TrackPrefix(cuts, k + 1, same, change);
      assert cuts[..k + 1][..k] == cuts[..k];
    } else {
      assert cuts[..k] == cuts;
    }
  }

  /** The first clip opens the track and is followed by the speaker-change
      gap, though no other speaker came before it. */
  lemma FirstClip(cuts: seq<Cut>, same: nat, change: nat)
    requires cuts != []
    ensures |cuts[0].clip| + change <= |Track(cuts, same, change)|
    ensures Track(cuts, same, change)[..|cuts[0].clip| + change] == cuts[0].clip + Silence(change)
  {
    TrackPrefix(cuts, 1, same, change);
    assert cuts[..1][..0] == [];
  }

  /** Every clip is followed by at least `same` and at most `change`
      milliseconds (when `same <= change`), so the track lasts the clips
      plus between `same` and `change` per clip. */
  lemma {:induction false} TrackBounds(cuts: seq<Cut>, same: nat, change: nat)
    requires same <= change
    ensures Duration(cuts) + same * |cuts| <= |Track(cuts, same, change)| <= Duration(cuts) + change * |cuts|
  {
    if cuts != [] {
      var n := |cuts|;
      var pre := cuts[..n - 1];
      TrackBounds(pre, same, change);
      var g := TrailGap(pre, cuts[n - 1].speaker, same, change);
      assert |Track(cuts, same, change)| == |Track(pre, same, change)| + |cuts[n - 1].clip| + g;
      assert Duration(cuts) == Duration(pre) + |cuts[n - 1].clip|;
      MulSucc(same, n - 1);
      MulSucc(change, n - 1);
    }
  }

  lemma MulSucc(a: nat, m: nat)
    ensures a * (m + 1) == a * m + a
  {
  }

  /** Against the stem apps' timeline with the same clips and gap lengths:
      the gap the stem apps put before clip k comes here after it, and the
      first clip is followed by one more speaker-change gap, so the track is
      exactly one `change` longer than the mix. */
  lemma {:induction false} TrackVersusMix(cuts: seq<Cut>, same: nat, change: nat)
    requires cuts != []
    ensures |Track(cuts, same, change)| == |Mix(cuts, same, change)| + change
  {
    var n := |cuts|;
    var pre := cuts[..n - 1];
    if n > 1 {
      TrackVersusMix(pre, same, change);
      assert GapBefore(pre, cuts[n - 1].speaker, same, change) == TrailGap(pre, cuts[n - 1].speaker, same, change);
    }
  }

  /** As written, the gap after a clip is chosen by whether the clip before
      it had the same speaker: two lines of one speaker are separated by the
      speaker-change gap, and the change of speaker by the same-speaker gap. */
  lemma GapsSwapped(x: string, y: string, a1: Clip, a2: Clip, b: Clip)
    requires x != y
    ensures Track([Cut(x, a1), Cut(x, a2), Cut(y, b)], GapSame, GapChange)
      == a1 + Silence(GapChange) + a2 + Silence(GapSame) + b + Silence(GapChange)
  {
    var one, two := [Cut(x, a1)], [Cut(x, a1), Cut(x, a2)];
    var cuts := two + [Cut(y, b)];
    assert cuts == [Cut(x, a1), Cut(x, a2), Cut(y, b)];
    assert one[..0] == [] && two[..1] == one && cuts[..2] == two;
    assert Track(one, GapSame, GapChange) == a1 + Silence(GapChange);
    assert Track(two, GapSame, GapChange) == Track(one, GapSame, GapChange) + a2 + Silence(GapSame);
    assert Track(cuts, GapSame, GapChange) == Track(two, GapSame, GapChange) + b + Silence(GapChange);
  }

  /** The gap the constant names call for: the stem apps' mix puts the
      same-speaker gap between two lines of one speaker and the
      speaker-change gap where the speaker changes. */
  lemma GapsBetweenSpeakers(x: string, y: string, a1: Clip, a2: Clip, b: Clip)
    requires x != y
    ensures Mix([Cut(x, a1), Cut(x, a2), Cut(y, b)], GapSame, GapChange)
      == a1 + Silence(GapSame) + a2 + Silence(GapChange) + b
  {
    var one, two := [Cut(x, a1)], [Cut(x, a1), Cut(x, a2)];
    var cuts := two + [Cut(y, b)];
    assert cuts == [Cut(x, a1), Cut(x, a2), Cut(y, b)];
    assert one[..0] == [] && two[..1] == one && cuts[..2] == two;
    assert Silence(0) == [];
    assert Mix(one, GapSame, GapChange) == a1;
    assert Mix(two, GapSame, GapChange) == Mix(one, GapSame, GapChange) + Silence(GapSame) + a2;
    assert Mix(cuts, GapSame, GapChange) == Mix(two, GapSame, GapChange) + Silence(GapChange) + b;
  }

  /** With the app's gaps every clip is followed by 400 to 800 ms, and the
      track is 800 ms longer than the stem apps' mix of the same clips. */
  lemma AppTrackLength(cuts: seq<Cut>)
    ensures Duration(cuts) + 400 * |cuts| <= |Track(cuts, GapSame, GapChange)| <= Duration(cuts) + 800 * |cuts|
    ensures cuts != [] ==> |Track(cuts, GapSame, GapChange)| == |Mix(cuts, GapSame, GapChange)| + 800
  {
    TrackBounds(cuts, GapSame, GapChange);
    if cuts != [] {
      TrackVersusMix(cuts, GapSame, GapChange);
    }
  }
}
