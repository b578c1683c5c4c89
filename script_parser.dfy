/** The script parser of app_file_eleven_hume.py and appstem.py (the two copies
    are identical): a line-by-line state machine that turns a script into an
    ordered list of (speaker, dialogue) events, plus the distinct-speaker query
    the character-setup screen is built from. */
module ScriptParser {

  import opened Wrappers
  import opened Text

  /** One parsed line of dialogue: who says it and what they say. */
  datatype Event = Event(speaker: string, dialogue: string)

  /** `normalize_name`: trimmed and lower-cased. */
  function NormalizeName(name: string): (r: string)
    ensures IsTrimmed(r) && IsLower(r)
    ensures |r| <= |name|
    ensures r == [] <==> AllSpace(name)
  {
    LowerKeepsSpace(Strip(name));
    LowerIsLower(Strip(name));
    Lower(Strip(name))
  }

  lemma NormalizeNameIdempotent(name: string)
    ensures NormalizeName(NormalizeName(name)) == NormalizeName(name)
  {
    var n := NormalizeName(name);
    StripTrimmed(n);
    LowerIsLower(n);
  }

  /** `is_sfx_or_music_line`: a production cue, dropped from the script. */
  predicate IsSfxOrMusicLine(line: string)
  {
    var l := Lower(Strip(line));
    StartsWith(l, "sfx:") || StartsWith(l, "music:")
  }

  /** A stripped line wholly inside brackets is a performance direction. */
  predicate IsDirection(stripped: string)
  {
    stripped != [] && stripped[0] == '[' && stripped[|stripped| - 1] == ']'
  }

  /** The speaker pattern `^\s*([^:]{1,60})\s*:\s*(.*)$` on a line without a
      line break. The name group cannot hold `:`, so the colon it stops at is the
      first one; the pattern matches iff the text before that colon is not empty
      and has at most 60 characters once its surrounding whitespace is taken
      away. The result is the normalised speaker and the trimmed rest. */
  function SpeakerMatch(line: string): (r: Option<(string, string)>)
    ensures r.Some? ==> ':' in line
  {
    IndexOfFirst(line, ':');
    match IndexOf(line, ':')
    case None => None
    case Some(i) =>
      var name := line[..i];
      if name != [] && |Strip(name)| <= 60 then Some((NormalizeName(name), Strip(line[i + 1..])))
      else None
  }

  /** How the loop treats a line, in the order the loop tests it. */
  datatype LineKind =
    | Blank                                 // flushes the open block
    | Cue                                   // sfx:/music: or [direction]: ignored
    | SpeakerLine(name: string, after: string)
    | TextLine(text: string)                // continues the open block

  function Classify(line: string): LineKind
  {
    var stripped := Strip(line);
    if stripped == [] then Blank
    else if IsSfxOrMusicLine(stripped) || IsDirection(stripped) then Cue
    else match SpeakerMatch(line)
      case Some((name, after)) => SpeakerLine(name, after)
      case None => TextLine(stripped)
  }

  /** The parser's running state: the events so far, the open speaker (None
      before the first speaker line) and the dialogue lines of the open block. */
  datatype ParserState = ParserState(items: seq<Event>, speaker: Option<string>, buffer: seq<string>)

  const Init := ParserState([], None, [])

  /** The stripped, non-blank lines of a block. */
  function Pieces(buffer: seq<string>): seq<string>
  {
    if buffer == [] then []
    else if Strip(buffer[0]) == [] then Pieces(buffer[1..])
    else [Strip(buffer[0])] + Pieces(buffer[1..])
  }

  /** `flush`: close the open block; it becomes an event when the open speaker
      is a non-empty name and its joined dialogue is not blank. The speaker
      stays open. */
  function Flush(st: ParserState): (r: ParserState)
    ensures r.speaker == st.speaker && r.buffer == []
    ensures st.items <= r.items && |r.items| <= |st.items| + 1
  {
    var items :=
      if st.speaker.Some? && st.speaker.value != [] && st.buffer != [] then
        var dialogue := Join(Pieces(st.buffer), " ");
        if Strip(dialogue) != [] then st.items + [Event(st.speaker.value, Strip(dialogue))] else st.items
      else st.items;
    ParserState(items, st.speaker, [])
  }

  /** One iteration of the loop, on a line of the given kind. */
  function Step(st: ParserState, kind: LineKind): (r: ParserState)
    ensures st.items <= r.items
    ensures kind.Cue? || kind.TextLine? ==> r.items == st.items && r.speaker == st.speaker
    ensures kind.SpeakerLine? ==> r.speaker == Some(kind.name)
  {
    match kind
    case Blank => Flush(st)
    case Cue => st
    case SpeakerLine(name, after) =>
      var f := Flush(st);
      ParserState(f.items, Some(name), if after != [] then [after] else [])
    case TextLine(text) =>
      if st.speaker.Some? && st.speaker.value != [] then st.(buffer := st.buffer + [text]) else st
  }

  /** The state after the loop has read lines of the given kinds, from `st`. */
  function RunFrom(st: ParserState, kinds: seq<LineKind>): ParserState
  {
    if kinds == [] then st else Step(RunFrom(st, kinds[..|kinds| - 1]), kinds[|kinds| - 1])
  }

  function Kinds(lines: seq<string>): (r: seq<LineKind>)
    ensures |r| == |lines|
  {
    seq(|lines|, k requires 0 <= k < |lines| => Classify(lines[k]))
  }

  lemma KindsConcat(a: seq<string>, b: seq<string>)
    ensures Kinds(a + b) == Kinds(a) + Kinds(b)
  {
  }

  /** `parse_script_blocks` on the script's lines. */
  function Parse(lines: seq<string>): seq<Event>
  {
    Flush(RunFrom(Init, Kinds(lines))).items
  }

  /** `parse_script_blocks` on the script text. */
  function ParseScript(scriptText: string): seq<Event>
  {
    Parse(SplitOn(scriptText, '\n'))
  }

  /** One pass of the loop body of `parse_script_blocks` (`continue` is the
      early return); `flush` is applied to the state it closes over. */
  method ReadLine(items: seq<Event>, currentSpeaker: Option<string>, currentLines: seq<string>, line: string)
    returns (items': seq<Event>, speaker': Option<string>, lines': seq<string>)
    ensures ParserState(items', speaker', lines') == Step(ParserState(items, currentSpeaker, currentLines), Classify(line))
  {
    items', speaker', lines' := items, currentSpeaker, currentLines;
    var stripped := Strip(line);
    if stripped == [] {
      assert Classify(line) == Blank;
      var f := Flush(ParserState(items, currentSpeaker, currentLines));
      items', lines' := f.items, f.buffer;
      return;
    }
    if IsSfxOrMusicLine(stripped) {
      assert Classify(line) == Cue;
      return;
    }
    if stripped[0] == '[' && stripped[|stripped| - 1] == ']' {
      assert Classify(line) == Cue;
      return;
    }
    match SpeakerMatch(line)
    case Some((speaker, after)) =>
      assert Classify(line) == SpeakerLine(speaker, after);
      var f := Flush(ParserState(items, currentSpeaker, currentLines));
      items', lines' := f.items, f.buffer;
      speaker' := Some(speaker);
      if after != [] {
        lines' := lines' + [after];
      }
    case None =>
      assert Classify(line) == TextLine(stripped);
      if currentSpeaker.Some? && currentSpeaker.value != [] {
        lines' := lines' + [stripped];
      }
  }

  /** `parse_script_blocks`: the loop over the lines, then the final `flush`. */
  method ParseScriptBlocks(scriptText: string) returns (items: seq<Event>)
    ensures items == ParseScript(scriptText)
    ensures forall k :: 0 <= k < |items| ==> WellFormed(items[k])
  {
    var lines := SplitOn(scriptText, '\n');
    items := [];
    var currentSpeaker: Option<string> := None;
    var currentLines: seq<string> := [];
    var i := 0;
    while i < |lines|
      invariant 0 <= i <= |lines|
      invariant ParserState(items, currentSpeaker, currentLines) == RunFrom(Init, Kinds(lines)[..i])
    {
      assert Kinds(lines)[..i + 1][..i] == Kinds(lines)[..i];
      items, currentSpeaker, currentLines := ReadLine(items, currentSpeaker, currentLines, lines[i]);
      i := i + 1;
    }
    assert Kinds(lines)[..i] == Kinds(lines);
    var f := Flush(ParserState(items, currentSpeaker, currentLines));
    items := f.items;
    EventsWellFormed(lines);
  }

  // ---------------------------------------------------------------------------
  // What every event looks like

  /** The shape every emitted event has: a non-empty, trimmed, lower-case
      speaker of at most 60 characters without `:`, and non-empty trimmed
      dialogue. */
  predicate WellFormed(e: Event)
  {
    && e.speaker != [] && IsTrimmed(e.speaker) && IsLower(e.speaker)
    && ':' !in e.speaker && |e.speaker| <= 60
    && e.dialogue != [] && IsTrimmed(e.dialogue)
  }

  /** The name a speaker line opens. */
  predicate GoodName(name: string)
  {
    IsTrimmed(name) && IsLower(name) && ':' !in name && |name| <= 60
  }

  predicate GoodState(st: ParserState)
  {
    && (forall k :: 0 <= k < |st.items| ==> WellFormed(st.items[k]))
    && (st.speaker.Some? ==> GoodName(st.speaker.value))
  }

  lemma SpeakerMatchName(line: string)
    requires SpeakerMatch(line).Some?
    ensures GoodName(SpeakerMatch(line).value.0)
  {
    IndexOfFirst(line, ':');
    var i := IndexOf(line, ':').value;
    var name := line[..i];
    assert ':' !in name;
    StripKeepsOut(name, ':');
    LowerKeepsOut(Strip(name), ':');
  }

  /** A line `name:text` matches when the name, stripped, has 1 to 60
      characters; the match gives the normalised name and the stripped text. */
  lemma SpeakerMatchWritten(name: string, text: string)
    requires ':' !in name && Strip(name) != [] && |Strip(name)| <= 60
    ensures SpeakerMatch(name + ":" + text) == Some((NormalizeName(name), Strip(text)))
  {
    var line := name + ":" + text;
    IndexOfPrefix(name, ":" + text, ':');
    assert line == name + (":" + text);
    assert line[..|name|] == name && line[|name| + 1..] == text;
  }

  /** With more than 60 characters before the colon, once stripped, the
      pattern does not match. */
  lemma SpeakerMatchLongName(name: string, text: string)
    requires ':' !in name && |Strip(name)| > 60
    ensures SpeakerMatch(name + ":" + text).None?
  {
    var line := name + ":" + text;
    IndexOfPrefix(name, ":" + text, ':');
    assert line == name + (":" + text);
    assert line[..|name|] == name;
  }

  lemma FlushGood(st: ParserState)
    requires GoodState(st)
    ensures GoodState(Flush(st))
  {
  }

  lemma StepGood(st: ParserState, line: string)
    requires GoodState(st)
    ensures GoodState(Step(st, Classify(line)))
  {
    FlushGood(st);
    if Classify(line).SpeakerLine? {
      SpeakerMatchName(line);
    }
  }

  lemma {:induction false} RunGood(st: ParserState, lines: seq<string>)
    requires GoodState(st)
    ensures GoodState(RunFrom(st, Kinds(lines)))
  {
    if lines != [] {
      var n := |lines|;
      assert Kinds(lines)[..n - 1] == Kinds(lines[..n - 1]);
      RunGood(st, lines[..n - 1]);
      StepGood(RunFrom(st, Kinds(lines[..n - 1])), lines[n - 1]);
    }
  }

  /** Every event the parser emits is well formed. */
  lemma EventsWellFormed(lines: seq<string>)
    ensures forall k :: 0 <= k < |Parse(lines)| ==> WellFormed(Parse(lines)[k])
  {
    RunGood(Init, lines);
    FlushGood(RunFrom(Init, Kinds(lines)));
  }

  // ---------------------------------------------------------------------------
  // How lines combine

  lemma {:induction false} RunConcat(st: ParserState, a: seq<LineKind>, b: seq<LineKind>)
    ensures RunFrom(st, a + b) == RunFrom(RunFrom(st, a), b)
  {
    if b == [] {
      assert a + b == a;
    } else {
      assert (a + b)[..|a + b| - 1] == a + b[..|b| - 1];
      RunConcat(st, a, b[..|b| - 1]);
    }
  }

  lemma RunOne(st: ParserState, kind: LineKind)
    ensures RunFrom(st, [kind]) == Step(st, kind)
  {
    assert [kind][..0] == [];
  }

  lemma StepKeepsItems(st: ParserState, kind: LineKind)
    ensures st.items <= Step(st, kind).items
  {
  }

  /** The state only ever gains events: earlier events stay first. */
  lemma {:induction false} RunKeepsItems(st: ParserState, kinds: seq<LineKind>)
    ensures st.items <= RunFrom(st, kinds).items
  {
    if kinds != [] {
      RunKeepsItems(st, kinds[..|kinds| - 1]);
      StepKeepsItems(RunFrom(st, kinds[..|kinds| - 1]), kinds[|kinds| - 1]);
    }
  }

  /** A cue line (`sfx:`, `music:` or a `[direction]`) is invisible: removing it
      from the script changes no event, because it neither flushes the block
      nor changes the open speaker. */
  lemma CueInvisible(a: seq<string>, cue: string, b: seq<string>)
    requires Classify(cue) == Cue
    ensures Parse(a + [cue] + b) == Parse(a + b)
  {
    KindsConcat(a + [cue], b);
    KindsConcat(a, [cue]);
    KindsConcat(a, b);
    RunConcat(Init, Kinds(a) + Kinds([cue]), Kinds(b));
    RunConcat(Init, Kinds(a), Kinds([cue]));
    RunConcat(Init, Kinds(a), Kinds(b));
    RunOne(RunFrom(Init, Kinds(a)), Cue);
  }

  /** An `sfx:` or `music:` line, in any letter case and with any surrounding
      whitespace, is a cue, so it is dropped from the parse. */
  lemma SfxLineDropped(a: seq<string>, line: string, b: seq<string>)
    requires IsSfxOrMusicLine(line)
    ensures Classify(line) == Cue
    ensures Parse(a + [line] + b) == Parse(a + b)
  {
    StripIdempotent(line);
    assert Strip(line) != [];
    CueInvisible(a, line, b);
  }

  predicate NoSpeakerLine(lines: seq<string>)
  {
    forall k :: 0 <= k < |lines| ==> !Classify(lines[k]).SpeakerLine?
  }

  /** Before the first speaker line nothing is kept. */
  lemma {:induction false} NothingBeforeSpeaker(kinds: seq<LineKind>)
    requires forall k :: 0 <= k < |kinds| ==> !kinds[k].SpeakerLine?
    ensures RunFrom(Init, kinds) == Init
  {
    if kinds != [] {
      NothingBeforeSpeaker(kinds[..|kinds| - 1]);
    }
  }

  /** Lines before any speaker line are dropped. */
  lemma DroppedBeforeSpeaker(pre: seq<string>, rest: seq<string>)
    requires NoSpeakerLine(pre)
    ensures Parse(pre + rest) == Parse(rest)
  {
    KindsConcat(pre, rest);
    NothingBeforeSpeaker(Kinds(pre));
    RunConcat(Init, Kinds(pre), Kinds(rest));
  }

  /** Under an empty speaker name nothing is kept, and the state stays so
      until the next speaker line. */
  lemma {:induction false} MutedRun(st: ParserState, kinds: seq<LineKind>)
    requires st.speaker == Some([])
    requires forall k :: 0 <= k < |kinds| ==> !kinds[k].SpeakerLine?
    ensures RunFrom(st, kinds).items == st.items && RunFrom(st, kinds).speaker == Some([])
  {
    if kinds != [] {
      MutedRun(st, kinds[..|kinds| - 1]);
    }
  }

  /** A speaker line whose name is empty (`"  : x"`) closes the block before it
      and then swallows its own text and every line up to the next speaker. */
  lemma EmptyNameDropped(pre: seq<string>, line: string, rest: seq<string>)
    requires Classify(line).SpeakerLine? && Classify(line).name == []
    requires NoSpeakerLine(rest)
    ensures Parse(pre + [line] + rest) == Parse(pre)
  {
    KindsConcat(pre + [line], rest);
    KindsConcat(pre, [line]);
    RunConcat(Init, Kinds(pre) + Kinds([line]), Kinds(rest));
    RunConcat(Init, Kinds(pre), Kinds([line]));
    RunOne(RunFrom(Init, Kinds(pre)), Classify(line));
    MutedRun(RunFrom(Init, Kinds(pre) + Kinds([line])), Kinds(rest));
  }

  /** A blank line or a speaker line closes the open block, so what the
      script before it produced is final: later lines only add events after. */
  lemma ClosedPrefix(a: seq<string>, b: seq<string>)
    requires b != [] && (Classify(b[0]).Blank? || Classify(b[0]).SpeakerLine?)
    ensures Parse(a) <= Parse(a + b)
  {
    assert a + b == (a + [b[0]]) + b[1..];
    KindsConcat(a + [b[0]], b[1..]);
    KindsConcat(a, [b[0]]);
    RunConcat(Init, Kinds(a) + Kinds([b[0]]), Kinds(b[1..]));
    RunConcat(Init, Kinds(a), Kinds([b[0]]));
    RunOne(RunFrom(Init, Kinds(a)), Classify(b[0]));
    RunKeepsItems(RunFrom(Init, Kinds(a) + Kinds([b[0]])), Kinds(b[1..]));
    StepKeepsItems(Flush(RunFrom(Init, Kinds(a + [b[0]] + b[1..]))), Blank);
  }

  /** What the classifier hands on is trimmed and, for text lines, non-empty. */
  lemma ClassifyAfterTrimmed(line: string)
    requires Classify(line).SpeakerLine?
    ensures IsTrimmed(Classify(line).after)
  {
  }

  lemma ClassifyTextTrimmed(line: string)
    requires Classify(line).TextLine?
    ensures IsTrimmed(Classify(line).text) && Classify(line).text != []
  {
  }

  /** `" ".join` of non-empty trimmed pieces is non-empty and trimmed. */
  lemma {:induction false} JoinTrimmed(parts: seq<string>)
    requires parts != []
    requires forall k :: 0 <= k < |parts| ==> parts[k] != [] && IsTrimmed(parts[k])
    ensures Join(parts, " ") != [] && IsTrimmed(Join(parts, " "))
  {
    if |parts| > 1 {
      JoinTrimmed(parts[1..]);
      var j := Join(parts, " ");
      assert j == parts[0] + " " + Join(parts[1..], " ");
      assert j[0] == parts[0][0];
      assert j[|j| - 1] == Join(parts[1..], " ")[|Join(parts[1..], " ")| - 1];
    }
  }

  lemma {:induction false} PiecesOfTrimmed(buffer: seq<string>)
    requires forall k :: 0 <= k < |buffer| ==> buffer[k] != [] && IsTrimmed(buffer[k])
    ensures Pieces(buffer) == buffer
  {
    if buffer != [] {
      StripTrimmed(buffer[0]);
      PiecesOfTrimmed(buffer[1..]);
    }
  }

  /** Closing a block of non-empty trimmed lines under a named speaker emits
      them joined by single spaces. */
  lemma FlushBlock(items: seq<Event>, name: string, block: seq<string>)
    requires name != [] && block != []
    requires forall k :: 0 <= k < |block| ==> block[k] != [] && IsTrimmed(block[k])
    ensures Flush(ParserState(items, Some(name), block)).items == items + [Event(name, Join(block, " "))]
  {
    PiecesOfTrimmed(block);
    JoinTrimmed(block);
    StripTrimmed(Join(block, " "));
  }

  /** Text lines under an open, named speaker pile up in the buffer. */
  lemma {:induction false} TextRun(st: ParserState, kinds: seq<LineKind>, texts: seq<string>)
    requires st.speaker.Some? && st.speaker.value != []
    requires |texts| == |kinds| && forall k :: 0 <= k < |kinds| ==> kinds[k] == TextLine(texts[k])
    ensures RunFrom(st, kinds) == st.(buffer := st.buffer + texts)
  {
    if kinds != [] {
      var n := |kinds|;
      TextRun(st, kinds[..n - 1], texts[..n - 1]);
      assert texts == texts[..n - 1] + [texts[n - 1]];
    } else {
      assert st.buffer + texts == st.buffer;
    }
  }

  /** The lines a `Name:` line opens: the text after the colon, if any,
      then the text lines below it. */
  function Block(after: string, texts: seq<string>): seq<string>
  {
    (if after != [] then [after] else []) + texts
  }

  /** After a speaker line and the text lines below it, the events before the
      speaker line are closed and the block holds the lines' text. */
  lemma BlockRun(pre: seq<string>, header: string, body: seq<string>, name: string, after: string, texts: seq<string>)
    requires Classify(header) == SpeakerLine(name, after) && name != []
    requires |texts| == |body| && forall k :: 0 <= k < |body| ==> Classify(body[k]) == TextLine(texts[k])
    ensures RunFrom(Init, Kinds(pre + [header] + body)) == ParserState(Parse(pre), Some(name), Block(after, texts))
  {
    KindsConcat(pre + [header], body);
    KindsConcat(pre, [header]);
    RunConcat(Init, Kinds(pre) + Kinds([header]), Kinds(body));
    RunConcat(Init, Kinds(pre), Kinds([header]));
    var started := Step(RunFrom(Init, Kinds(pre)), SpeakerLine(name, after));
    RunOne(RunFrom(Init, Kinds(pre)), SpeakerLine(name, after));
    assert Kinds([header]) == [SpeakerLine(name, after)];
    TextRun(started, Kinds(body), texts);
  }

  /** The text of text lines is non-empty and trimmed. */
  lemma TextsTrimmed(body: seq<string>, texts: seq<string>)
    requires |texts| == |body| && forall k :: 0 <= k < |body| ==> Classify(body[k]) == TextLine(texts[k])
    ensures forall k :: 0 <= k < |texts| ==> texts[k] != [] && IsTrimmed(texts[k])
  {
    forall k | 0 <= k < |texts| ensures texts[k] != [] && IsTrimmed(texts[k]) {
      ClassifyTextTrimmed(body[k]);
    }
  }

  /** So the lines of a block are non-empty and trimmed. */
  lemma BlockTrimmed(after: string, texts: seq<string>)
    requires IsTrimmed(after)
    requires forall k :: 0 <= k < |texts| ==> texts[k] != [] && IsTrimmed(texts[k])
    ensures forall k :: 0 <= k < |Block(after, texts)| ==> Block(after, texts)[k] != [] && IsTrimmed(Block(after, texts)[k])
  {
  }

  /** Block form: a `Name:` line (with or without text after the colon)
      followed by text lines gives one event for that speaker whose dialogue
      is the trimmed lines joined by single spaces. */
  lemma BlockForm(pre: seq<string>, header: string, body: seq<string>, name: string, after: string, texts: seq<string>)
    requires Classify(header) == SpeakerLine(name, after) && name != []
    requires |texts| == |body| && forall k :: 0 <= k < |body| ==> Classify(body[k]) == TextLine(texts[k])
    ensures var block := Block(after, texts);
      Parse(pre + [header] + body) == Parse(pre) + (if block != [] then [Event(name, Join(block, " "))] else [])
  {
    BlockRun(pre, header, body, name, after, texts);
    if Block(after, texts) != [] {
      ClassifyAfterTrimmed(header);
      TextsTrimmed(body, texts);
      BlockTrimmed(after, texts);
      FlushBlock(Parse(pre), name, Block(after, texts));
    }
  }

  lemma BlankRun(pre: seq<string>, blank: string, body: seq<string>, texts: seq<string>)
    requires Classify(blank) == Blank
    requires var sp := RunFrom(Init, Kinds(pre)).speaker; sp.Some? && sp.value != []
    requires |texts| == |body| && forall k :: 0 <= k < |body| ==> Classify(body[k]) == TextLine(texts[k])
    ensures RunFrom(Init, Kinds(pre + [blank] + body)) == ParserState(Parse(pre), RunFrom(Init, Kinds(pre)).speaker, texts)
  {
    var before := RunFrom(Init, Kinds(pre));
    KindsConcat(pre + [blank], body);
    KindsConcat(pre, [blank]);
    RunConcat(Init, Kinds(pre) + Kinds([blank]), Kinds(body));
    RunConcat(Init, Kinds(pre), Kinds([blank]));
    assert Kinds([blank]) == [Blank];
    RunOne(before, Blank);
    TextRun(Flush(before), Kinds(body), texts);
    assert [] + texts == texts;
  }

  /** A blank line closes the block but keeps its speaker open: text lines
      after it start a second event for the same speaker. */
  lemma BlankKeepsSpeaker(pre: seq<string>, blank: string, body: seq<string>, texts: seq<string>)
    requires Classify(blank) == Blank
    requires var sp := RunFrom(Init, Kinds(pre)).speaker; sp.Some? && sp.value != []
    requires |texts| == |body| && forall k :: 0 <= k < |body| ==> Classify(body[k]) == TextLine(texts[k])
    ensures var name := RunFrom(Init, Kinds(pre)).speaker.value;
      Parse(pre + [blank] + body) == Parse(pre) + (if texts != [] then [Event(name, Join(texts, " "))] else [])
  {
    BlankRun(pre, blank, body, texts);
    if texts != [] {
      TextsTrimmed(body, texts);
      FlushBlock(Parse(pre), RunFrom(Init, Kinds(pre)).speaker.value, texts);
    }
  }

  /** `lines[k]` is a single-line `Name: dialogue` line with a non-empty name
      `names[k]` and non-empty dialogue `texts[k]`. */
  predicate SingleLines(lines: seq<string>, names: seq<string>, texts: seq<string>)
  {
    && |names| == |lines| && |texts| == |lines|
    && forall k :: 0 <= k < |lines| ==>
         Classify(lines[k]) == SpeakerLine(names[k], texts[k]) && names[k] != [] && texts[k] != []
  }

  function Events(names: seq<string>, texts: seq<string>): (r: seq<Event>)
    requires |names| == |texts|
    ensures |r| == |names|
  {
    seq(|names|, k requires 0 <= k < |names| => Event(names[k], texts[k]))
  }

  /** A run of speaker lines, each with a name and trimmed text after the
      colon, leaves the last one's block open and every earlier one closed. */
  lemma {:induction false} SpeakerRun(kinds: seq<LineKind>, names: seq<string>, texts: seq<string>)
    requires kinds != [] && |names| == |kinds| && |texts| == |kinds|
    requires forall k :: 0 <= k < |kinds| ==>
      kinds[k] == SpeakerLine(names[k], texts[k]) && names[k] != [] && texts[k] != [] && IsTrimmed(texts[k])
    ensures var n := |kinds|;
      RunFrom(Init, kinds) == ParserState(Events(names[..n - 1], texts[..n - 1]), Some(names[n - 1]), [texts[n - 1]])
  {
    var n := |kinds|;
    if n > 1 {
      SpeakerRun(kinds[..n - 1], names[..n - 1], texts[..n - 1]);
      var prev := RunFrom(Init, kinds[..n - 1]);
      FlushBlock(prev.items, names[n - 2], [texts[n - 2]]);
      assert Join([texts[n - 2]], " ") == texts[n - 2];
      assert names[..n - 1][..n - 2] == names[..n - 2];
      assert texts[..n - 1][..n - 2] == texts[..n - 2];
      assert Events(names[..n - 1], texts[..n - 1])
        == Events(names[..n - 2], texts[..n - 2]) + [Event(names[n - 2], texts[n - 2])];
    } else {
      RunOne(Init, kinds[0]);
      assert kinds == [kinds[0]];
    }
  }

  /** Single-line form: a script of `Name: dialogue` lines gives one event per
      line, in line order. */
  lemma SingleLineForm(lines: seq<string>, names: seq<string>, texts: seq<string>)
    requires SingleLines(lines, names, texts)
    ensures Parse(lines) == Events(names, texts)
  {
    var n := |lines|;
    if n > 0 {
      SingleKinds(lines, names, texts);
      SpeakerRun(Kinds(lines), names, texts);
      LastSpeakerClosed(names, texts);
    }
  }

  lemma SingleKinds(lines: seq<string>, names: seq<string>, texts: seq<string>)
    requires SingleLines(lines, names, texts)
    ensures forall k :: 0 <= k < |lines| ==>
      Kinds(lines)[k] == SpeakerLine(names[k], texts[k]) && names[k] != [] && texts[k] != [] && IsTrimmed(texts[k])
  {
    forall k | 0 <= k < |lines|
      ensures Kinds(lines)[k] == SpeakerLine(names[k], texts[k]) && names[k] != [] && texts[k] != [] && IsTrimmed(texts[k])
    {
      ClassifyAfterTrimmed(lines[k]);
    }
  }

  lemma LastSpeakerClosed(names: seq<string>, texts: seq<string>)
    requires |names| == |texts| > 0
    requires names[|names| - 1] != [] && texts[|texts| - 1] != [] && IsTrimmed(texts[|texts| - 1])
    ensures var n := |names|;
      Flush(ParserState(Events(names[..n - 1], texts[..n - 1]), Some(names[n - 1]), [texts[n - 1]])).items
        == Events(names, texts)
  {
    var n := |names|;
    FlushBlock(Events(names[..n - 1], texts[..n - 1]), names[n - 1], [texts[n - 1]]);
    assert Join([texts[n - 1]], " ") == texts[n - 1];
    assert Events(names, texts) == Events(names[..n - 1], texts[..n - 1]) + [Event(names[n - 1], texts[n - 1])];
  }

  // ---------------------------------------------------------------------------
  // detect_characters_from_blocks

  /** Some event of `items` is spoken by `name`. */
  predicate Speaks(items: seq<Event>, name: string)
  {
    exists k :: 0 <= k < |items| && items[k].speaker == name
  }

  /** `detect_characters_from_blocks`: the distinct speakers, sorted. */
  function Characters(items: seq<Event>): (r: seq<string>)
    ensures StrictlySorted(r)
    ensures forall x :: x in r <==> Speaks(items, x)
  {
    if items == [] then []
    else
      var n := |items|;
      var r := Insert(Characters(items[..n - 1]), items[n - 1].speaker);
      assert forall x :: Speaks(items, x) <==> Speaks(items[..n - 1], x) || x == items[n - 1].speaker by {
        forall x ensures Speaks(items, x) ==> Speaks(items[..n - 1], x) || x == items[n - 1].speaker {
          if Speaks(items, x) {
            var k :| 0 <= k < n && items[k].speaker == x;
            if k < n - 1 {
              assert items[..n - 1][k] == items[k];
            }
          }
        }
        forall x ensures Speaks(items[..n - 1], x) ==> Speaks(items, x) {
          if Speaks(items[..n - 1], x) {
            var k :| 0 <= k < n - 1 && items[..n - 1][k].speaker == x;
            assert items[k] == items[..n - 1][k];
          }
        }
      }
      r
  }

  /** The result is the only sorted, duplicate-free list of exactly the
      speakers, i.e. `sorted(set(...))`, and it has one entry per speaker. */
  lemma CharactersExact(items: seq<Event>, names: seq<string>)
    requires StrictlySorted(names)
    requires forall x :: x in names <==> Speaks(items, x)
    ensures names == Characters(items)
    ensures |Characters(items)| == |set e | e in items :: e.speaker|
  {
    SortedUnique(names, Characters(items));
    SortedCardinality(Characters(items));
    var c := Characters(items);
    forall x ensures x in (set e | e in items :: e.speaker) <==> x in c {
      if x in c {
        var k :| 0 <= k < |items| && items[k].speaker == x;
        assert items[k] in items;
      }
    }
    assert (set e | e in items :: e.speaker) == (set x | x in c);
  }
}
