/** The bounded retry loops around the text-to-speech requests. Each of the
    `RETRIES` attempts either raises a request exception or returns a reply;
    the loop stops early on a reply its policy accepts, and when it never
    stops (the `for ... else` branch) no clip is made. */
module Retry {

  import opened Wrappers
  import opened Audio
  import opened Cadence

  const Retries := 3
  /** `CLIP_TAIL_PAD_MS` in the ElevenLabs/Hume app and the stem app. */
  const TailPad := 60
  /** `CLIP_TAIL_PAD_MS` in the single-track app. */
  const SingleTrackTailPad := 120
  const Ok := 200

  /** What one `requests.post` gave: an exception, or a reply with its status
      code and body bytes. */
  datatype Attempt = Raised | Reply(status: int, body: seq<int>)

  /** When the loop breaks. */
  datatype Policy =
    | UntilAudio   // status 200 and a non-empty body (ElevenLabs requests)
    | UntilOk      // status 200 (Hume requests)
    | UntilReply   // any reply at all (single-track app)

  predicate Stops(p: Policy, a: Attempt)
  {
    a.Reply? &&
    match p
    case UntilAudio => a.status == Ok && a.body != []
    case UntilOk => a.status == Ok
    case UntilReply => true
  }

  /** The attempt the loop breaks on. */
  function FirstStop(p: Policy, attempts: seq<Attempt>): (r: Option<nat>)
    ensures r.Some? ==> r.value < |attempts| && Stops(p, attempts[r.value])
  {
    if attempts == [] then None
    else if Stops(p, attempts[0]) then Some(0)
    else match FirstStop(p, attempts[1..])
      case None => None
      case Some(k) => Some(k + 1)
  }

  /** The loop breaks on the first attempt the policy accepts, and on none
      when no attempt is accepted. */
  lemma {:induction false} FirstStopFirst(p: Policy, attempts: seq<Attempt>)
    ensures FirstStop(p, attempts).None? <==> forall j :: 0 <= j < |attempts| ==> !Stops(p, attempts[j])
    ensures FirstStop(p, attempts).Some? ==>
      forall j :: 0 <= j < FirstStop(p, attempts).value ==> !Stops(p, attempts[j])
  {
    if attempts != [] {
      FirstStopFirst(p, attempts[1..]);
      forall j | 1 <= j < |attempts| ensures attempts[j] == attempts[1..][j - 1] { }
    }
  }

  /** The clip a request produces: nothing when the loop never breaks or the
      reply it broke on is not a 200, else the decoded body followed by
      `pad` ms of silence. `decode` stands for the audio library's decoder
      (the fades it is followed by do not change the length). */
  function Fetch(p: Policy, attempts: seq<Attempt>, decode: seq<int> -> Clip, pad: nat): (r: Option<Clip>)
    requires |attempts| == Retries
    ensures r.Some? ==> FirstStop(p, attempts).Some? && attempts[FirstStop(p, attempts).value].status == Ok
    ensures r.Some? ==> |r.value| >= pad
  {
    match FirstStop(p, attempts)
    case None => None
    case Some(k) =>
      if attempts[k].status != Ok then None else Some(decode(attempts[k].body) + Silence(pad))
  }

  /** The retry loop and the status check after it. */
  method Request(p: Policy, attempts: seq<Attempt>, decode: seq<int> -> Clip, pad: nat) returns (clip: Option<Clip>)
    requires |attempts| == Retries
    ensures clip == Fetch(p, attempts, decode, pad)
  {
    var response: Attempt := Raised;
    var broke := false;
    var i := 0;
    while i < Retries
      invariant 0 <= i <= Retries
      invariant forall j :: 0 <= j < i ==> !Stops(p, attempts[j])
    {
      var a := attempts[i];
      if a.Reply? {
        response := a;
        if Stops(p, a) {
          broke := true;
          break;
        }
      }
      i := i + 1;
    }
    FirstStopFirst(p, attempts);
    if !broke {
      return None;
    }
    assert FirstStop(p, attempts) == Some(i) by {
      var f := FirstStop(p, attempts);
      assert Stops(p, attempts[i]);
      assert f.Some? && Stops(p, attempts[f.value]);
    }
    if response.status != Ok {
      return None;
    }
    clip := Some(decode(response.body) + Silence(pad));
  }

  /** Under the two stricter policies the loop only breaks on a 200, so the
      error branch after it is never taken. */
  lemma StatusCheckUnreachable(p: Policy, attempts: seq<Attempt>)
    requires p != UntilReply && FirstStop(p, attempts).Some?
    ensures attempts[FirstStop(p, attempts).value].status == Ok
  {
  }

  /** A clip is made iff one of the attempts is a 200 reply with a
      non-empty body; it is the first such reply, decoded and padded. */
  lemma FetchUntilAudio(attempts: seq<Attempt>, decode: seq<int> -> Clip, pad: nat)
    requires |attempts| == Retries
    ensures Fetch(UntilAudio, attempts, decode, pad).Some? <==>
      exists k :: 0 <= k < Retries && attempts[k].Reply? && attempts[k].status == Ok && attempts[k].body != []
    ensures Fetch(UntilAudio, attempts, decode, pad).Some? ==>
      var k := FirstStop(UntilAudio, attempts).value;
      Fetch(UntilAudio, attempts, decode, pad).value == decode(attempts[k].body) + Silence(pad) &&
      |Fetch(UntilAudio, attempts, decode, pad).value| == |decode(attempts[k].body)| + pad
  {
    FirstStopFirst(UntilAudio, attempts);
  }

  /** A clip is made iff one of the attempts is a 200 reply. */
  lemma FetchUntilOk(attempts: seq<Attempt>, decode: seq<int> -> Clip, pad: nat)
    requires |attempts| == Retries
    ensures Fetch(UntilOk, attempts, decode, pad).Some? <==>
      exists k :: 0 <= k < Retries && attempts[k].Reply? && attempts[k].status == Ok
  {
    FirstStopFirst(UntilOk, attempts);
  }

  /** A clip is made iff the first attempt that does not raise is a 200
      reply: a later 200 is never asked for. */
  lemma FetchUntilReply(attempts: seq<Attempt>, decode: seq<int> -> Clip, pad: nat)
    requires |attempts| == Retries
    ensures Fetch(UntilReply, attempts, decode, pad).Some? <==>
      exists k :: 0 <= k < Retries && attempts[k].Reply? && attempts[k].status == Ok &&
        forall j :: 0 <= j < k ==> attempts[j].Raised?
  {
    FirstStopFirst(UntilReply, attempts);
    var f := FirstStop(UntilReply, attempts);
    if f.Some? && attempts[f.value].status == Ok {
      assert forall j :: 0 <= j < f.value ==> attempts[j].Raised?;
    }
    if exists k :: 0 <= k < Retries && attempts[k].Reply? && attempts[k].status == Ok &&
        forall j :: 0 <= j < k ==> attempts[j].Raised? {
      var k :| 0 <= k < Retries && attempts[k].Reply? && attempts[k].status == Ok &&
        forall j :: 0 <= j < k ==> attempts[j].Raised?;
      assert f == Some(k) by {
        assert Stops(UntilReply, attempts[k]);
        assert f.Some? && attempts[f.value].Reply?;
      }
    }
  }

  /** The policies differ: a 500 followed by a 200 gives a clip when the loop
      waits for audio and none when it stops at the first reply. */
  lemma PoliciesDiffer(decode: seq<int> -> Clip)
    ensures Fetch(UntilAudio, [Reply(500, [1]), Reply(Ok, [1]), Raised], decode, TailPad).Some?
    ensures Fetch(UntilReply, [Reply(500, [1]), Reply(Ok, [1]), Raised], decode, SingleTrackTailPad).None?
  {
    var attempts := [Reply(500, [1]), Reply(Ok, [1]), Raised];
    assert attempts[1..][0] == Reply(Ok, [1]);
    assert FirstStop(UntilAudio, attempts) == Some(1);
    assert FirstStop(UntilReply, attempts) == Some(0);
  }

  // ---------------------------------------------------------------------------
  // The generators

  /** The clip `generate_audio_eleven` (and the stem app's
      `generate_audio`) returns. */
  function ElevenClip(text: string, attempts: seq<Attempt>, decode: seq<int> -> Clip): (r: Option<Clip>)
    requires |attempts| == Retries
    ensures r.Some? ==> EnsureLineTail(text) != [] && |r.value| >= TailPad
  {
    if EnsureLineTail(text) == [] then None else Fetch(UntilAudio, attempts, decode, TailPad)
  }

  method GenerateAudioEleven(text: string, attempts: seq<Attempt>, decode: seq<int> -> Clip) returns (clip: Option<Clip>)
    requires |attempts| == Retries
    ensures clip == ElevenClip(text, attempts, decode)
  {
    var t := EnsureLineTail(text);
    if t == [] {
      return None;
    }
    clip := Request(UntilAudio, attempts, decode, TailPad);
  }

  /** The ElevenLabs generator yields a clip iff the normalised line is
      non-empty and some attempt returned audio; the clip lasts the decoded
      audio plus the tail pad. */
  lemma ElevenClipSpec(text: string, attempts: seq<Attempt>, decode: seq<int> -> Clip)
    requires |attempts| == Retries
    ensures ElevenClip(text, attempts, decode).Some? <==>
      EnsureLineTail(text) != [] &&
      exists k :: 0 <= k < Retries && attempts[k].Reply? && attempts[k].status == Ok && attempts[k].body != []
    ensures ElevenClip(text, attempts, decode).Some? ==>
      |ElevenClip(text, attempts, decode).value| == |decode(attempts[FirstStop(UntilAudio, attempts).value].body)| + TailPad
  {
    FetchUntilAudio(attempts, decode, TailPad);
  }

  /** The clip `generate_audio_hume` returns; `hasKey` is whether a Hume API
      key is configured. */
  function HumeClip(hasKey: bool, attempts: seq<Attempt>, decode: seq<int> -> Clip): (r: Option<Clip>)
    requires |attempts| == Retries
    ensures r.Some? ==> hasKey && |r.value| >= TailPad
  {
    if !hasKey then None else Fetch(UntilOk, attempts, decode, TailPad)
  }

  method GenerateAudioHume(hasKey: bool, attempts: seq<Attempt>, decode: seq<int> -> Clip) returns (clip: Option<Clip>)
    requires |attempts| == Retries
    ensures clip == HumeClip(hasKey, attempts, decode)
  {
    if !hasKey {
      return None;
    }
    clip := Request(UntilOk, attempts, decode, TailPad);
  }

  /** The Hume generator yields a clip iff a key is set and some attempt
      returned status 200. */
  lemma HumeClipSpec(hasKey: bool, attempts: seq<Attempt>, decode: seq<int> -> Clip)
    requires |attempts| == Retries
    ensures HumeClip(hasKey, attempts, decode).Some? <==>
      hasKey && exists k :: 0 <= k < Retries && attempts[k].Reply? && attempts[k].status == Ok
  {
    FetchUntilOk(attempts, decode, TailPad);
  }

  /** The clip the single-track app's `generate_audio` returns. */
  function SingleTrackClip(text: string, attempts: seq<Attempt>, decode: seq<int> -> Clip): (r: Option<Clip>)
    requires |attempts| == Retries
    ensures r.Some? ==> EnsureLineTail(text) != [] && |r.value| >= SingleTrackTailPad
  {
    if EnsureLineTail(text) == [] then None else Fetch(UntilReply, attempts, decode, SingleTrackTailPad)
  }

  method GenerateAudioSingleTrack(text: string, attempts: seq<Attempt>, decode: seq<int> -> Clip) returns (clip: Option<Clip>)
    requires |attempts| == Retries
    ensures clip == SingleTrackClip(text, attempts, decode)
  {
    var t := EnsureLineTail(text);
    if t == [] {
      return None;
    }
    clip := Request(UntilReply, attempts, decode, SingleTrackTailPad);
  }

  /** The single-track generator yields a clip iff the normalised line is
      non-empty and the first attempt that does not raise is a 200. */
  lemma SingleTrackClipSpec(text: string, attempts: seq<Attempt>, decode: seq<int> -> Clip)
    requires |attempts| == Retries
    ensures SingleTrackClip(text, attempts, decode).Some? <==>
      EnsureLineTail(text) != [] &&
      exists k :: 0 <= k < Retries && attempts[k].Reply? && attempts[k].status == Ok &&
        forall j :: 0 <= j < k ==> attempts[j].Raised?
  {
    FetchUntilReply(attempts, decode, SingleTrackTailPad);
  }
}
