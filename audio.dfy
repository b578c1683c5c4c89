/** Audio as the mixer sees it: a clip is one sample per millisecond, so its
    length is its duration, and appending with no crossfade is
    concatenation. */
module Audio {

  type Clip = seq<int>

  /** `AudioSegment.silent(duration=n)`. */
  function Silence(n: nat): (r: Clip)
    ensures |r| == n
    ensures forall i :: 0 <= i < n ==> r[i] == 0
  {
    seq(n, _ => 0)
  }

  /** Every sample of `c` is silent. */
  predicate Silent(c: Clip)
  {
    forall i :: 0 <= i < |c| ==> c[i] == 0
  }
}
