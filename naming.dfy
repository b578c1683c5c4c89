/** `safe_filename`: the stem file name built from a character's name by
    lower-casing it, replacing every run of characters outside `[a-z0-9_-]`
    by one `_`, and stripping `_` from both ends. */
module Naming {

  import opened Text

  /** The characters the pattern `[^a-z0-9_\-]` leaves alone. */
  predicate Allowed(c: char)
  {
    ('a' <= c <= 'z') || ('0' <= c <= '9') || c == '_' || c == '-'
  }

  predicate AllAllowed(s: string)
  {
    forall i :: 0 <= i < |s| ==> Allowed(s[i])
  }

  /** A name `safe_filename` returns unchanged: only allowed characters and
      no `_` at either end. */
  predicate IsSafe(s: string)
  {
    AllAllowed(s) && (s == [] || (s[0] != '_' && s[|s| - 1] != '_'))
  }

  /** Drop the run of disallowed characters at the front of `s`. */
  function SkipRun(s: string): (r: string)
    ensures |r| <= |s| && r == s[|s| - |r|..]
    ensures r == [] || Allowed(r[0])
  {
    if s != [] && !Allowed(s[0]) then
      var r := SkipRun(s[1..]);
      assert s[1..][|s| - 1 - |r|..] == s[|s| - |r|..];
      r
    else s
  }

  /** `re.sub(r"[^a-z0-9_\-]+", "_", s)`: every maximal run of disallowed
      characters becomes a single `_`. */
  function SubRuns(s: string): (r: string)
    ensures AllAllowed(r)
    decreases |s|
  {
    if s == [] then []
    else if Allowed(s[0]) then [s[0]] + SubRuns(s[1..])
    else "_" + SubRuns(SkipRun(s[1..]))
  }

  /** `s.lstrip("_")`. */
  function StripLeadUnderscores(s: string): (r: string)
    ensures |r| <= |s| && r == s[|s| - |r|..]
    ensures r == [] || r[0] != '_'
  {
    if s != [] && s[0] == '_' then
      var r := StripLeadUnderscores(s[1..]);
      assert s[1..][|s| - 1 - |r|..] == s[|s| - |r|..];
      r
    else s
  }

  /** `s.rstrip("_")`. */
  function StripTrailUnderscores(s: string): (r: string)
    ensures |r| <= |s| && r == s[..|r|]
    ensures r == [] || r[|r| - 1] != '_'
  {
    if s != [] && s[|s| - 1] == '_' then StripTrailUnderscores(s[..|s| - 1]) else s
  }

  /** `s.strip("_")`. */
  function StripUnderscores(s: string): string
  {
    StripTrailUnderscores(StripLeadUnderscores(s))
  }

  /** `safe_filename`. */
  function SafeFilename(name: string): (r: string)
    ensures IsSafe(r)
  {
    var s := SubRuns(Lower(name));
    StripUnderscoresSafe(s);
    StripUnderscores(s)
  }

  /** Stripping `_` from a string of allowed characters leaves a safe one. */
  lemma StripUnderscoresSafe(s: string)
    requires AllAllowed(s)
    ensures IsSafe(StripUnderscores(s))
  {
    var l := StripLeadUnderscores(s);
    var r := StripTrailUnderscores(l);
    assert AllAllowed(l) by {
      forall i | 0 <= i < |l| ensures Allowed(l[i]) {
        assert l[i] == s[|s| - |l| + i];
      }
    }
    assert AllAllowed(r) by {
      forall i | 0 <= i < |r| ensures Allowed(r[i]) {
        assert r[i] == l[i];
      }
    }
    assert r != [] ==> r[0] != '_' by {
      if r != [] {
        assert r[0] == l[0];
      }
    }
  }

  lemma {:induction false} SubRunsAllowed(s: string)
    requires AllAllowed(s)
    ensures SubRuns(s) == s
  {
    if s != [] {
      SubRunsAllowed(s[1..]);
    }
  }

  lemma AllowedIsLower(s: string)
    requires AllAllowed(s)
    ensures Lower(s) == s
  {
    assert IsLower(s);
    LowerIsLower(s);
  }

  /** A safe name is a fixed point of `safe_filename`, and only a safe name
      is: the stem names it produces are exactly the safe names. */
  lemma SafeFixedPoint(s: string)
    ensures SafeFilename(s) == s <==> IsSafe(s)
  {
    if IsSafe(s) {
      AllowedIsLower(s);
      SubRunsAllowed(s);
    }
  }

  /** Applying `safe_filename` twice is the same as applying it once. */
  lemma SafeFilenameIdempotent(name: string)
    ensures SafeFilename(SafeFilename(name)) == SafeFilename(name)
  {
    SafeFixedPoint(SafeFilename(name));
  }

  /** Two characters can share a stem file name: a safe name and the same
      name followed by a mark such as `!` or `?` both give the bare name, so
      the archive gets two stems under one name. */
  lemma TrailingMarkDropped(w: string, c: char)
    requires IsSafe(w) && w != [] && !Allowed(c) && !IsUpper(c)
    ensures SafeFilename(w + [c]) == w
  {
    LowerMark(w, c);
    SubRunsMark(w, c);
    StripMarkUnderscore(w);
  }

  lemma LowerMark(w: string, c: char)
    requires AllAllowed(w) && !IsUpper(c)
    ensures Lower(w + [c]) == w + [c]
  {
    AllowedIsLower(w);
    assert forall i :: 0 <= i < |w| ==> (w + [c])[i] == w[i] && LowerChar(w[i]) == w[i];
  }

  /** The `_` a trailing mark became is stripped again, and nothing else. */
  lemma StripMarkUnderscore(w: string)
    requires IsSafe(w) && w != []
    ensures StripUnderscores(w + "_") == w
  {
    var u := w + "_";
    assert u[0] == w[0];
    assert StripLeadUnderscores(u) == u;
    assert u[..|u| - 1] == w;
    assert StripTrailUnderscores(u) == StripTrailUnderscores(w);
  }

  lemma {:induction false} SubRunsMark(w: string, c: char)
    requires AllAllowed(w) && !Allowed(c)
    ensures SubRuns(w + [c]) == w + "_"
  {
    if w == [] {
      assert SubRuns([c]) == "_" + SubRuns(SkipRun([]));
    } else {
      SubRunsMark(w[1..], c);
      assert (w + [c])[1..] == w[1..] + [c];
    }
  }

  lemma StemNamesCollide()
    ensures SafeFilename("ann" + "!") == SafeFilename("ann" + "?") == SafeFilename("ann")
  {
    assert IsSafe("ann");
    SafeFixedPoint("ann");
    TrailingMarkDropped("ann", '!');
    TrailingMarkDropped("ann", '?');
  }
}
