/** The cadence normaliser run on every line before it is sent to
    ElevenLabs (identical in all three apps): `strip_unknown_brackets` removes
    every bracketed tag except the three pause tags, and `ensure_line_tail`
    makes every non-empty line end in a pause tag. */
module Cadence {

  import opened Wrappers
  import opened Text

  /** The members of `ALLOWED_PAUSE_TAGS`. */
  const Pause := "[pause]"
  const ShortPause := "[short pause]"
  const LongPause := "[long pause]"

  predicate IsPauseTag(t: string)
  {
    t == Pause || t == ShortPause || t == LongPause
  }

  /** `Lower(x) == y`, one character at a time. */
  predicate LowerEquals(x: string, y: string)
  {
    |x| == |y| && (x == [] || (LowerChar(x[0]) == y[0] && LowerEquals(x[1..], y[1..])))
  }

  lemma {:induction false} LowerEqualsLower(x: string, y: string)
    ensures LowerEquals(x, y) <==> Lower(x) == y
  {
    if x != [] && |x| == |y| {
      LowerEqualsLower(x[1..], y[1..]);
      assert Lower(x) == [LowerChar(x[0])] + Lower(x[1..]);
      assert y == [y[0]] + y[1..];
    }
  }

  /** The `repl` test `m.group(0).strip().lower() in ALLOWED_PAUSE_TAGS`
      (`strip` does nothing to a match, which starts with `[` and ends with
      `]`). */
  predicate Kept(m: string)
  {
    LowerEquals(m, Pause) || LowerEquals(m, ShortPause) || LowerEquals(m, LongPause)
  }

  lemma KeptIsPauseTag(m: string)
    ensures Kept(m) <==> IsPauseTag(Lower(m))
  {
    LowerEqualsLower(m, Pause);
    LowerEqualsLower(m, ShortPause);
    LowerEqualsLower(m, LongPause);
  }

  /** A whole match of `\[[^\]]+\]`: a `[`, one or more characters other
      than `]`, and the closing `]`. */
  predicate IsTagMatch(t: string)
  {
    |t| >= 3 && t[0] == '[' && t[|t| - 1] == ']' && ']' !in t[1..|t| - 1]
  }

  /** The length of the match of `\[[^\]]+\]` at the start of `s`, or 0 when
      the pattern does not match there. The bracket class cannot hold `]`, so
      a match ends at the first `]` after the `[`, and it needs at least one
      character between the two. */
  function MatchLength(s: string): (n: nat)
    ensures n == 0 || 3 <= n <= |s|
  {
    if s != [] && s[0] == '[' then
      match IndexOf(s[1..], ']')
      case Some(j) => if j >= 1 then j + 2 else 0
      case None => 0
    else 0
  }

  /** What `MatchLength` finds is a whole match. */
  lemma MatchIsTag(s: string)
    requires MatchLength(s) > 0
    ensures IsTagMatch(s[..MatchLength(s)])
  {
    var j := MatchLength(s) - 2;
    IndexOfFirst(s[1..], ']');
    assert s[..j + 2][1..j + 1] == s[1..][..j];
  }

  /** The substitution `re.sub(r"\[[^\]]+\]", repl, s)`: scanning left to
      right, each match is kept verbatim when its lower-cased form is a pause
      tag and deleted otherwise; every other character is copied. */
  function Rewrite(s: string): (r: string)
    ensures |r| <= |s|
    decreases |s|
  {
    if s == [] then []
    else
      var n := MatchLength(s);
      if n > 0 then
        var m := s[..n];
        (if Kept(m) then m else []) + Rewrite(s[n..])
      else
        [s[0]] + Rewrite(s[1..])
  }

  /** `strip_unknown_brackets`. */
  function StripUnknownBrackets(s: string): (r: string)
    ensures IsTrimmed(r) && |r| <= |s|
  {
    Strip(Rewrite(s))
  }

  /** Where no tag starts (a character other than `[`, or a `[` without a
      later `]` or with nothing before it), the character is copied; with
      `RewriteTag` this gives one step of `Rewrite` on every input. */
  lemma NoMatch(s: string)
    requires s != [] && MatchLength(s) == 0
    ensures Rewrite(s) == [s[0]] + Rewrite(s[1..])
  {
  }

  /** Removing tags invents no character. */
  lemma {:induction false} RewriteKeepsOut(s: string, c: char)
    requires c !in s
    ensures c !in Rewrite(s)
    decreases |s|
  {
    if s != [] {
      var n := MatchLength(s);
      if n > 0 {
        RewriteKeepsOut(s[n..], c);
        assert c !in s[..n];
      } else {
        RewriteKeepsOut(s[1..], c);
      }
    }
  }

  /** Text before the first `[` is copied unchanged. */
  lemma {:induction false} RewritePrefix(a: string, b: string)
    requires '[' !in a
    ensures Rewrite(a + b) == a + Rewrite(b)
  {
    if a != [] {
      assert (a + b)[0] == a[0];
      assert (a + b)[1..] == a[1..] + b;
      NoMatch(a + b);
      RewritePrefix(a[1..], b);
    } else {
      assert a + b == b;
    }
  }

  /** Text without `[` has no tag to remove. */
  lemma RewriteNoBracket(s: string)
    requires '[' !in s
    ensures Rewrite(s) == s
  {
    RewritePrefix(s, []);
    assert s + [] == s;
  }

  /** A whole tag is matched as one piece. */
  lemma MatchOfTag(tag: string, b: string)
    requires IsTagMatch(tag)
    ensures MatchLength(tag + b) == |tag|
  {
    var s := tag + b;
    var j := |tag| - 2;
    assert s[1..] == tag[1..|tag| - 1] + ([']'] + b);
    IndexOfPrefix(tag[1..|tag| - 1], [']'] + b, ']');
    assert IndexOf(s[1..], ']') == Some(j);
  }

  /** A tag at the front is kept or deleted as a whole. */
  lemma RewriteTag(tag: string, b: string)
    requires IsTagMatch(tag)
    ensures Rewrite(tag + b) == (if Kept(tag) then tag else []) + Rewrite(b)
  {
    MatchOfTag(tag, b);
    assert (tag + b)[..|tag|] == tag && (tag + b)[|tag|..] == b;
  }

  /** A pause tag (in any letter case) is kept verbatim. */
  lemma KeepsPauseTag(a: string, tag: string, b: string)
    requires '[' !in a && IsTagMatch(tag) && IsPauseTag(Lower(tag))
    ensures Rewrite(a + tag + b) == a + tag + Rewrite(b)
  {
    KeptIsPauseTag(tag);
    KeepsKept(a, tag, b);
  }

  lemma KeepsKept(a: string, tag: string, b: string)
    requires '[' !in a && IsTagMatch(tag) && Kept(tag)
    ensures Rewrite(a + tag + b) == a + tag + Rewrite(b)
  {
    assert a + tag + b == a + (tag + b);
    RewritePrefix(a, tag + b);
    RewriteTag(tag, b);
  }

  /** Any other tag is deleted. */
  lemma DropsOtherTag(a: string, tag: string, b: string)
    requires '[' !in a && IsTagMatch(tag) && !IsPauseTag(Lower(tag))
    ensures Rewrite(a + tag + b) == a + Rewrite(b)
  {
    KeptIsPauseTag(tag);
    DroppedTag(tag, b);
    assert a + tag + b == a + (tag + b);
    RewritePrefix(a, tag + b);
  }

  lemma DroppedTag(tag: string, b: string)
    requires IsTagMatch(tag) && !Kept(tag)
    ensures Rewrite(tag + b) == Rewrite(b)
  {
    RewriteTag(tag, b);
  }

  /** The tail test `(\[short pause\]|\[pause\]|\[long pause\])\s*$` on a
      stripped line: it ends with one of the three tags, in lower case. */
  predicate HasPauseTail(t: string)
  {
    EndsWith(t, ShortPause) || EndsWith(t, Pause) || EndsWith(t, LongPause)
  }

  predicate EndsWithPunct(t: string)
  {
    t != [] && (t[|t| - 1] == '.' || t[|t| - 1] == '!' || t[|t| - 1] == '?' || t[|t| - 1] == ',')
  }

  /** The tail `ensure_line_tail` gives a stripped, non-empty line. */
  function AddTail(t: string): (r: string)
    ensures t != [] ==> StartsWith(r, t) && HasPauseTail(r)
    ensures t != [] && !HasPauseTail(t) && !EndsWithPunct(t) ==> r == t + "." + " " + ShortPause
    ensures t != [] && !HasPauseTail(t) && EndsWithPunct(t) ==> r == t + " " + ShortPause
    ensures r == t <==> t == [] || HasPauseTail(t)
  {
    if t == [] then t
    else if !HasPauseTail(t) then
      var u := if !EndsWithPunct(t) then t + "." else t;
      EndsWithConcat(u + " ", ShortPause);
      assert (u + " " + ShortPause)[..|t|] == t;
      u + " " + ShortPause
    else t
  }

  /** `ensure_line_tail`: the bracket-stripped line, ending in a pause tag
      (a `.` and ` [short pause]` are added when it has none). */
  function EnsureLineTail(text: string): (r: string)
    ensures StripUnknownBrackets(Strip(text)) == [] <==> r == []
    ensures r != [] ==> StartsWith(r, StripUnknownBrackets(Strip(text))) && HasPauseTail(r)
  {
    AddTail(StripUnknownBrackets(Strip(text)))
  }

  // ---------------------------------------------------------------------------
  // Stability: a line the normaliser produced from bracket-free text is left
  // as it is by a second pass.

  lemma {:induction false} LowerEqualsSelf(x: string)
    requires IsLower(x)
    ensures LowerEquals(x, x)
  {
    if x != [] {
      assert IsLower(x[1..]) by {
        forall k | 0 <= k < |x[1..]| ensures !IsUpper(x[1..][k]) {
          assert x[1..][k] == x[k + 1];
        }
      }
      LowerEqualsSelf(x[1..]);
    }
  }

  lemma ShortPauseKept()
    ensures IsTagMatch(ShortPause) && Kept(ShortPause)
  {
    ShortPauseIsTag();
    assert IsLower(ShortPause);
    LowerEqualsSelf(ShortPause);
  }

  lemma ShortPauseIsTag()
    ensures IsTagMatch(ShortPause)
  {
    assert ShortPause[1..|ShortPause| - 1] == "short pause";
  }

  /** A suffix ends the string, so its first character occurs in it. */
  lemma EndsWithHas(s: string, p: string)
    requires EndsWith(s, p) && p != []
    ensures p[0] in s
  {
    assert s[|s| - |p|] == p[0];
  }

  lemma NoBracketNoTail(t: string)
    requires '[' !in t
    ensures !HasPauseTail(t)
  {
    if EndsWith(t, ShortPause) { EndsWithHas(t, ShortPause); }
    if EndsWith(t, Pause) { EndsWithHas(t, Pause); }
    if EndsWith(t, LongPause) { EndsWithHas(t, LongPause); }
  }

  /** The bracket pass keeps a line that is bracket-free text followed by
      ` [short pause]`. */
  lemma TailedKept(u: string)
    requires u != [] && !IsSpace(u[0]) && '[' !in u
    ensures StripUnknownBrackets(u + " " + ShortPause) == u + " " + ShortPause
  {
    var r := u + " " + ShortPause;
    assert Rewrite(r) == r by {
      ShortPauseKept();
      assert r == (u + " ") + ShortPause + [];
      KeepsKept(u + " ", ShortPause, []);
    }
    assert IsTrimmed(r) by {
      assert r[0] == u[0] && r[|r| - 1] == ']';
    }
    StripTrimmed(r);
  }

  /** On bracket-free text, `ensure_line_tail` is idempotent: its output
      already ends in a pause tag and is passed through unchanged. */
  lemma EnsureLineTailStable(text: string)
    requires '[' !in text
    ensures EnsureLineTail(EnsureLineTail(text)) == EnsureLineTail(text)
  {
    var t := Strip(text);
    StripKeepsOut(text, '[');
    RewriteNoBracket(t);
    StripIdempotent(text);
    assert StripUnknownBrackets(t) == t;
    if t != [] {
      NoBracketNoTail(t);
      var u := if !EndsWithPunct(t) then t + "." else t;
      assert u[0] == t[0];
      assert '[' !in u;
      var r := EnsureLineTail(text);
      assert r == u + " " + ShortPause;
      TailedKept(u);
      assert r[0] == u[0] && r[|r| - 1] == ']';
      StripTrimmed(r);
    }
  }

  /** Without that hypothesis a second pass can differ: a stray `[` in the
      line pairs with the `]` of the added tail, and the second pass deletes
      both. */
  lemma StrayBracketNotStable()
    ensures EnsureLineTail("x[") == "x[" + "." + " " + ShortPause
    ensures EnsureLineTail(EnsureLineTail("x[")) == "x" + "." + " " + ShortPause
  {
    StrayBracketFirstPass();
    StrayBracketSecondPass();
  }

  lemma StrayBracketFirstPass()
    ensures EnsureLineTail("x[") == "x[" + "." + " " + ShortPause
  {
    var t := "x[";
    assert Rewrite(t) == t by {
      NoMatch(t);
      assert t[1..] == "[";
      assert MatchLength("[") == 0;
    }
    StripTrimmed(t);
    assert !HasPauseTail(t) && !EndsWithPunct(t);
  }

  lemma StrayBracketSecondPass()
    ensures EnsureLineTail("x[" + "." + " " + ShortPause) == "x" + "." + " " + ShortPause
  {
    var r := "x[" + "." + " " + ShortPause;
    var tag := "[" + "." + " " + ShortPause;
    assert Rewrite(r) == "x" by {
      assert IsTagMatch(tag) by {
        assert tag[1..|tag| - 1] == "." + " " + ShortPause[..|ShortPause| - 1];
        assert ']' !in ShortPause[..|ShortPause| - 1];
      }
      assert !Kept(tag);
      assert r == "x" + tag;
      NoMatch(r);
      assert r[1..] == tag + [];
      DroppedTag(tag, []);
    }
    assert Strip(r) == r by { StripTrimmed(r); }
    assert Strip("x") == "x" by { StripTrimmed("x"); }
    assert !HasPauseTail("x") && !EndsWithPunct("x");
  }

  // ---------------------------------------------------------------------------
  // Examples

  /** Plain text gets a full stop and the short pause. */
  lemma PlainLineExample()
    ensures EnsureLineTail("Hello") == "Hello" + "." + " " + ShortPause
  {
    var t := "Hello";
    assert IsTrimmed(t);
    StripTrimmed(t);
    RewriteNoBracket(t);
    NoBracketNoTail(t);
  }

  /** A line that already ends in a pause tag is kept as it is. */
  lemma PausedLineExample()
    ensures EnsureLineTail("Wait " + Pause) == "Wait " + Pause
  {
    var t := "Wait " + Pause;
    assert Rewrite(t) == t by {
      assert IsTagMatch(Pause) by {
        assert Pause[1..|Pause| - 1] == "pause";
      }
      assert Kept(Pause) by {
        assert IsLower(Pause);
        LowerEqualsSelf(Pause);
      }
      assert t == "Wait " + Pause + [];
      KeepsKept("Wait ", Pause, []);
    }
    assert IsTrimmed(t);
    StripTrimmed(t);
    assert EndsWith(t, Pause) by { EndsWithConcat("Wait ", Pause); }
  }

  /** A line that opens with an unknown tag is voiced without it: the tag
      is deleted and the space after it stripped. */
  lemma UnknownTagDropped(tag: string, w: string)
    requires IsTagMatch(tag) && !IsPauseTag(Lower(tag))
    requires w != [] && IsTrimmed(w) && '[' !in w
    ensures EnsureLineTail(tag + " " + w) == AddTail(w)
  {
    KeptIsPauseTag(tag);
    UnkeptTagDropped(tag, w);
  }

  lemma UnkeptTagDropped(tag: string, w: string)
    requires IsTagMatch(tag) && !Kept(tag)
    requires w != [] && IsTrimmed(w) && '[' !in w
    ensures EnsureLineTail(tag + " " + w) == AddTail(w)
  {
    var t := tag + " " + w;
    assert Strip(t) == t by {
      assert t[0] == '[' && t[|t| - 1] == w[|w| - 1];
      StripTrimmed(t);
    }
    assert Rewrite(t) == " " + w by {
      assert t == tag + (" " + w);
      DroppedTag(tag, " " + w);
      RewriteNoBracket(" " + w);
    }
    assert Strip(" " + w) == w by {
      assert (" " + w)[1..] == w;
      StripTrimmed(w);
    }
  }

  /** The same for the line `[explosion] Hi!`. */
  lemma UnknownTagExample()
    ensures EnsureLineTail("[explosion]" + " " + "Hi!") == "Hi!" + " " + ShortPause
  {
    ExplosionTag();
    HiTail();
    UnkeptTagDropped("[explosion]", "Hi!");
  }

  lemma ExplosionTag()
    ensures IsTagMatch("[explosion]") && !Kept("[explosion]")
  {
    var tag := "[explosion]";
    assert tag[1..|tag| - 1] == "explosion";
  }

  lemma HiTail()
    ensures "Hi!" != [] && IsTrimmed("Hi!") && '[' !in "Hi!"
    ensures AddTail("Hi!") == "Hi!" + " " + ShortPause
  {
    NoBracketNoTail("Hi!");
  }
}
