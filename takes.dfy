/** Recorded-file takes: `parse_take_sequence` reads the take numbers a
    character's lines cycle through, and the mixer picks the take for the
    k-th recorded line of that character. */
module Takes {

  import opened Wrappers
  import opened Text

  predicate IsDigit(c: char)
  {
    '0' <= c <= '9'
  }

  predicate AllDigits(s: string)
  {
    forall i :: 0 <= i < |s| ==> IsDigit(s[i])
  }

  /** The value of a string of decimal digits (leading zeros allowed). */
  function DigitsValue(s: string): nat
    requires AllDigits(s)
  {
    if s == [] then 0 else DigitsValue(s[..|s| - 1]) * 10 + (s[|s| - 1] as int - '0' as int)
  }

  /** Python's `int()` on an already stripped string: an optional sign and
      one or more decimal digits; anything else raises `ValueError`, here
      `None`. */
  function ParseInt(s: string): (r: Option<int>)
    ensures r.Some? ==> s != [] && (IsDigit(s[0]) || s[0] == '+' || s[0] == '-')
  {
    if s != [] && (s[0] == '+' || s[0] == '-') then
      var digits := s[1..];
      if digits != [] && AllDigits(digits) then
        var v: int := DigitsValue(digits);
        Some(if s[0] == '-' then -v else v)
      else None
    else if s != [] && AllDigits(s) then Some(DigitsValue(s))
    else None
  }

  /** The take numbers the comma-separated parts give, left to right: each
      stripped, non-empty part that parses as an integer. */
  function PartValues(parts: seq<string>): (r: seq<int>)
    ensures |r| <= |parts|
  {
    if parts == [] then []
    else
      var n := |parts|;
      var part := Strip(parts[n - 1]);
      PartValues(parts[..n - 1]) + (if part != [] && ParseInt(part).Some? then [ParseInt(part).value] else [])
  }

  /** What `parse_take_sequence` returns. */
  function TakeSequence(text: string): (r: seq<int>)
    ensures Strip(text) == [] ==> r == []
    ensures |r| <= |SplitOn(Strip(text), ',')|
  {
    var s := Strip(text);
    if s == [] then [] else PartValues(SplitOn(s, ','))
  }

  /** `parse_take_sequence`. */
  method ParseTakeSequence(text: string) returns (out: seq<int>)
    ensures out == TakeSequence(text)
    ensures Strip(text) == [] ==> out == []
    ensures |out| <= |SplitOn(Strip(text), ',')|
  {
    var s := Strip(text);
    if s == [] {
      return [];
    }
    out := [];
    var parts := SplitOn(s, ',');
    var i := 0;
    while i < |parts|
      invariant 0 <= i <= |parts|
      invariant out == PartValues(parts[..i])
    {
      assert parts[..i + 1][..i] == parts[..i];
      var part := Strip(parts[i]);
      if part == [] {
        i := i + 1;
        continue;
      }
      var n := ParseInt(part);
      if n.Some? {
        out := out + [n.value];
      }
      i := i + 1;
    }
    assert parts[..i] == parts;
  }

  // ---------------------------------------------------------------------------
  // Round trip: writing numbers out and reading them back

  function DigitChar(d: nat): char
    requires d < 10
  {
    ('0' as int + d) as char
  }

  /** `str(n)` for `n >= 0`. */
  function Digits(n: nat): (r: string)
    ensures r != [] && AllDigits(r)
  {
    if n < 10 then [DigitChar(n)] else Digits(n / 10) + [DigitChar(n % 10)]
  }

  /** `str(n)`. */
  function Show(n: int): string
  {
    if n < 0 then "-" + Digits(-n) else Digits(n)
  }

  lemma {:induction false} DigitsRoundTrip(n: nat)
    ensures DigitsValue(Digits(n)) == n
  {
    if n >= 10 {
      DigitsRoundTrip(n / 10);
      var d := Digits(n);
      assert d[..|d| - 1] == Digits(n / 10);
    }
  }

  /** `int(str(n)) == n`. */
  lemma ParseShow(n: int)
    ensures ParseInt(Show(n)) == Some(n)
  {
    if n < 0 {
      DigitsRoundTrip(-n);
      assert Show(n)[1..] == Digits(-n);
    } else {
      DigitsRoundTrip(n);
    }
  }

  lemma ShowShape(n: int)
    ensures Show(n) != [] && IsTrimmed(Show(n)) && ',' !in Show(n)
  {
    var d := if n < 0 then Digits(-n) else Digits(n);
    assert d[|d| - 1] == Show(n)[|Show(n)| - 1];
    forall k | 0 <= k < |Show(n)| ensures Show(n)[k] != ',' {
      if n < 0 && k > 0 {
        assert Show(n)[k] == d[k - 1];
      }
    }
  }

  function ShowAll(ns: seq<int>): (r: seq<string>)
    ensures |r| == |ns|
  {
    seq(|ns|, k requires 0 <= k < |ns| => Show(ns[k]))
  }

  lemma {:induction false} PartValuesShown(ns: seq<int>)
    ensures PartValues(ShowAll(ns)) == ns
  {
    if ns != [] {
      var n := |ns|;
      assert ShowAll(ns)[..n - 1] == ShowAll(ns[..n - 1]);
      PartValuesShown(ns[..n - 1]);
      ShowShape(ns[n - 1]);
      StripTrimmed(Show(ns[n - 1]));
      ParseShow(ns[n - 1]);
      assert ns == ns[..n - 1] + [ns[n - 1]];
    }
  }

  lemma {:induction false} JoinShownTrimmed(parts: seq<string>)
    requires parts != []
    requires forall k :: 0 <= k < |parts| ==> parts[k] != [] && IsTrimmed(parts[k])
    ensures Join(parts, ",") != [] && IsTrimmed(Join(parts, ","))
  {
    if |parts| > 1 {
      JoinShownTrimmed(parts[1..]);
      var j := Join(parts, ",");
      var rest := Join(parts[1..], ",");
      assert j == parts[0] + "," + rest;
      assert j[0] == parts[0][0];
      assert j[|j| - 1] == rest[|rest| - 1];
    }
  }

  /** Reading back a comma-separated list of numbers gives the numbers:
      `parse_take_sequence(",".join(map(str, ns))) == ns`. */
  lemma TakeSequenceRoundTrip(ns: seq<int>)
    requires ns != []
    ensures TakeSequence(Join(ShowAll(ns), ",")) == ns
  {
    var parts := ShowAll(ns);
    forall k | 0 <= k < |parts| ensures parts[k] != [] && IsTrimmed(parts[k]) && ',' !in parts[k] {
      ShowShape(ns[k]);
    }
    JoinShownTrimmed(parts);
    StripTrimmed(Join(parts, ","));
    SplitJoin(parts, ',');
    PartValuesShown(ns);
  }

  // ---------------------------------------------------------------------------
  // Take selection

  /** The take a character's recorded line plays: the sequence is cycled by
      the line's ordinal among that character's recorded lines, the 1-based
      take number made 0-based (never below 0) and capped at the last take. */
  function TakeIndex(sequence: seq<int>, takeCount: nat, ordinal: nat): (r: nat)
    requires |sequence| > 0 && takeCount > 0
    ensures r < takeCount
  {
    var takeNum := sequence[ordinal % |sequence|];
    var idx := if takeNum - 1 > 0 then takeNum - 1 else 0;
    if idx >= takeCount then takeCount - 1 else idx
  }

  /** A take number that names an existing take is played as written. */
  lemma TakeIndexInRange(sequence: seq<int>, takeCount: nat, ordinal: nat)
    requires |sequence| > 0 && takeCount > 0
    requires 1 <= sequence[ordinal % |sequence|] <= takeCount
    ensures TakeIndex(sequence, takeCount, ordinal) == sequence[ordinal % |sequence|] - 1
  {
  }

  /** Numbers out of range are clamped to the first or the last take. */
  lemma TakeIndexClamped(sequence: seq<int>, takeCount: nat, ordinal: nat)
    requires |sequence| > 0 && takeCount > 0
    ensures sequence[ordinal % |sequence|] < 1 ==> TakeIndex(sequence, takeCount, ordinal) == 0
    ensures sequence[ordinal % |sequence|] > takeCount ==> TakeIndex(sequence, takeCount, ordinal) == takeCount - 1
  {
  }

  /** The choice repeats with the period of the sequence. */
  lemma TakeIndexCycles(sequence: seq<int>, takeCount: nat, ordinal: nat)
    requires |sequence| > 0 && takeCount > 0
    ensures TakeIndex(sequence, takeCount, ordinal + |sequence|) == TakeIndex(sequence, takeCount, ordinal)
  {
    var b := |sequence|;
    var q, r := ordinal / b, ordinal % b;
    assert ordinal + b == (q + 1) * b + r;
    ModUnique(ordinal + b, b, q + 1, r);
  }

  lemma {:induction false} MulGap(x: nat, y: nat, b: nat)
    ensures x > y ==> x * b >= y * b + b
  {
    if x > y + 1 {
      MulGap(x - 1, y, b);
      assert x * b == (x - 1) * b + b;
    } else if x == y + 1 {
      assert x * b == y * b + b;
    }
  }

  lemma ModUnique(a: nat, b: nat, q: nat, r: nat)
    requires b > 0 && r < b && a == q * b + r
    ensures a % b == r
  {
    MulGap(q, a / b, b);
    MulGap(a / b, q, b);
  }

  /** With two takes and the sequence 1,3,2 the lines play takes 1, 2, 2,
      then 1 again (0-based indices 0, 1, 1, 0). */
  lemma TakeIndexExample()
    ensures TakeIndex([1, 3, 2], 2, 0) == 0
    ensures TakeIndex([1, 3, 2], 2, 1) == 1
    ensures TakeIndex([1, 3, 2], 2, 2) == 1
    ensures TakeIndex([1, 3, 2], 2, 3) == 0
  {
  }
}
