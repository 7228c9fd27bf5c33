/**
 * The .NET string operations the command layer relies on: Trim, Split (on a
 * string separator, on a set of characters, with and without
 * RemoveEmptyEntries), Join, case-insensitive comparison, and the decimal
 * conversions of int.TryParse and Int32.ToString.
 */
module Text {
  import opened Wrappers

  /** char.IsWhiteSpace: U+0009..U+000D, U+0085, and the Unicode space, line and paragraph separators. */
  predicate IsWhiteSpace(c: char)
  {
    c == ' ' || ('\t' <= c <= '\r') || c == '\U{85}' || c == '\U{A0}' || c == '\U{1680}'
    || ('\U{2000}' <= c <= '\U{200A}') || c == '\U{2028}' || c == '\U{2029}' || c == '\U{202F}'
    || c == '\U{205F}' || c == '\U{3000}'
  }

  /** The white space a trim removes: String.Trim's, or the narrower set int.TryParse skips. */
  datatype Blanks = TextWhite | NumberWhite

  predicate Dropped(blanks: Blanks, c: char)
  {
    match blanks
    case TextWhite => IsWhiteSpace(c)
    case NumberWhite => IsNumberWhite(c)
  }

  /** The white space int.TryParse skips around a number (NumberStyles.Integer). */
  predicate IsNumberWhite(c: char) { c == ' ' || ('\t' <= c <= '\r') }

  /** The first index at or after i whose character is not dropped. */
  function SkipForward(s: string, i: nat, drop: Blanks): (k: nat)
    requires i <= |s|
    ensures i <= k <= |s|
    ensures k < |s| ==> !Dropped(drop, s[k])
    decreases |s| - i
  {
    if i < |s| && Dropped(drop, s[i]) then SkipForward(s, i + 1, drop) else i
  }

  /** The last index, no lower than lo, such that every character from it to j is dropped. */
  function SkipBackward(s: string, j: nat, lo: nat, drop: Blanks): (k: nat)
    requires lo <= j <= |s|
    ensures lo <= k <= j
    ensures k > lo ==> !Dropped(drop, s[k - 1])
    decreases j
  {
    if j > lo && Dropped(drop, s[j - 1]) then SkipBackward(s, j - 1, lo, drop) else j
  }

  /** s without its leading and trailing dropped characters. */
  function TrimBy(s: string, drop: Blanks): (r: string)
    ensures r == [] || (!Dropped(drop, r[0]) && !Dropped(drop, r[|r| - 1]))
  {
    var i := SkipForward(s, 0, drop);
    var j := SkipBackward(s, |s|, i, drop);
    s[i..j]
  }

  lemma {:induction false} SkipForwardDrops(s: string, i: nat, drop: Blanks)
    requires i <= |s|
    ensures forall t :: i <= t < SkipForward(s, i, drop) ==> Dropped(drop, s[t])
    decreases |s| - i
  {
    if i < |s| && Dropped(drop, s[i]) {
      SkipForwardDrops(s, i + 1, drop);
    }
  }

  lemma {:induction false} SkipBackwardDrops(s: string, j: nat, lo: nat, drop: Blanks)
    requires lo <= j <= |s|
    ensures forall t :: SkipBackward(s, j, lo, drop) <= t < j ==> Dropped(drop, s[t])
    decreases j
  {
    if j > lo && Dropped(drop, s[j - 1]) {
      SkipBackwardDrops(s, j - 1, lo, drop);
    }
  }

  /** TrimBy removes dropped characters from the two ends only: the result is a slice with dropped characters around it. */
  lemma TrimByIsSlice(s: string, drop: Blanks) returns (i: nat, j: nat)
    ensures i <= j <= |s| && TrimBy(s, drop) == s[i..j]
    ensures forall t :: 0 <= t < i ==> Dropped(drop, s[t])
    ensures forall t :: j <= t < |s| ==> Dropped(drop, s[t])
  {
    i := SkipForward(s, 0, drop);
    j := SkipBackward(s, |s|, i, drop);
    SkipForwardDrops(s, 0, drop);
    SkipBackwardDrops(s, |s|, i, drop);
  }

  /** String.Trim(). */
  function Trim(s: string): (r: string)
    ensures r == [] || (!IsWhiteSpace(r[0]) && !IsWhiteSpace(r[|r| - 1]))
  {
    TrimBy(s, TextWhite)
  }

  lemma TrimUntouched(s: string)
    requires s == [] || (!IsWhiteSpace(s[0]) && !IsWhiteSpace(s[|s| - 1]))
    ensures Trim(s) == s
  {
    if s != [] {
      assert SkipForward(s, 0, TextWhite) == 0;
      assert SkipBackward(s, |s|, 0, TextWhite) == |s|;
    }
  }

  /** s.Split(separators) without options: the pieces between separator characters, empty ones kept. */
  function SplitOnAny(s: string, separators: set<char>): (r: seq<string>)
    ensures |r| >= 1
    decreases |s|
  {
    if s == [] then [""]
    else
      var rest := SplitOnAny(s[1..], separators);
      if s[0] in separators then [""] + rest
      else [[s[0]] + rest[0]] + rest[1..]
  }

  /** No piece of a split holds a separator. */
  lemma {:induction false} SplitOnAnyPiecesPlain(s: string, separators: set<char>)
    ensures forall i :: 0 <= i < |SplitOnAny(s, separators)| ==> NoneOf(SplitOnAny(s, separators)[i], separators)
    decreases |s|
  {
    if s != [] {
      SplitOnAnyPiecesPlain(s[1..], separators);
    }
  }

  lemma {:induction false} SplitOnAnyBreaks(s: string, separators: set<char>, k: nat)
    requires k < |s| && s[k] in separators
    ensures |SplitOnAny(s, separators)| >= 2
    decreases |s|
  {
    if k > 0 && s[0] !in separators {
      SplitOnAnyBreaks(s[1..], separators, k - 1);
    }
  }

  /** s holds none of the separator characters. */
  predicate NoneOf(s: string, separators: set<char>)
  {
    forall k :: 0 <= k < |s| ==> s[k] !in separators
  }

  lemma {:induction false} SplitOnAnyPlain(a: string, separators: set<char>)
    requires NoneOf(a, separators)
    ensures SplitOnAny(a, separators) == [a]
    decreases |a|
  {
    if a != [] {
      SplitOnAnyPlain(a[1..], separators);
      assert [a[0]] + a[1..] == a;
    }
  }

  /** A separator after a text without separators ends the first piece there. */
  lemma {:induction false} SplitOnAnyAt(a: string, c: char, b: string, separators: set<char>)
    requires NoneOf(a, separators) && c in separators
    ensures SplitOnAny(a + [c] + b, separators) == [a] + SplitOnAny(b, separators)
    decreases |a|
  {
    var s := a + [c] + b;
    if a == [] {
      assert s[1..] == b;
    } else {
      assert s[1..] == a[1..] + [c] + b;
      SplitOnAnyAt(a[1..], c, b, separators);
      assert [a[0]] + a[1..] == a;
    }
  }

  /** Each field followed by its own closing character: the inverse of SplitOnAny on plain fields. */
  function Terminated(fields: seq<string>, ends: string): string
    requires |fields| == |ends|
  {
    if fields == [] then [] else fields[0] + [ends[0]] + Terminated(fields[1..], ends[1..])
  }

  /** Splitting terminated plain fields gives the fields back, then the empty text after the last end. */
  lemma {:induction false} SplitOnAnyTerminated(fields: seq<string>, ends: string, separators: set<char>)
    requires |fields| == |ends|
    requires forall i :: 0 <= i < |fields| ==> NoneOf(fields[i], separators) && ends[i] in separators
    ensures SplitOnAny(Terminated(fields, ends), separators) == fields + [""]
    decreases |fields|
  {
    if fields != [] {
      SplitOnAnyTerminated(fields[1..], ends[1..], separators);
      SplitOnAnyAt(fields[0], ends[0], Terminated(fields[1..], ends[1..]), separators);
      assert fields == [fields[0]] + fields[1..];
    }
  }

  /** Trim drops one leading space before a text that is already trimmed. */
  lemma TrimPadded(t: string)
    requires t != [] && !IsWhiteSpace(t[0]) && !IsWhiteSpace(t[|t| - 1])
    ensures Trim(" " + t) == t
  {
    var s := " " + t;
    assert SkipForward(s, 1, TextWhite) == 1;
    assert SkipForward(s, 0, TextWhite) == 1;
    assert SkipBackward(s, |s|, 1, TextWhite) == |s|;
    assert s[1..] == t;
  }

  /** The pieces, without the empty ones (StringSplitOptions.RemoveEmptyEntries). */
  function RemoveEmpty(pieces: seq<string>): (r: seq<string>)
    ensures forall i :: 0 <= i < |r| ==> r[i] != []
    ensures forall p :: p in r ==> p in pieces
    ensures forall p :: multiset(r)[p] == if p == [] then 0 else multiset(pieces)[p]
    ensures |r| <= |pieces|
  {
    if pieces == [] then []
    else
      assert pieces == [pieces[0]] + pieces[1..];
      if pieces[0] == [] then RemoveEmpty(pieces[1..])
      else [pieces[0]] + RemoveEmpty(pieces[1..])
  }

  /** RemoveEmpty keeps the order of the pieces: it works piece by piece over a concatenation. */
  lemma {:induction false} RemoveEmptyAppend(a: seq<string>, b: seq<string>)
    ensures RemoveEmpty(a + b) == RemoveEmpty(a) + RemoveEmpty(b)
  {
    if a == [] {
      assert a + b == b;
    } else {
      assert (a + b)[1..] == a[1..] + b;
      RemoveEmptyAppend(a[1..], b);
    }
  }

  /** Removing the empty pieces after a list of non-empty pieces drops a trailing empty piece. */
  lemma {:induction false} RemoveEmptyKeeps(pieces: seq<string>)
    requires forall i :: 0 <= i < |pieces| ==> pieces[i] != []
    ensures RemoveEmpty(pieces + [""]) == pieces
  {
    if pieces == [] {
    } else {
      assert (pieces + [""])[1..] == pieces[1..] + [""];
      RemoveEmptyKeeps(pieces[1..]);
    }
  }

  /** s.Split(separators, StringSplitOptions.RemoveEmptyEntries). */
  function SplitOnAnyRemovingEmpty(s: string, separators: set<char>): (r: seq<string>)
    ensures forall i :: 0 <= i < |r| ==> r[i] != []
  {
    RemoveEmpty(SplitOnAny(s, separators))
  }

  /**
   * s.Split(new[] { separator }) without options: scanning left to right, each
   * occurrence of the separator not overlapping an earlier one ends a piece.
   */
  function SplitOnString(s: string, separator: string): (r: seq<string>)
    requires |separator| > 0
    ensures |r| >= 1
    decreases |s|
  {
    if |s| < |separator| then [s]
    else if s[..|separator|] == separator then [""] + SplitOnString(s[|separator|..], separator)
    else
      var rest := SplitOnString(s[1..], separator);
      [[s[0]] + rest[0]] + rest[1..]
  }

  /** String.Join(separator, pieces). */
  function Join(pieces: seq<string>, separator: string): string
  {
    if |pieces| == 0 then ""
    else if |pieces| == 1 then pieces[0]
    else pieces[0] + separator + Join(pieces[1..], separator)
  }

  lemma JoinCons(c: char, piece: string, tail: seq<string>, separator: string)
    ensures Join([[c] + piece] + tail, separator) == [c] + Join([piece] + tail, separator)
  {
    var a := [[c] + piece] + tail;
    var b := [piece] + tail;
    assert a[1..] == tail && b[1..] == tail;
  }

  lemma JoinEmptyFirst(rest: seq<string>, separator: string)
    requires |rest| > 0
    ensures Join([""] + rest, separator) == separator + Join(rest, separator)
  {
    assert ([""] + rest)[1..] == rest;
  }

  /** Joining the pieces with the separator gives back the split text. */
  lemma {:induction false} JoinSplitOnString(s: string, separator: string)
    requires |separator| > 0
    ensures Join(SplitOnString(s, separator), separator) == s
    decreases |s|
  {
    if |s| < |separator| {
    } else if s[..|separator|] == separator {
      var tail := s[|separator|..];
      JoinSplitOnString(tail, separator);
      JoinEmptyFirst(SplitOnString(tail, separator), separator);
      assert s == separator + tail;
    } else {
      var rest := SplitOnString(s[1..], separator);
      JoinSplitOnString(s[1..], separator);
      JoinCons(s[0], rest[0], rest[1..], separator);
      assert [rest[0]] + rest[1..] == rest;
      assert s == [s[0]] + s[1..];
    }
  }

  /** Joining the pieces with the one separator character gives back the split text. */
  lemma {:induction false} JoinSplitOnChar(s: string, c: char)
    ensures Join(SplitOnAny(s, {c}), [c]) == s
    decreases |s|
  {
    if s != [] {
      var rest := SplitOnAny(s[1..], {c});
      JoinSplitOnChar(s[1..], c);
      if s[0] == c {
        assert ([""] + rest)[1..] == rest;
      } else {
        JoinCons(s[0], rest[0], rest[1..], [c]);
        assert [rest[0]] + rest[1..] == rest;
      }
      assert s == [s[0]] + s[1..];
    }
  }

  function ToLowerAscii(c: char): char
  {
    if 'A' <= c <= 'Z' then (c as int + 32) as char else c
  }

  /** String.Equals(..., StringComparison.CurrentCultureIgnoreCase), for a culture folding case as ASCII does. */
  predicate EqualsIgnoreCase(s: string, t: string)
  {
    |s| == |t| && forall k :: 0 <= k < |s| ==> ToLowerAscii(s[k]) == ToLowerAscii(t[k])
  }

  predicate IsDigit(c: char) { '0' <= c <= '9' }

  function DigitValue(c: char): int requires IsDigit(c) { c as int - '0' as int }

  predicate AllDigits(s: string) { forall k :: 0 <= k < |s| ==> IsDigit(s[k]) }

  /** The value of a string of decimal digits. */
  function DigitsValue(s: string): (v: nat)
    requires AllDigits(s)
  {
    if s == [] then 0 else 10 * DigitsValue(s[..|s| - 1]) + DigitValue(s[|s| - 1])
  }

  /** Int32.ToString() for a non-negative value. */
  function NatToString(n: nat): (s: string)
    ensures s != [] && AllDigits(s)
  {
    var last := ('0' as int + n % 10) as char;
    if n < 10 then [last] else NatToString(n / 10) + [last]
  }

  lemma {:induction false} DigitsValueNatToString(n: nat)
    ensures DigitsValue(NatToString(n)) == n
  {
    var s := NatToString(n);
    if n >= 10 {
      DigitsValueNatToString(n / 10);
      assert s[..|s| - 1] == NatToString(n / 10);
    }
  }

  /** Int32.ToString() with the invariant culture's minus sign. */
  function IntToString(n: int): (s: string)
    ensures s != []
  {
    if n < 0 then "-" + NatToString(-n) else NatToString(n)
  }

  const MinInt32: int := -0x8000_0000
  const MaxInt32: int := 0x7FFF_FFFF

  /** s without the run of NUL characters at its end. */
  function DropTrailingNul(s: string): (r: string)
    ensures |r| <= |s| && r == s[..|r|]
    ensures forall k :: |r| <= k < |s| ==> s[k] == '\0'
    ensures r == [] || r[|r| - 1] != '\0'
  {
    if |s| > 0 && s[|s| - 1] == '\0' then DropTrailingNul(s[..|s| - 1]) else s
  }

  /**
   * int.TryParse(s, out n): optional surrounding white space, an optional
   * sign, at least one ASCII digit, and a value that fits 32 bits; the
   * parser also accepts any run of NUL characters at the very end.
   */
  function ParseInt32(s: string): (r: Option<int>)
    ensures r.Some? ==> MinInt32 <= r.value <= MaxInt32
  {
    var t := TrimBy(DropTrailingNul(s), NumberWhite);
    var negative := |t| > 0 && t[0] == '-';
    var digits := if |t| > 0 && (t[0] == '-' || t[0] == '+') then t[1..] else t;
    if |digits| == 0 || !AllDigits(digits) then None
    else
      var magnitude: int := DigitsValue(digits);
      var v := if negative then -magnitude else magnitude;
      if MinInt32 <= v <= MaxInt32 then Some(v) else None
  }

  /** Every 32-bit value prints as text that int.TryParse reads back. */
  lemma ParseInt32IntToString(n: int)
    requires MinInt32 <= n <= MaxInt32
    ensures ParseInt32(IntToString(n)) == Some(n)
  {
    var s := IntToString(n);
    var u := if n < 0 then -n else n;
    DigitsValueNatToString(u);
    assert !IsNumberWhite(s[0]) && !IsNumberWhite(s[|s| - 1]);
    assert DropTrailingNul(s) == s;
    assert SkipForward(s, 0, NumberWhite) == 0;
    assert SkipBackward(s, |s|, 0, NumberWhite) == |s|;
    assert TrimBy(s, NumberWhite) == s;
    if n < 0 {
      assert s[1..] == NatToString(u);
    }
  }

  /** A NUL character at the end of a number does not change what int.TryParse reads. */
  lemma ParseInt32TrailingNul(s: string)
    ensures ParseInt32(s + "\0") == ParseInt32(s)
  {
    assert (s + "\0")[..|s|] == s;
    assert DropTrailingNul(s + "\0") == DropTrailingNul(s);
  }
}
