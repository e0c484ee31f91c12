/** The parts of Python's `str` and `list` that the field cutter relies on:
    `str.strip()` without arguments, `str.startswith`, `str.split(sep)` with
    a literal separator, `sep.join(parts)` and `list.index(x)`. */
module PyStr {
  import opened Wrappers

  /** The ASCII characters for which Python's `str.isspace()` holds:
      TAB, LF, VT, FF, CR (9-13), the separators FS, GS, RS, US (28-31)
      and SPACE. */
  predicate IsSpace(c: char) {
    (9 <= c as int <= 13) || (28 <= c as int <= 31) || c == ' '
  }

  /** Leading whitespace removed: `r` is the longest suffix of `s` that
      does not begin with a space. */
  function TrimStart(s: string): (r: string)
    ensures |r| <= |s| && r == s[|s| - |r|..]
    ensures forall k :: 0 <= k < |s| - |r| ==> IsSpace(s[k])
    ensures r == [] || !IsSpace(r[0])
    decreases |s|
  {
    if |s| > 0 && IsSpace(s[0]) then TrimStart(s[1..]) else s
  }

  /** Trailing whitespace removed: `r` is the longest prefix of `s` that
      does not end with a space. */
  function TrimEnd(s: string): (r: string)
    ensures |r| <= |s| && r == s[..|r|]
    ensures forall k :: |r| <= k < |s| ==> IsSpace(s[k])
    ensures r == [] || !IsSpace(r[|r| - 1])
    decreases |s|
  {
    if |s| > 0 && IsSpace(s[|s| - 1]) then TrimEnd(s[..|s| - 1]) else s
  }

  /** `s.strip()`: whitespace removed from both ends, so that the result
      neither begins nor ends with whitespace (see `StripInfix` for what
      was removed). */
  function Strip(s: string): (r: string)
    ensures |r| <= |s|
    ensures r == [] || (!IsSpace(r[0]) && !IsSpace(r[|r| - 1]))
  {
    TrimEnd(TrimStart(s))
  }

  /** `s` is `Strip(s)` with a run of whitespace on either side. */
  lemma StripInfix(s: string) returns (i: nat)
    ensures i + |Strip(s)| <= |s| && Strip(s) == s[i..i + |Strip(s)|]
    ensures IsSpaceRun(s[..i]) && IsSpaceRun(s[i + |Strip(s)|..])
  {
    var t := TrimStart(s);
    var r := TrimEnd(t);
    assert Strip(s) == r;
    i := SpaceAround(s, t, r);
  }

  /** A suffix `t` of `s` after leading whitespace, and a prefix `r` of `t`
      before trailing whitespace: `r` sits in `s` between two runs of
      whitespace. */
  lemma SpaceAround(s: string, t: string, r: string) returns (i: nat)
    requires |t| <= |s| && t == s[|s| - |t|..] && forall k :: 0 <= k < |s| - |t| ==> IsSpace(s[k])
    requires |r| <= |t| && r == t[..|r|] && forall k :: |r| <= k < |t| ==> IsSpace(t[k])
    ensures i == |s| - |t| && i + |r| <= |s| && r == s[i..i + |r|]
    ensures IsSpaceRun(s[..i]) && IsSpaceRun(s[i + |r|..])
  {
    i := |s| - |t|;
    SliceOfSuffix(s, i, |r|);
    LeadingRun(s, i);
    TrailingRun(t, |r|);
  }

  /** Slicing the suffix `s[i..]` is slicing `s` at shifted positions. */
  lemma SliceOfSuffix(s: string, i: nat, n: nat)
    requires i + n <= |s|
    ensures s[i..][..n] == s[i..i + n] && s[i..][n..] == s[i + n..]
  {
  }

  /** The first `i` characters of `s`, all whitespace, form a run. */
  lemma LeadingRun(s: string, i: nat)
    requires i <= |s| && forall k :: 0 <= k < i ==> IsSpace(s[k])
    ensures IsSpaceRun(s[..i])
  {
    forall k | 0 <= k < i ensures IsSpace(s[..i][k]) {
      assert s[..i][k] == s[k];
    }
  }

  /** The characters of `t` from `n` on, all whitespace, form a run. */
  lemma TrailingRun(t: string, n: nat)
    requires n <= |t| && forall k :: n <= k < |t| ==> IsSpace(t[k])
    ensures IsSpaceRun(t[n..])
  {
    forall k | 0 <= k < |t| - n ensures IsSpace(t[n..][k]) {
      assert t[n..][k] == t[n + k];
    }
  }

  /** Every character of `s` is whitespace. */
  predicate IsSpaceRun(s: string) {
    forall k :: 0 <= k < |s| ==> IsSpace(s[k])
  }

  /** `s.startswith(p)`. */
  predicate StartsWith(s: string, p: string) {
    |p| <= |s| && s[..|p|] == p
  }

  /** `d` occurs in `s` starting at position `i`. */
  predicate OccursAt(s: string, d: string, i: nat) {
    i + |d| <= |s| && s[i..i + |d|] == d
  }

  /** `d in s` for strings. */
  predicate Contains(s: string, d: string) {
    exists i: nat | i <= |s| :: OccursAt(s, d, i)
  }

  /** `s.split(d)` for a non-empty separator: the occurrences of `d` are
      found from left to right without overlapping, and the pieces between
      them are returned in order. The first piece is a prefix of `s`. */
  function Split(s: string, d: string): (parts: seq<string>)
    requires d != []
    ensures |parts| >= 1 && parts[0] <= s
    decreases |s|
  {
    if |s| < |d| then [s]
    else if s[..|d|] == d then [""] + Split(s[|d|..], d)
    else
      var rest := Split(s[1..], d);
      [[s[0]] + rest[0]] + rest[1..]
  }

  /** `d.join(parts)`. */
  function Join(d: string, parts: seq<string>): string {
    if |parts| == 0 then ""
    else if |parts| == 1 then parts[0]
    else parts[0] + d + Join(d, parts[1..])
  }

  /** `xs.index(x)`: the first position holding `x`, or `None` where Python
      raises `ValueError`. */
  function IndexOf<T(==)>(xs: seq<T>, x: T): (r: Option<nat>)
    ensures r.None? <==> x !in xs
    ensures r.Some? ==> r.value < |xs| && xs[r.value] == x
    ensures r.Some? ==> forall k :: 0 <= k < r.value ==> xs[k] != x
  {
    if xs == [] then None
    else if xs[0] == x then Some(0)
    else match IndexOf(xs[1..], x)
      case None => None
      case Some(k) => Some(k + 1)
  }

  // ---------------------------------------------------------------------
  // Properties of split, join and strip

  /** Joining a piece glued onto the head of a list. */
  lemma JoinConsHead(d: string, c: string, parts: seq<string>)
    requires |parts| >= 1
    ensures Join(d, [c + parts[0]] + parts[1..]) == c + Join(d, parts)
  {
    var q := [c + parts[0]] + parts[1..];
    if |parts| > 1 {
      assert q[1..] == parts[1..];
    }
  }

  /** Joining what `Split` produced gives the original string back. */
  lemma {:induction false} JoinSplit(s: string, d: string)
    requires d != []
    ensures Join(d, Split(s, d)) == s
    decreases |s|
  {
    if |s| < |d| {
      assert Split(s, d) == [s];
    } else if s[..|d|] == d {
      var rest := Split(s[|d|..], d);
      assert Split(s, d) == [""] + rest;
      JoinSplit(s[|d|..], d);
      assert ([""] + rest)[1..] == rest;
      assert Join(d, [""] + rest) == "" + d + Join(d, rest);
      assert s == s[..|d|] + s[|d|..];
    } else {
      var rest := Split(s[1..], d);
      assert Split(s, d) == [[s[0]] + rest[0]] + rest[1..];
      JoinSplit(s[1..], d);
      JoinConsHead(d, [s[0]], rest);
      assert Join(d, Split(s, d)) == [s[0]] + s[1..];
      assert s == [s[0]] + s[1..];
    }
  }

  /** No piece of a split contains the separator. */
  lemma {:induction false} SplitPiecesFree(s: string, d: string)
    requires d != []
    ensures forall j :: 0 <= j < |Split(s, d)| ==> !Contains(Split(s, d)[j], d)
    decreases |s|
  {
    var parts := Split(s, d);
    if |s| < |d| {
      forall i: nat ensures !OccursAt(s, d, i) { }
    } else if s[..|d|] == d {
      SplitPiecesFree(s[|d|..], d);
      var rest := Split(s[|d|..], d);
      assert parts == [""] + rest;
      forall j | 0 <= j < |parts| ensures !Contains(parts[j], d) {
        if j > 0 {
          assert parts[j] == rest[j - 1];
        } else {
          forall i: nat ensures !OccursAt(parts[0], d, i) { }
        }
      }
    } else {
      SplitPiecesFree(s[1..], d);
      var rest := Split(s[1..], d);
      var head := [s[0]] + rest[0];
      assert parts == [head] + rest[1..];
      forall j | 0 <= j < |parts| ensures !Contains(parts[j], d) {
        if j > 0 {
          assert parts[j] == rest[j];
        } else {
          forall i: nat ensures !OccursAt(head, d, i) {
            if i > 0 && i + |d| <= |head| {
              ShiftSlice(s[0], rest[0], i, |d|);
              assert !OccursAt(rest[0], d, i - 1);
            }
          }
        }
      }
    }
  }

  /** Occurrences are taken from the left: no occurrence of `d` begins
      inside a piece other than the last, not even one that runs into the
      separator after it. With `JoinSplit` and `SplitPiecesFree` this fixes
      the split for separators of any length: "aaa" split on "aa" is
      ["", "a"] and never ["a", ""]. */
  lemma {:induction false} SplitLeftmost(s: string, d: string)
    requires d != []
    ensures forall j :: 0 <= j < |Split(s, d)| - 1 ==> !Contains(Split(s, d)[j] + d[..|d| - 1], d)
    decreases |s|
  {
    var parts := Split(s, d);
    var w := d[..|d| - 1];
    if |s| < |d| {
      assert |parts| == 1;
    } else if s[..|d|] == d {
      SplitLeftmost(s[|d|..], d);
      var rest := Split(s[|d|..], d);
      assert parts == [""] + rest;
      forall j | 0 <= j < |parts| - 1 ensures !Contains(parts[j] + w, d) {
        if j > 0 {
          assert parts[j] == rest[j - 1];
        } else {
          forall i: nat ensures !OccursAt(parts[0] + w, d, i) { }
        }
      }
    } else {
      SplitLeftmost(s[1..], d);
      var rest := Split(s[1..], d);
      var head := [s[0]] + rest[0];
      assert parts == [head] + rest[1..];
      forall j | 0 <= j < |parts| - 1 ensures !Contains(parts[j] + w, d) {
        if j > 0 {
          assert parts[j] == rest[j];
        } else {
          var y := rest[0] + w;
          assert 1 + |y| <= |s| && [s[0]] + y == s[..1 + |y|] by {
            JoinSplit(s[1..], d);
            HeadBeforeSeparator(s, d, rest);
          }
          assert parts[0] + w == [s[0]] + y;
          NoOccurrenceAfterHead(s[0], y, d, s);
        }
      }
    }
  }

  /** The facts above pin the split: any list of pieces that joins back to
      `s`, holds no separator, and in which no occurrence of the separator
      begins inside a piece but the last, is `Split(s, d)`. */
  lemma {:induction false} SplitUnique(s: string, d: string, ps: seq<string>)
    requires d != [] && |ps| >= 1 && Join(d, ps) == s
    requires forall j :: 0 <= j < |ps| ==> !Contains(ps[j], d)
    requires forall j :: 0 <= j < |ps| - 1 ==> !Contains(ps[j] + d[..|d| - 1], d)
    ensures ps == Split(s, d)
    decreases |s|
  {
    var w := d[..|d| - 1];
    if |s| < |d| {
      assert |ps| == 1;
      assert ps == [s];
    } else if s[..|d|] == d {
      FirstPieceAtSeparator(s, d, ps);
      assert ps[0] == "" && |ps| >= 2;
      var qs := ps[1..];
      assert s == d + Join(d, qs);
      assert Join(d, qs) == s[|d|..];
      forall j | 0 <= j < |qs| ensures !Contains(qs[j], d) {
        assert qs[j] == ps[j + 1];
      }
      forall j | 0 <= j < |qs| - 1 ensures !Contains(qs[j] + w, d) {
        assert qs[j] == ps[j + 1];
      }
      SplitUnique(s[|d|..], d, qs);
      assert ps == [""] + qs;
    } else {
      FirstPieceOffSeparator(s, d, ps);
      var c := ps[0][0];
      var t := ps[0][1..];
      assert ps[0] == [c] + t;
      var qs := [t] + ps[1..];
      assert [[c] + qs[0]] + qs[1..] == ps;
      JoinConsHead(d, [c], qs);
      assert s == [c] + Join(d, qs);
      assert c == s[0] && Join(d, qs) == s[1..];
      ContainsAfterHead(c, t, d);
      forall j | 0 <= j < |qs| ensures !Contains(qs[j], d) {
        if j > 0 { assert qs[j] == ps[j]; }
      }
      forall j | 0 <= j < |qs| - 1 ensures !Contains(qs[j] + w, d) {
        if j > 0 {
          assert qs[j] == ps[j];
        } else {
          ContainsAfterHead(c, t + w, d);
          assert [c] + (t + w) == ps[0] + w;
        }
      }
      SplitUnique(s[1..], d, qs);
    }
  }

  /** When `s` starts with `d`, a list joining to `s` either begins with an
      empty piece, or its first piece holds `d`, or an occurrence of `d`
      begins in its first piece and runs into the separator after it. */
  lemma FirstPieceAtSeparator(s: string, d: string, ps: seq<string>)
    requires d != [] && |ps| >= 1 && Join(d, ps) == s
    requires |s| >= |d| && s[..|d|] == d
    ensures (|ps| >= 2 && ps[0] == "") || Contains(ps[0], d)
      || (|ps| >= 2 && Contains(ps[0] + d[..|d| - 1], d))
  {
    if |ps| == 1 {
      assert OccursAt(ps[0], d, 0);
    } else {
      var tail := Join(d, ps[1..]);
      assert s == ps[0] + d + tail;
      if |ps[0]| >= |d| {
        assert ps[0][..|d|] == s[..|d|];
        assert OccursAt(ps[0], d, 0);
      } else if ps[0] != "" {
        PrefixBeforeLast(ps[0], d, tail);
        var x := ps[0] + d[..|d| - 1];
        assert x[..|d|] == s[..|d|];
        assert OccursAt(x, d, 0);
      }
    }
  }

  /** A non-empty `s` joined from pieces whose first piece is empty starts
      with the separator. */
  lemma FirstPieceOffSeparator(s: string, d: string, ps: seq<string>)
    requires d != [] && |ps| >= 1 && Join(d, ps) == s && |s| >= |d|
    ensures ps[0] != "" || s[..|d|] == d
  {
    if |ps| >= 2 {
      assert s == ps[0] + d + Join(d, ps[1..]);
    }
  }

  /** An occurrence in `t` is an occurrence in `t` with a character in
      front. */
  lemma ContainsAfterHead(c: char, t: string, d: string)
    ensures Contains(t, d) ==> Contains([c] + t, d)
  {
    if Contains(t, d) {
      var i: nat :| i <= |t| && OccursAt(t, d, i);
      ShiftSlice(c, t, i + 1, |d|);
      assert OccursAt([c] + t, d, i + 1);
    }
  }

  /** A character put in front of a string `y` free of `d` starts no
      occurrence when the result begins a string `p` that does not start
      with `d`; so the whole is free of `d`. */
  lemma NoOccurrenceAfterHead(c: char, y: string, d: string, p: string)
    requires d != [] && !Contains(y, d)
    requires 1 + |y| <= |p| && [c] + y == p[..1 + |y|]
    requires |p| >= |d| && p[..|d|] != d
    ensures !Contains([c] + y, d)
  {
    var x := [c] + y;
    forall i: nat ensures !OccursAt(x, d, i) {
      if i == 0 && |d| <= |x| {
        assert x[..|d|] == p[..|d|];
      } else if i > 0 && i + |d| <= |x| {
        ShiftSlice(c, y, i, |d|);
        assert !OccursAt(y, d, i - 1);
      }
    }
  }

  /** Slicing past a leading character is slicing what follows it. */
  lemma ShiftSlice(c: char, t: string, i: nat, n: nat)
    requires 1 <= i && i - 1 + n <= |t|
    ensures ([c] + t)[i..i + n] == t[i - 1..i - 1 + n]
  {
  }

  /** When the rest of `s` after its first character joins from at least
      two pieces, `s` begins with that character, the first piece and `d`. */
  lemma HeadBeforeSeparator(s: string, d: string, rest: seq<string>)
    requires d != [] && |s| >= 1 && |rest| >= 2 && Join(d, rest) == s[1..]
    ensures var y := rest[0] + d[..|d| - 1];
      1 + |y| <= |s| && [s[0]] + y == s[..1 + |y|]
  {
    var head := [s[0]] + rest[0];
    var tail := Join(d, rest[1..]);
    assert s == head + d + tail by {
      assert s[1..] == rest[0] + d + tail;
      ConsConcat(s, rest[0] + d + tail);
      assert [s[0]] + (rest[0] + d + tail) == head + d + tail;
    }
    PrefixBeforeLast(head, d, tail);
    assert [s[0]] + (rest[0] + d[..|d| - 1]) == head + d[..|d| - 1];
  }

  /** A non-empty string is its first character followed by the rest. */
  lemma ConsConcat(s: string, t: string)
    requires |s| >= 1 && s[1..] == t
    ensures s == [s[0]] + t
  {
  }

  /** Cutting `a + d + t` one short of the end of `d`. */
  lemma PrefixBeforeLast(a: string, d: string, t: string)
    requires d != []
    ensures |a| + |d| <= |a + d + t| && (a + d + t)[..|a| + |d| - 1] == a + d[..|d| - 1]
  {
  }

  /** A string that does not contain a one-character separator is a single
      piece. */
  lemma {:induction false} SplitFree(x: string, d: string)
    requires |d| == 1 && d[0] !in x
    ensures Split(x, d) == [x]
    decreases |x|
  {
    if |x| >= 1 {
      assert x[..1] != d by { assert x[..1][0] == x[0]; }
      SplitFree(x[1..], d);
      assert [x[0]] + x[1..] == x;
    }
  }

  /** A one-character separator right after a separator-free piece ends
      that piece. */
  lemma {:induction false} SplitAfterFree(x: string, d: string, t: string)
    requires |d| == 1 && d[0] !in x
    ensures Split(x + d + t, d) == [x] + Split(t, d)
    decreases |x|
  {
    var s := x + d + t;
    if |x| == 0 {
      assert s == d + t;
      assert s[..1] == d;
      assert s[1..] == t;
    } else {
      assert s[..1] != d by { assert s[..1][0] == x[0]; }
      assert s[1..] == x[1..] + d + t;
      SplitAfterFree(x[1..], d, t);
      assert [x[0]] + x[1..] == x;
    }
  }

  /** Splitting on a one-character separator undoes a join of pieces that do
      not contain it. */
  lemma {:induction false} SplitJoin(parts: seq<string>, d: string)
    requires |d| == 1 && |parts| >= 1
    requires forall j :: 0 <= j < |parts| ==> d[0] !in parts[j]
    ensures Split(Join(d, parts), d) == parts
    decreases |parts|
  {
    if |parts| == 1 {
      SplitFree(parts[0], d);
    } else {
      SplitJoin(parts[1..], d);
      SplitAfterFree(parts[0], d, Join(d, parts[1..]));
      assert [parts[0]] + parts[1..] == parts;
    }
  }

  /** A string free of a one-character separator does not hold its
      character. */
  lemma FreeOfChar(s: string, d: string)
    requires |d| == 1 && !Contains(s, d)
    ensures d[0] !in s
  {
    forall i | 0 <= i < |s| ensures s[i] != d[0] {
      assert !OccursAt(s, d, i);
      assert s[i..i + 1] == [s[i]];
    }
  }

  /** Stripping twice is stripping once. */
  lemma StripIdempotent(s: string)
    ensures Strip(Strip(s)) == Strip(s)
  {
    StripUnchanged(Strip(s));
  }

  /** A string with no whitespace at either end is left as it is. */
  lemma StripUnchanged(s: string)
    requires s == [] || (!IsSpace(s[0]) && !IsSpace(s[|s| - 1]))
    ensures Strip(s) == s
  {
  }
}
