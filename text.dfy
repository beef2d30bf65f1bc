/** Strings as sequences of characters: whitespace classes, trimming,
    splitting on separator characters and joining. */
module Text {

  /** `char.IsWhiteSpace` of .NET, which `string.Trim()` strips. */
  predicate IsNetWhiteSpace(c: char)
  {
    c == ' ' || ('\t' <= c <= '\r') || c == '\U{85}' || c == '\U{A0}' ||
    c == '\U{1680}' || ('\U{2000}' <= c <= '\U{200A}') || c == '\U{2028}' || c == '\U{2029}' ||
    c == '\U{202F}' || c == '\U{205F}' || c == '\U{3000}'
  }

  /** `str.isspace` of Python, which `str.strip()` and the regex class `\s` use:
      the .NET set plus the four information separators U+001C..U+001F. */
  predicate IsPyWhiteSpace(c: char)
  {
    IsNetWhiteSpace(c) || ('\U{1C}' <= c <= '\U{1F}')
  }

  /** Drops the leading characters satisfying `ws`. */
  function TrimStart(s: string, ws: char -> bool): (r: string)
    ensures |r| <= |s| && r == s[|s| - |r|..]
    ensures r == [] || !ws(r[0])
    ensures forall i :: 0 <= i < |s| - |r| ==> ws(s[i])
  {
    if s == [] || !ws(s[0]) then s else TrimStart(s[1..], ws)
  }

  /** Drops the trailing characters satisfying `ws`. */
  function TrimEnd(s: string, ws: char -> bool): (r: string)
    ensures |r| <= |s| && r == s[..|r|]
    ensures r == [] || !ws(r[|r| - 1])
    ensures forall i :: |r| <= i < |s| ==> ws(s[i])
  {
    if s == [] || !ws(s[|s| - 1]) then s else TrimEnd(s[..|s| - 1], ws)
  }

  /** Both ends: no `ws` character is left at either end, and a string that
      had none there is left as it is. */
  function Trim(s: string, ws: char -> bool): (r: string)
    ensures |r| <= |s|
    ensures r == [] || (!ws(r[0]) && !ws(r[|r| - 1]))
    ensures s == [] || (!ws(s[0]) && !ws(s[|s| - 1])) ==> r == s
  {
    TrimEnd(TrimStart(s, ws), ws)
  }

  /** What trimming leaves is one slice of the input, with only `ws`
      characters outside it. */
  lemma TrimSlice(s: string, ws: char -> bool)
    ensures exists i :: TrimmedAt(s, ws, Trim(s, ws), i)
  {
    var a := TrimStart(s, ws);
    var r := TrimEnd(a, ws);
    SliceOfSuffix(s, a, r, ws);
    assert Trim(s, ws) == r;
    assert TrimmedAt(s, ws, Trim(s, ws), |s| - |a|);
  }

  /** A prefix `r` of the suffix `a` of `s`, with `ws` characters before
      `a` and after `r` within it, leaves only `ws` outside. */
  lemma SliceOfSuffix(s: string, a: string, r: string, ws: char -> bool)
    requires |a| <= |s| && a == s[|s| - |a|..]
    requires forall k :: 0 <= k < |s| - |a| ==> ws(s[k])
    requires |r| <= |a| && r == a[..|r|]
    requires forall k :: |r| <= k < |a| ==> ws(a[k])
    ensures TrimmedAt(s, ws, r, |s| - |a|)
  {
    var i := |s| - |a|;
    forall k | i + |r| <= k < |s| ensures ws(s[k]) {
      assert s[k] == a[k - i];
    }
  }

  /** `r` is the slice of `s` starting at `i`, and every character of `s`
      outside that slice satisfies `ws`. */
  predicate TrimmedAt(s: string, ws: char -> bool, r: string, i: int)
  {
    0 <= i <= |s| - |r| && r == s[i..i + |r|] &&
    (forall k :: 0 <= k < i ==> ws(s[k])) && (forall k :: i + |r| <= k < |s| ==> ws(s[k]))
  }

  /** C# `string.Trim()`: only .NET white space is removed, and only at
      the two ends. */
  function TrimNet(s: string): (r: string)
    ensures r == [] || (!IsNetWhiteSpace(r[0]) && !IsNetWhiteSpace(r[|r| - 1]))
  {
    Trim(s, IsNetWhiteSpace)
  }

  /** Python `str.strip()`: only Python white space is removed, and only at
      the two ends. */
  function Strip(s: string): (r: string)
    ensures r == [] || (!IsPyWhiteSpace(r[0]) && !IsPyWhiteSpace(r[|r| - 1]))
  {
    Trim(s, IsPyWhiteSpace)
  }

  /** Trimming only removes characters. */
  lemma TrimKeepsChars(s: string, ws: char -> bool)
    ensures forall c :: c in Trim(s, ws) ==> c in s
  {
    var a := TrimStart(s, ws);
    var r := TrimEnd(a, ws);
    forall c | c in r
      ensures c in s
    {
      var i :| 0 <= i < |r| && r[i] == c;
      assert a[i] == c;
      assert s[|s| - |a| + i] == c;
    }
  }

  lemma {:induction false} TrimIdempotent(s: string, ws: char -> bool)
    ensures Trim(Trim(s, ws), ws) == Trim(s, ws)
  {
    var r := Trim(s, ws);
    if r != [] {
      assert TrimStart(r, ws) == r;
      assert TrimEnd(r, ws) == r;
    }
  }

  /** Index of the first character of `s` satisfying `sep`, or `|s|`. */
  function FirstSep(s: string, sep: char -> bool): (i: nat)
    ensures i <= |s|
    ensures i < |s| ==> sep(s[i])
    ensures forall j :: 0 <= j < i ==> !sep(s[j])
  {
    if s == [] then 0
    else if sep(s[0]) then 0
    else 1 + FirstSep(s[1..], sep)
  }

  predicate FreeOf(s: string, sep: char -> bool)
  {
    forall i :: 0 <= i < |s| ==> !sep(s[i])
  }

  /** All fields of `s` between separator characters, empty fields included
      (C# `string.Split(c)` for the separator set `sep`). */
  function Split(s: string, sep: char -> bool): (parts: seq<string>)
    ensures |parts| >= 1
    ensures forall k :: 0 <= k < |parts| ==> FreeOf(parts[k], sep)
    decreases |s|
  {
    var i := FirstSep(s, sep);
    if i == |s| then [s] else [s[..i]] + Split(s[i + 1..], sep)
  }

  /** The non-empty elements of `xs`, in order. */
  function RemoveEmpty(xs: seq<string>): (r: seq<string>)
    ensures |r| <= |xs|
    ensures forall k :: 0 <= k < |r| ==> r[k] != [] && r[k] in xs
    ensures forall x :: x in xs && x != [] ==> x in r
  {
    if xs == [] then []
    else if xs[0] == [] then RemoveEmpty(xs[1..])
    else [xs[0]] + RemoveEmpty(xs[1..])
  }

  /** C# `s.Split(c, StringSplitOptions.RemoveEmptyEntries)`; with Python's
      `re.split("[...]+", s)` followed by skipping empty parts it gives the
      same list, since a run of separators only adds empty fields. */
  function SplitNonEmpty(s: string, sep: char -> bool): (parts: seq<string>)
    ensures forall k :: 0 <= k < |parts| ==> parts[k] != [] && FreeOf(parts[k], sep)
  {
    var all := Split(s, sep);
    var r := RemoveEmpty(all);
    assert forall k :: 0 <= k < |r| ==> FreeOf(r[k], sep) by {
      forall k | 0 <= k < |r| ensures FreeOf(r[k], sep) {
        var j :| 0 <= j < |all| && all[j] == r[k];
      }
    }
    r
  }

  /** There are no pieces exactly when every character is a separator. */
  lemma SplitNonEmptyNone(s: string, sep: char -> bool)
    ensures SplitNonEmpty(s, sep) == [] <==> forall i :: 0 <= i < |s| ==> sep(s[i])
  {
    var all := Split(s, sep);
    var r := RemoveEmpty(all);
    SplitAllEmpty(s, sep);
    if r != [] { assert r[0] in all; }
    if r == [] { assert forall k :: 0 <= k < |all| ==> all[k] in all; }
  }

  /** Every field of a split is empty exactly when every character is a
      separator. */
  lemma SplitAllEmpty(s: string, sep: char -> bool)
    ensures (forall k :: 0 <= k < |Split(s, sep)| ==> Split(s, sep)[k] == []) <==>
      (forall i :: 0 <= i < |s| ==> sep(s[i]))
    decreases |s|
  {
    var i := FirstSep(s, sep);
    if i < |s| {
      var rest := s[i + 1..];
      SplitAllEmpty(rest, sep);
      var parts := Split(s, sep);
      assert parts == [s[..i]] + Split(rest, sep);
      assert forall k :: 0 <= k < |Split(rest, sep)| ==> Split(rest, sep)[k] == parts[k + 1];
      assert forall j :: 0 <= j < |rest| ==> rest[j] == s[i + 1 + j];
      if forall k :: 0 <= k < |parts| ==> parts[k] == [] {
        assert parts[0] == [];
        forall j | 0 <= j < |s| ensures sep(s[j]) {
          if j > i { assert rest[j - i - 1] == s[j]; }
        }
      }
    } else {
      assert Split(s, sep) == [s] && Split(s, sep)[0] == s;
      if s != [] { assert !sep(s[0]); }
    }
  }

  /** The fields of a split on a single separator character, joined with
      that character again, give back the string. */
  lemma SplitRejoin(s: string, c: char, sep: char -> bool)
    requires sep(c)
    requires forall k :: 0 <= k < |s| && sep(s[k]) ==> s[k] == c
    ensures Join(Split(s, sep), c) == s
    decreases |s|
  {
    var i := FirstSep(s, sep);
    if i < |s| {
      var rest := s[i + 1..];
      OnlySepSuffix(s, i + 1, c, sep);
      SplitRejoin(rest, c, sep);
      var tail := Split(rest, sep);
      assert Split(s, sep) == [s[..i]] + tail;
      JoinCons(s[..i], tail, c);
      SliceAround(s, i, c);
    } else {
      assert Split(s, sep) == [s];
    }
  }

  /** What holds of every separator in `s` holds of those in a suffix. */
  lemma OnlySepSuffix(s: string, j: nat, c: char, sep: char -> bool)
    requires j <= |s|
    requires forall k :: 0 <= k < |s| && sep(s[k]) ==> s[k] == c
    ensures forall k :: 0 <= k < |s[j..]| && sep(s[j..][k]) ==> s[j..][k] == c
  {
    forall k | 0 <= k < |s[j..]| && sep(s[j..][k]) ensures s[j..][k] == c {
      assert s[j..][k] == s[j + k];
    }
  }

  lemma SliceAround(s: string, i: nat, c: char)
    requires i < |s| && s[i] == c
    ensures s == s[..i] + [c] + s[i + 1..]
  {
  }

  /** Joining a first part onto the rest puts one separator between them. */
  lemma JoinCons(p: string, tail: seq<string>, c: char)
    requires tail != []
    ensures Join([p] + tail, c) == p + [c] + Join(tail, c)
  {
    assert ([p] + tail)[1..] == tail;
  }

  /** A string without separators splits into at most one piece. */
  lemma SplitFreeOfSep(s: string, sep: char -> bool)
    ensures FreeOf(s, sep) ==> |SplitNonEmpty(s, sep)| <= 1
  {
    if FreeOf(s, sep) {
      FirstSepOfFree(s, sep);
      assert Split(s, sep) == [s];
    }
  }

  /** Trimming cannot bring in a separator. */
  lemma TrimNetFreeOf(s: string, sep: char -> bool)
    ensures FreeOf(s, sep) ==> FreeOf(TrimNet(s), sep)
  {
    var r := TrimNet(s);
    TrimKeepsChars(s, IsNetWhiteSpace);
    if FreeOf(s, sep) {
      forall k | 0 <= k < |r| ensures !sep(r[k]) {
        assert r[k] in r;
      }
    }
  }

  /** `sep.join(parts)`. */
  function Join(parts: seq<string>, sep: char): string
  {
    if parts == [] then []
    else if |parts| == 1 then parts[0]
    else parts[0] + [sep] + Join(parts[1..], sep)
  }

  lemma FirstSepAfterFree(p: string, c: char, t: string, sep: char -> bool)
    requires FreeOf(p, sep) && sep(c)
    ensures FirstSep(p + [c] + t, sep) == |p|
  {
    var s := p + [c] + t;
    assert forall j :: 0 <= j < |p| ==> s[j] == p[j];
    assert s[|p|] == c;
  }

  lemma FirstSepOfFree(p: string, sep: char -> bool)
    requires FreeOf(p, sep)
    ensures FirstSep(p, sep) == |p|
  {
  }

  /** One step of splitting a joined list: the first part comes off whole. */
  lemma SplitJoinStep(p: string, c: char, rest: string, sep: char -> bool)
    requires FreeOf(p, sep) && sep(c)
    ensures Split(p + [c] + rest, sep) == [p] + Split(rest, sep)
  {
    var s := p + [c] + rest;
    FirstSepAfterFree(p, c, rest, sep);
    assert s[..|p|] == p;
    assert s[|p| + 1..] == rest;
  }

  /** Splitting undoes joining when no part holds the separator. */
  lemma {:induction false} SplitJoin(parts: seq<string>, c: char, sep: char -> bool)
    requires parts != [] && sep(c)
    requires forall k :: 0 <= k < |parts| ==> FreeOf(parts[k], sep)
    ensures Split(Join(parts, c), sep) == parts
  {
    if |parts| == 1 {
      FirstSepOfFree(parts[0], sep);
      assert Split(parts[0], sep) == [parts[0]];
    } else {
      var tail := parts[1..];
      FreeOfTail(parts, sep);
      SplitJoin(tail, c, sep);
      var rest := Join(tail, c);
      assert Join(parts, c) == parts[0] + [c] + rest;
      SplitJoinStep(parts[0], c, rest, sep);
      assert parts == [parts[0]] + tail;
    }
  }

  lemma FreeOfTail(parts: seq<string>, sep: char -> bool)
    requires parts != [] && forall k :: 0 <= k < |parts| ==> FreeOf(parts[k], sep)
    ensures forall k :: 0 <= k < |parts| - 1 ==> FreeOf(parts[1..][k], sep)
  {
    forall k | 0 <= k < |parts| - 1 ensures FreeOf(parts[1..][k], sep) {
      assert parts[1..][k] == parts[k + 1];
    }
  }

  lemma {:induction false} RemoveEmptyKeeps(xs: seq<string>)
    requires forall k :: 0 <= k < |xs| ==> xs[k] != []
    ensures RemoveEmpty(xs) == xs
  {
    if xs != [] {
      RemoveEmptyKeeps(xs[1..]);
    }
  }

  /** Joining non-empty separator-free parts and splitting them again with
      empty entries removed gives back the same parts. */
  lemma SplitNonEmptyJoin(parts: seq<string>, c: char, sep: char -> bool)
    requires sep(c)
    requires forall k :: 0 <= k < |parts| ==> parts[k] != [] && FreeOf(parts[k], sep)
    ensures SplitNonEmpty(Join(parts, c), sep) == parts
  {
    if parts == [] {
      assert Split([], sep) == [[]];
    } else {
      SplitJoin(parts, c, sep);
      RemoveEmptyKeeps(parts);
    }
  }

  /** Every character of `g` is a separator. */
  predicate AllSep(g: string, sep: char -> bool)
  {
    forall i :: 0 <= i < |g| ==> sep(g[i])
  }

  /** `parts` with `gaps[k]` written between `parts[k]` and `parts[k + 1]`. */
  function JoinWith(parts: seq<string>, gaps: seq<string>): string
    requires |gaps| + 1 == |parts|
  {
    if |parts| == 1 then parts[0] else parts[0] + gaps[0] + JoinWith(parts[1..], gaps[1..])
  }

  /** Leading separators only add empty fields, and those are dropped. */
  lemma {:induction false} SplitNonEmptySkipSeps(h: string, rest: string, sep: char -> bool)
    requires AllSep(h, sep)
    ensures SplitNonEmpty(h + rest, sep) == SplitNonEmpty(rest, sep)
  {
    if h != [] {
      var s := h + rest;
      assert s[0] == h[0];
      assert s[1..] == h[1..] + rest;
      var xs := Split(s, sep);
      assert xs == [[]] + Split(h[1..] + rest, sep);
      assert xs[1..] == Split(h[1..] + rest, sep);
      assert AllSep(h[1..], sep) by {
        forall i | 0 <= i < |h[1..]| ensures sep(h[1..][i]) { assert h[1..][i] == h[i + 1]; }
      }
      SplitNonEmptySkipSeps(h[1..], rest, sep);
      assert SplitNonEmpty(s, sep) == RemoveEmpty(xs) == RemoveEmpty(xs[1..]);
    } else {
      assert h + rest == rest;
    }
  }

  /** A non-empty separator-free piece followed by a run of separators
      comes off whole. */
  lemma SplitNonEmptyPieceThenRun(p: string, g: string, rest: string, sep: char -> bool)
    requires p != [] && FreeOf(p, sep) && g != [] && AllSep(g, sep)
    ensures SplitNonEmpty(p + g + rest, sep) == [p] + SplitNonEmpty(rest, sep)
  {
    var t := g[1..] + rest;
    assert p + g + rest == p + [g[0]] + t;
    SplitJoinStep(p, g[0], t, sep);
    assert AllSep(g[1..], sep) by {
      forall i | 0 <= i < |g[1..]| ensures sep(g[1..][i]) { assert g[1..][i] == g[i + 1]; }
    }
    SplitNonEmptySkipSeps(g[1..], rest, sep);
    var xs := [p] + Split(t, sep);
    assert xs[1..] == Split(t, sep);
  }

  /** A single non-empty separator-free piece, with any separators after
      it, is the only piece. */
  lemma SplitNonEmptyLastPiece(p: string, last: string, sep: char -> bool)
    requires p != [] && FreeOf(p, sep) && AllSep(last, sep)
    ensures SplitNonEmpty(p + last, sep) == [p]
  {
    if last == [] {
      assert p + last == p;
      FirstSepOfFree(p, sep);
      assert Split(p, sep) == [p];
      assert [p][1..] == [];
    } else {
      assert p + last + [] == p + last;
      SplitNonEmptyPieceThenRun(p, last, [], sep);
      assert Split([], sep) == [[]];
    }
  }

  lemma {:induction false} SplitNonEmptyRunsFrom(parts: seq<string>, gaps: seq<string>, last: string, sep: char -> bool)
    requires |gaps| + 1 == |parts|
    requires forall k :: 0 <= k < |parts| ==> parts[k] != [] && FreeOf(parts[k], sep)
    requires forall k :: 0 <= k < |gaps| ==> gaps[k] != [] && AllSep(gaps[k], sep)
    requires AllSep(last, sep)
    ensures SplitNonEmpty(JoinWith(parts, gaps) + last, sep) == parts
  {
    if |parts| == 1 {
      SplitNonEmptyLastPiece(parts[0], last, sep);
    } else {
      var tail, gtail := parts[1..], gaps[1..];
      assert forall k :: 0 <= k < |tail| ==> tail[k] != [] && FreeOf(tail[k], sep) by {
        forall k | 0 <= k < |tail| ensures tail[k] != [] && FreeOf(tail[k], sep) { assert tail[k] == parts[k + 1]; }
      }
      assert forall k :: 0 <= k < |gtail| ==> gtail[k] != [] && AllSep(gtail[k], sep) by {
        forall k | 0 <= k < |gtail| ensures gtail[k] != [] && AllSep(gtail[k], sep) { assert gtail[k] == gaps[k + 1]; }
      }
      SplitNonEmptyRunsFrom(tail, gtail, last, sep);
      var rest := JoinWith(tail, gtail) + last;
      assert JoinWith(parts, gaps) + last == parts[0] + gaps[0] + rest;
      SplitNonEmptyPieceThenRun(parts[0], gaps[0], rest, sep);
      assert parts == [parts[0]] + tail;
    }
  }

  /** `Split(sep, RemoveEmptyEntries)` recovers the pieces written between
      runs of separators, whatever the runs hold, however long they are,
      and whether or not runs also open and close the string. */
  lemma SplitNonEmptyRuns(first: string, parts: seq<string>, gaps: seq<string>, last: string, sep: char -> bool)
    requires AllSep(first, sep) && AllSep(last, sep)
    requires |gaps| + 1 == |parts|
    requires forall k :: 0 <= k < |parts| ==> parts[k] != [] && FreeOf(parts[k], sep)
    requires forall k :: 0 <= k < |gaps| ==> gaps[k] != [] && AllSep(gaps[k], sep)
    ensures SplitNonEmpty(first + JoinWith(parts, gaps) + last, sep) == parts
  {
    var rest := JoinWith(parts, gaps) + last;
    assert first + JoinWith(parts, gaps) + last == first + rest;
    SplitNonEmptySkipSeps(first, rest, sep);
    SplitNonEmptyRunsFrom(parts, gaps, last, sep);
  }

  /** Pieces joined by gaps start with the first piece's first character
      and end with the last piece's last character. */
  lemma {:induction false} JoinWithEnds(parts: seq<string>, gaps: seq<string>)
    requires |gaps| + 1 == |parts|
    requires forall k :: 0 <= k < |parts| ==> parts[k] != []
    ensures var s := JoinWith(parts, gaps);
      s != [] && s[0] == parts[0][0] && s[|s| - 1] == parts[|parts| - 1][|parts[|parts| - 1]| - 1]
  {
    if |parts| > 1 {
      assert forall k :: 0 <= k < |parts[1..]| ==> parts[1..][k] == parts[k + 1];
      JoinWithEnds(parts[1..], gaps[1..]);
    }
  }

  /** Dropping empty fields commutes with appending one more field. */
  lemma {:induction false} RemoveEmptySnoc(xs: seq<string>, x: string)
    ensures RemoveEmpty(xs + [x]) == RemoveEmpty(xs) + (if x == [] then [] else [x])
  {
    if xs == [] {
      assert [x][1..] == [];
    } else {
      assert (xs + [x])[1..] == xs[1..] + [x];
      RemoveEmptySnoc(xs[1..], x);
    }
  }
}
