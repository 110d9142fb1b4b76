/** The pieces of `java.lang.String` the loader and the store rely on:
    `trim`, `split` on a one-character separator, and the code-unit order
    `compareTo` that sorts region names. */
module Text {

  /** `String.trim` strips every leading and trailing char at or below U+0020. */
  predicate TrimmedAway(c: char) {
    c <= ' '
  }

  /** How many chars at or below U+0020 open `s`. */
  function LeadingBlanks(s: string): (n: nat)
    ensures n <= |s|
    ensures forall i :: 0 <= i < n ==> TrimmedAway(s[i])
    ensures n == |s| || !TrimmedAway(s[n])
  {
    if |s| > 0 && TrimmedAway(s[0]) then 1 + LeadingBlanks(s[1..]) else 0
  }

  function TrimStart(s: string): (r: string)
    ensures |r| <= |s| && r == s[|s| - |r|..]
    ensures forall i :: 0 <= i < |s| - |r| ==> TrimmedAway(s[i])
    ensures |r| == 0 || !TrimmedAway(r[0])
  {
    s[LeadingBlanks(s)..]
  }

  function TrimEnd(s: string): (r: string)
    ensures |r| <= |s| && r == s[..|r|]
    ensures forall i :: |r| <= i < |s| ==> TrimmedAway(s[i])
    ensures |r| == 0 || !TrimmedAway(r[|r| - 1])
  {
    if |s| > 0 && TrimmedAway(s[|s| - 1]) then TrimEnd(s[..|s| - 1]) else s
  }

  /** `String.trim`: `s` without its leading and trailing chars at or
      below U+0020. */
  function Trim(s: string): (r: string)
    ensures |r| <= |s|
    ensures |r| == 0 || (!TrimmedAway(r[0]) && !TrimmedAway(r[|r| - 1]))
  {
    TrimEnd(TrimStart(s))
  }

  /** What `trim` keeps is one contiguous run of `s`, starting after the
      leading chars at or below U+0020. */
  lemma TrimIsInfix(s: string)
    ensures var i := |s| - |TrimStart(s)|;
            && i + |Trim(s)| <= |s|
            && (forall k :: 0 <= k < |Trim(s)| ==> Trim(s)[k] == s[i + k])
  {
    var front := TrimStart(s);
    var i := |s| - |front|;
    var r := TrimEnd(front);
    assert Trim(s) == r;
    KeptRun(s, front, r, i);
  }

  /** Everything `trim` removes, before and after the run it keeps, is at or
      below U+0020. */
  lemma TrimRemovesOnlyBlanks(s: string)
    ensures var i := |s| - |TrimStart(s)|;
            && (forall k :: 0 <= k < i ==> TrimmedAway(s[k]))
            && (forall k :: i + |Trim(s)| <= k < |s| ==> TrimmedAway(s[k]))
  {
    var front := TrimStart(s);
    KeptRun(s, front, TrimEnd(front), |s| - |front|);
  }

  /** The run `r` kept at the front of the suffix `front` of `s`, seen in `s`. */
  lemma KeptRun(s: string, front: string, r: string, i: nat)
    requires i <= |s| && front == s[i..]
    requires forall k :: 0 <= k < i ==> TrimmedAway(s[k])
    requires |r| <= |front| && r == front[..|r|]
    requires forall k :: |r| <= k < |front| ==> TrimmedAway(front[k])
    ensures i + |r| <= |s|
    ensures forall k :: 0 <= k < |r| ==> r[k] == s[i + k]
    ensures forall k :: 0 <= k < i ==> TrimmedAway(s[k])
    ensures forall k :: i + |r| <= k < |s| ==> TrimmedAway(s[k])
  {
    forall k | i + |r| <= k < |s| ensures TrimmedAway(s[k]) {
      assert s[k] == front[k - i];
    }
  }

  lemma TrimIdempotent(s: string)
    ensures Trim(Trim(s)) == Trim(s)
  {
    var t := Trim(s);
    if |t| > 0 {
      assert TrimStart(t) == t;
      assert TrimEnd(t) == t;
    }
  }

  // ---------------------------------------------------------------------
  // String.split(",")

  /** How many times `c` occurs in `s`. */
  function Occurrences(s: string, c: char): (n: nat)
  {
    if |s| == 0 then 0
    else (if s[0] == c then 1 else 0) + Occurrences(s[1..], c)
  }

  /** Every piece between occurrences of `sep`, empty ones included: what
      `split` computes before it discards trailing empty strings. */
  function SplitAll(s: string, sep: char): (r: seq<string>)
    ensures forall i :: 0 <= i < |r| ==> sep !in r[i]
  {
    if |s| == 0 then [""]
    else
      var rest := SplitAll(s[1..], sep);
      assert s == [s[0]] + s[1..];
      if s[0] == sep then [""] + rest
      else [[s[0]] + rest[0]] + rest[1..]
  }

  /** There is one piece more than there are separators. */
  lemma {:induction false} SplitAllCount(s: string, sep: char)
    ensures |SplitAll(s, sep)| == Occurrences(s, sep) + 1
  {
    if |s| > 0 {
      SplitAllCount(s[1..], sep);
    }
  }

  /** The pieces put back together with `sep` between them. */
  function Join(pieces: seq<string>, sep: char): string
    requires |pieces| >= 1
  {
    if |pieces| == 1 then pieces[0]
    else pieces[0] + [sep] + Join(pieces[1..], sep)
  }

  /** Prepending a char to the first piece prepends it to the join. */
  lemma JoinExtendFirst(c: char, pieces: seq<string>, sep: char)
    requires |pieces| >= 1
    ensures Join([[c] + pieces[0]] + pieces[1..], sep) == [c] + Join(pieces, sep)
  {
    var r := [[c] + pieces[0]] + pieces[1..];
    if |pieces| > 1 {
      assert r[1..] == pieces[1..];
    }
  }

  /** Splitting loses nothing: joining the pieces restores the line. */
  lemma {:induction false} JoinSplitAll(s: string, sep: char)
    ensures Join(SplitAll(s, sep), sep) == s
  {
    if |s| > 0 {
      var rest := SplitAll(s[1..], sep);
      JoinSplitAll(s[1..], sep);
      assert s == [s[0]] + s[1..];
      if s[0] == sep {
        var r := [""] + rest;
        assert SplitAll(s, sep) == r;
        assert r[1..] == rest;
        assert Join(r, sep) == "" + [sep] + Join(rest, sep);
      } else {
        var r := [[s[0]] + rest[0]] + rest[1..];
        assert SplitAll(s, sep) == r;
        JoinExtendFirst(s[0], rest, sep);
        assert Join(r, sep) == [s[0]] + s[1..];
      }
    }
  }

  lemma {:induction false} SplitAllPiece(w: string, sep: char)
    requires sep !in w
    ensures SplitAll(w, sep) == [w]
  {
    if |w| > 0 {
      SplitAllPiece(w[1..], sep);
      assert [w[0]] + w[1..] == w;
    }
  }

  lemma {:induction false} SplitAllAfterPiece(w: string, sep: char, t: string)
    requires sep !in w
    ensures SplitAll(w + [sep] + t, sep) == [w] + SplitAll(t, sep)
  {
    var s := w + [sep] + t;
    if |w| == 0 {
      assert s == [sep] + t;
      assert s[1..] == t;
    } else {
      assert s[1..] == w[1..] + [sep] + t;
      SplitAllAfterPiece(w[1..], sep, t);
      assert [w[0]] + w[1..] == w;
    }
  }

  /** Pieces free of `sep` are recovered exactly from their join. */
  lemma {:induction false} SplitAllJoin(pieces: seq<string>, sep: char)
    requires |pieces| >= 1
    requires forall i :: 0 <= i < |pieces| ==> sep !in pieces[i]
    ensures SplitAll(Join(pieces, sep), sep) == pieces
  {
    if |pieces| == 1 {
      SplitAllPiece(pieces[0], sep);
    } else {
      SplitAllJoin(pieces[1..], sep);
      SplitAllAfterPiece(pieces[0], sep, Join(pieces[1..], sep));
      assert [pieces[0]] + pieces[1..] == pieces;
    }
  }

  /** `pieces` without its trailing run of empty strings. */
  function DropTrailingEmpty(pieces: seq<string>): (r: seq<string>)
    ensures |r| <= |pieces| && r == pieces[..|r|]
    ensures forall i :: |r| <= i < |pieces| ==> pieces[i] == ""
    ensures |r| == 0 || r[|r| - 1] != ""
  {
    if |pieces| > 0 && pieces[|pieces| - 1] == "" then DropTrailingEmpty(pieces[..|pieces| - 1])
    else pieces
  }

  /** `s.split(String.valueOf(sep))` with the default limit: without any
      separator the whole line is the only field (even when it is empty);
      otherwise every piece, minus the trailing empty ones. */
  function JavaSplit(s: string, sep: char): seq<string> {
    if sep !in s then [s] else DropTrailingEmpty(SplitAll(s, sep))
  }

  /** What `split` returns is a prefix of all the pieces, the pieces it drops
      are empty, and no field contains the separator. Without a separator
      the line is the only field; otherwise the last field is never empty. */
  lemma JavaSplitPrefix(s: string, sep: char)
    ensures var r := JavaSplit(s, sep);
            var all := SplitAll(s, sep);
            && |r| <= |all| && r == all[..|r|]
            && (forall i :: |r| <= i < |all| ==> all[i] == "")
            && (forall i :: 0 <= i < |r| ==> sep !in r[i])
            && (sep !in s ==> r == [s])
            && (sep in s ==> |r| == 0 || r[|r| - 1] != "")
  {
    if sep !in s {
      SplitAllPiece(s, sep);
    }
  }

  /** `split` returns no field at all exactly when the line is non-empty and
      made of separators alone. */
  lemma JavaSplitEmpty(s: string, sep: char)
    ensures |JavaSplit(s, sep)| == 0 <==> |s| > 0 && forall i :: 0 <= i < |s| ==> s[i] == sep
  {
    var all := SplitAll(s, sep);
    if |JavaSplit(s, sep)| == 0 {
      JoinSplitAll(s, sep);
      JoinOfEmptyPieces(all, sep);
    }
    if |s| > 0 && forall i :: 0 <= i < |s| ==> s[i] == sep {
      assert s[0] == sep;
      SplitAllOfSeparators(s, sep);
    }
  }

  /** Joining empty pieces leaves only separators. */
  lemma {:induction false} JoinOfEmptyPieces(pieces: seq<string>, sep: char)
    requires |pieces| >= 1
    requires forall i :: 0 <= i < |pieces| ==> pieces[i] == ""
    ensures forall i :: 0 <= i < |Join(pieces, sep)| ==> Join(pieces, sep)[i] == sep
  {
    if |pieces| > 1 {
      JoinOfEmptyPieces(pieces[1..], sep);
      assert Join(pieces, sep) == [sep] + Join(pieces[1..], sep);
    }
  }

  /** A line of separators alone splits into empty pieces only. */
  lemma {:induction false} SplitAllOfSeparators(s: string, sep: char)
    requires forall i :: 0 <= i < |s| ==> s[i] == sep
    ensures forall i :: 0 <= i < |SplitAll(s, sep)| ==> SplitAll(s, sep)[i] == ""
  {
    if |s| > 0 {
      SplitAllOfSeparators(s[1..], sep);
    }
  }

  // ---------------------------------------------------------------------
  // Lexicographic order (String.compareTo)

  predicate StrLess(a: string, b: string) {
    if |a| == 0 then |b| > 0
    else if |b| == 0 then false
    else a[0] < b[0] || (a[0] == b[0] && StrLess(a[1..], b[1..]))
  }

  lemma {:induction false} StrLessIrreflexive(a: string)
    ensures !StrLess(a, a)
  {
    if |a| > 0 {
      StrLessIrreflexive(a[1..]);
    }
  }

  lemma {:induction false} StrLessTransitive(a: string, b: string, c: string)
    requires StrLess(a, b) && StrLess(b, c)
    ensures StrLess(a, c)
  {
    if |a| > 0 && |b| > 0 && |c| > 0 && a[0] == b[0] && b[0] == c[0] {
      StrLessTransitive(a[1..], b[1..], c[1..]);
    }
  }

  lemma {:induction false} StrLessTotal(a: string, b: string)
    requires a != b
    ensures StrLess(a, b) || StrLess(b, a)
  {
    if |a| > 0 && |b| > 0 && a[0] == b[0] {
      assert a == [a[0]] + a[1..] && b == [b[0]] + b[1..];
      StrLessTotal(a[1..], b[1..]);
    }
  }

  ghost predicate StrictlyIncreasing(s: seq<string>) {
    forall i, j :: 0 <= i < j < |s| ==> StrLess(s[i], s[j])
  }

  /** Adds `x` to a strictly increasing list unless it is already there. */
  function InsertDistinct(x: string, s: seq<string>): (r: seq<string>)
    requires StrictlyIncreasing(s)
    ensures StrictlyIncreasing(r)
    ensures forall y :: y in r <==> y == x || y in s
  {
    if |s| == 0 then [x]
    else if x == s[0] then s
    else if StrLess(x, s[0]) then
      assert forall j :: 0 <= j < |s| ==> StrLess(x, s[j]) by {
        forall j | 0 < j < |s| ensures StrLess(x, s[j]) {
          StrLessTransitive(x, s[0], s[j]);
        }
      }
      [x] + s
    else
      StrLessTotal(x, s[0]);
      var tail := InsertDistinct(x, s[1..]);
      assert forall k :: 0 <= k < |tail| ==> StrLess(s[0], tail[k]) by {
        forall k | 0 <= k < |tail| ensures StrLess(s[0], tail[k]) {
          if tail[k] != x {
            assert tail[k] in s[1..];
            var j :| 0 <= j < |s[1..]| && s[1..][j] == tail[k];
            assert s[1 + j] == tail[k];
          }
        }
      }
      [s[0]] + tail
  }

  /** Each value of `s` exactly once, in ascending order: SQL's
      `SELECT DISTINCT ... ORDER BY` over a string column. */
  function DistinctAscending(s: seq<string>): (r: seq<string>)
    ensures StrictlyIncreasing(r)
    ensures forall y :: y in r <==> y in s
  {
    if |s| == 0 then []
    else InsertDistinct(s[0], DistinctAscending(s[1..]))
  }

  /** A strictly increasing list has no duplicates. */
  lemma StrictlyIncreasingDistinct(s: seq<string>)
    requires StrictlyIncreasing(s)
    ensures forall i, j :: 0 <= i < j < |s| ==> s[i] != s[j]
  {
    forall i, j | 0 <= i < j < |s| ensures s[i] != s[j] {
      if s[i] == s[j] {
        StrLessIrreflexive(s[i]);
      }
    }
  }
}
