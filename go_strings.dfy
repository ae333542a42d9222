/**
  The parts of Go's `strings` package that the addressing layer relies on:
  `strings.Index`, `strings.Split` and `strings.Join`, for a non-empty separator.
  Strings are sequences of characters; every separator used by the model
  (':', "::" and '.') is ASCII, so splitting characters and splitting UTF-8
  bytes cut at the same places.
*/
module GoStrings {
  import opened Outcomes

  /** `sep` occurs in `s` starting at index `i`. */
  predicate OccursAt(s: string, sep: string, i: int) {
    0 <= i && i + |sep| <= |s| && s[i..i + |sep|] == sep
  }

  /** `sep` occurs nowhere in `s`. */
  ghost predicate Free(s: string, sep: string) {
    forall i :: !OccursAt(s, sep, i)
  }

  /** Go's `strings.Index`: the first occurrence of `sep` in `s`, if any (see `IndexOfFirst`). */
  function IndexOf(s: string, sep: string): (r: Option<nat>)
    requires |sep| > 0
    ensures r.Some? ==> r.value + |sep| <= |s|
    decreases |s|
  {
    if |s| < |sep| then None
    else if s[..|sep|] == sep then Some(0)
    else
      match IndexOf(s[1..], sep)
      case None => None
      case Some(k) => Some(k + 1)
  }

  /** `IndexOf` finds an occurrence, none lies before it, and it finds none only when there is none. */
  lemma {:induction false} IndexOfFirst(s: string, sep: string)
    requires |sep| > 0
    ensures var r := IndexOf(s, sep);
      && (r.Some? ==> OccursAt(s, sep, r.value))
      && (r.Some? ==> forall j :: 0 <= j < r.value ==> !OccursAt(s, sep, j))
      && (r.None? <==> Free(s, sep))
    decreases |s|
  {
    if |s| < |sep| {
    } else if s[..|sep|] == sep {
      assert OccursAt(s, sep, 0);
    } else {
      IndexOfFirst(s[1..], sep);
      assert forall j :: OccursAt(s[1..], sep, j) <==> OccursAt(s, sep, j + 1) by {
        forall j ensures OccursAt(s[1..], sep, j) <==> OccursAt(s, sep, j + 1) {
          if 0 <= j && j + 1 + |sep| <= |s| {
            assert s[1..][j..j + |sep|] == s[j + 1..j + 1 + |sep|];
          }
        }
      }
      assert !OccursAt(s, sep, 0);
      match IndexOf(s[1..], sep)
      case None =>
        forall j ensures !OccursAt(s, sep, j) {
          if j > 0 { assert !OccursAt(s[1..], sep, j - 1); }
        }
      case Some(k) =>
        forall j | 0 <= j < k + 1 ensures !OccursAt(s, sep, j) {
          if j > 0 { assert !OccursAt(s[1..], sep, j - 1); }
        }
    }
  }

  /** Go's `strings.Join`: the parts with `sep` between neighbours. */
  function Join(parts: seq<string>, sep: string): string {
    if |parts| == 0 then ""
    else if |parts| == 1 then parts[0]
    else parts[0] + sep + Join(parts[1..], sep)
  }

  /**
    Go's `strings.Split` for a non-empty separator: the pieces between the
    non-overlapping occurrences of `sep`, found left to right. It never returns
    an empty list; `SplitPieces` states what the pieces are.
  */
  function Split(s: string, sep: string): (parts: seq<string>)
    requires |sep| > 0
    ensures |parts| >= 1
    decreases |s|
  {
    match IndexOf(s, sep)
    case None => [s]
    case Some(i) => [s[..i]] + Split(s[i + |sep|..], sep)
  }

  /** No piece of a split contains the separator, and joining the pieces gives the string back. */
  lemma SplitPieces(s: string, sep: string)
    requires |sep| > 0
    ensures forall k :: 0 <= k < |Split(s, sep)| ==> Free(Split(s, sep)[k], sep)
    ensures Join(Split(s, sep), sep) == s
  {
    forall k | 0 <= k < |Split(s, sep)| ensures Free(Split(s, sep)[k], sep) {
      SplitPieceFree(s, sep, k);
    }
    JoinSplit(s, sep);
  }

  lemma {:induction false} SplitPieceFree(s: string, sep: string, k: nat)
    requires |sep| > 0 && k < |Split(s, sep)|
    ensures Free(Split(s, sep)[k], sep)
    decreases |s|
  {
    IndexOfFirst(s, sep);
    match IndexOf(s, sep)
    case None =>
    case Some(i) =>
      var rest := s[i + |sep|..];
      assert Split(s, sep) == [s[..i]] + Split(rest, sep);
      if k == 0 {
        HeadFree(s, sep, i);
      } else {
        SplitPieceFree(rest, sep, k - 1);
      }
  }

  lemma {:induction false} JoinSplit(s: string, sep: string)
    requires |sep| > 0
    ensures Join(Split(s, sep), sep) == s
    decreases |s|
  {
    IndexOfFirst(s, sep);
    match IndexOf(s, sep)
    case None =>
    case Some(i) =>
      var head := s[..i];
      var rest := s[i + |sep|..];
      var tail := Split(rest, sep);
      var parts := Split(s, sep);
      assert parts == [head] + tail;
      assert parts[1..] == tail;
      JoinSplit(rest, sep);
      assert s == head + sep + rest;
  }

  /** `IndexOf` finds an occurrence. */
  lemma IndexOfHit(s: string, sep: string, i: nat)
    requires |sep| > 0 && IndexOf(s, sep) == Some(i)
    ensures OccursAt(s, sep, i)
  {
    IndexOfFirst(s, sep);
  }

  /** The text before the first occurrence of the separator does not contain it. */
  lemma HeadFree(s: string, sep: string, i: nat)
    requires |sep| > 0 && IndexOf(s, sep) == Some(i)
    ensures Free(s[..i], sep)
  {
    IndexOfFirst(s, sep);
    forall j ensures !OccursAt(s[..i], sep, j) {
      if 0 <= j && j + |sep| <= i {
        assert s[j..j + |sep|] == s[..i][j..j + |sep|];
        assert !OccursAt(s, sep, j);
      }
    }
  }

  /** The number of times `c` occurs in `s`. */
  function CountChar(s: string, c: char): nat {
    if |s| == 0 then 0 else (if s[0] == c then 1 else 0) + CountChar(s[1..], c)
  }

  lemma {:induction false} CountCharConcat(a: string, b: string, c: char)
    ensures CountChar(a + b, c) == CountChar(a, c) + CountChar(b, c)
    decreases |a|
  {
    if |a| == 0 {
      assert a + b == b;
    } else {
      assert (a + b)[1..] == a[1..] + b;
      CountCharConcat(a[1..], b, c);
    }
  }

  lemma {:induction false} CountCharAbsent(s: string, c: char)
    requires c !in s
    ensures CountChar(s, c) == 0
    decreases |s|
  {
    if |s| > 0 {
      assert c !in s[1..];
      CountCharAbsent(s[1..], c);
    }
  }

  /** For a one-character separator, "free of the separator" means "does not contain it". */
  lemma FreeOfChar(s: string, c: char)
    ensures Free(s, [c]) <==> c !in s
  {
    if c in s {
      var i :| 0 <= i < |s| && s[i] == c;
      assert OccursAt(s, [c], i);
    } else {
      forall j ensures !OccursAt(s, [c], j) {
        if 0 <= j < |s| { assert s[j..j + 1] == [s[j]]; }
      }
    }
  }

  /** Splitting on one character yields one piece more than the character has occurrences. */
  lemma {:induction false} SplitCount(s: string, c: char)
    ensures |Split(s, [c])| == CountChar(s, c) + 1
    decreases |s|
  {
    IndexOfFirst(s, [c]);
    match IndexOf(s, [c])
    case None =>
      FreeOfChar(s, c);
      CountCharAbsent(s, c);
    case Some(i) =>
      var rest := s[i + 1..];
      assert s == s[..i] + [c] + rest;
      SplitPieces(s, [c]);
      assert Split(s, [c])[0] == s[..i];
      FreeOfChar(s[..i], c);
      CountCharAbsent(s[..i], c);
      CountCharConcat(s[..i] + [c], rest, c);
      CountCharConcat(s[..i], [c], c);
      SplitCount(rest, c);
  }

  /**
    Splitting is the inverse of joining, for a one-character separator and
    pieces that do not contain it.
  */
  lemma {:induction false} SplitJoin(parts: seq<string>, c: char)
    requires |parts| >= 1
    requires forall k :: 0 <= k < |parts| ==> c !in parts[k]
    ensures Split(Join(parts, [c]), [c]) == parts
    decreases |parts|
  {
    var s := Join(parts, [c]);
    var p := parts[0];
    FreeOfChar(p, c);
    if |parts| == 1 {
      assert s == p;
      IndexOfFirst(s, [c]);
    } else {
      var rest := Join(parts[1..], [c]);
      assert s == p + [c] + rest;
      assert OccursAt(s, [c], |p|) by { assert s[|p|..|p| + 1] == [c]; }
      forall j | 0 <= j < |p| ensures !OccursAt(s, [c], j) {
        assert s[j] == p[j];
      }
      IndexOfFirst(s, [c]);
      var idx := IndexOf(s, [c]);
      assert idx.Some?;
      assert idx.value == |p|;
      assert s[..|p|] == p;
      assert s[|p| + 1..] == rest;
      SplitJoin(parts[1..], c);
    }
  }

  /** `t` is a suffix of `s` that is the whole of `s` or follows an occurrence of `c`. */
  predicate SegmentAtEnd(s: string, t: string, c: char) {
    |t| <= |s| && s[|s| - |t|..] == t && (|t| == |s| || s[|s| - |t| - 1] == c)
  }

  /** The last piece of a split on one character is the longest suffix without that character. */
  lemma SplitLast(s: string, sep: string, last: string)
    requires |sep| == 1 && last == Split(s, sep)[|Split(s, sep)| - 1]
    ensures sep[0] !in last
    ensures SegmentAtEnd(s, last, sep[0])
  {
    SplitPieceFree(s, sep, |Split(s, sep)| - 1);
    assert sep == [sep[0]];
    FreeOfChar(last, sep[0]);
    LastPieceAtEnd(s, sep);
  }

  lemma {:induction false} LastPieceAtEnd(s: string, sep: string)
    requires |sep| == 1
    ensures SegmentAtEnd(s, Split(s, sep)[|Split(s, sep)| - 1], sep[0])
    decreases |s|
  {
    match IndexOf(s, sep)
    case None =>
    case Some(i) =>
      IndexOfHit(s, sep, i);
      var rest := s[i + 1..];
      var tail := Split(rest, sep);
      assert Split(s, sep) == [s[..i]] + tail;
      LastPieceAtEnd(rest, sep);
      assert s[i..i + 1] == sep;
      SegmentAfter(s, i, tail[|tail| - 1], sep[0]);
  }

  lemma SegmentAfter(s: string, i: nat, last: string, c: char)
    requires i < |s| && s[i] == c
    requires SegmentAtEnd(s[i + 1..], last, c)
    ensures SegmentAtEnd(s, last, c)
  {
    var rest := s[i + 1..];
    assert rest[|rest| - |last|..] == s[|s| - |last|..];
    if |last| < |rest| {
      assert s[|s| - |last| - 1] == rest[|rest| - |last| - 1];
    }
  }

  /** The first piece of a split is the text before the first occurrence of the separator. */
  lemma SplitFirst(s: string, sep: string, first: string)
    requires |sep| > 0 && first == Split(s, sep)[0]
    ensures first <= s && Free(first, sep)
    ensures |first| == |s| || OccursAt(s, sep, |first|)
    ensures forall j :: 0 <= j < |first| ==> !OccursAt(s, sep, j)
  {
    IndexOfFirst(s, sep);
    match IndexOf(s, sep)
    case None =>
    case Some(i) =>
      HeadFree(s, sep, i);
  }

  /** `piece` occupies `s` from index `k` up to the next `c` or the end. */
  predicate SegmentFrom(s: string, k: nat, piece: string, c: char) {
    k + |piece| <= |s| && s[k..k + |piece|] == piece && (k + |piece| == |s| || s[k + |piece|] == c)
  }

  /** Piece `n` of a split on `c` starts at `k`: right after the n-th `c` (at 0 for the first) and runs to the next `c` or the end. */
  predicate PieceAt(s: string, c: char, n: nat, k: nat, piece: string) {
    && k <= |s| && CountChar(s[..k], c) == n
    && (n == 0 ==> k == 0) && (n > 0 ==> k > 0 && s[k - 1] == c)
    && SegmentFrom(s, k, piece, c)
  }

  /** Every piece of a split on one character sits right after the occurrence of the character that precedes it. */
  lemma {:induction false} SplitPieceAt(s: string, c: char, n: nat, piece: string) returns (k: nat)
    requires n < |Split(s, [c])| && piece == Split(s, [c])[n]
    ensures PieceAt(s, c, n, k, piece)
    decreases |s|, 1
  {
    assert s[..0] == [];
    match IndexOf(s, [c])
    case None =>
      assert s[0..|s|] == s;
      k := 0;
    case Some(i) =>
      assert Split(s, [c]) == [s[..i]] + Split(s[i + 1..], [c]);
      if n == 0 {
        FirstChar(s, c, i);
        assert s[0..i] == s[..i];
        k := 0;
      } else {
        k := LaterPieceAt(s, c, n, piece, i);
      }
  }

  lemma {:induction false} LaterPieceAt(s: string, c: char, n: nat, piece: string, i: nat) returns (k: nat)
    requires IndexOf(s, [c]) == Some(i) && n > 0
    requires n - 1 < |Split(s[i + 1..], [c])| && piece == Split(s[i + 1..], [c])[n - 1]
    ensures PieceAt(s, c, n, k, piece)
    decreases |s|, 0
  {
    var rest := s[i + 1..];
    var k' := SplitPieceAt(rest, c, n - 1, piece);
    FirstChar(s, c, i);
    PieceAfter(s, c, i, k', n, piece);
    k := i + 1 + k';
  }

  /** The first occurrence of a character found by `IndexOf`. */
  lemma FirstChar(s: string, c: char, i: nat)
    requires IndexOf(s, [c]) == Some(i)
    ensures i < |s| && s[i] == c && c !in s[..i]
  {
    IndexOfHit(s, [c], i);
    assert s[i..i + 1] == [c];
    HeadFree(s, [c], i);
    FreeOfChar(s[..i], c);
  }

  /** Moves the position of a piece in the text after the first `c` (at `i`) to its position in `s`. */
  lemma PieceAfter(s: string, c: char, i: nat, k': nat, n: nat, piece: string)
    requires i < |s| && s[i] == c && c !in s[..i] && n > 0
    requires PieceAt(s[i + 1..], c, n - 1, k', piece)
    ensures PieceAt(s, c, n, i + 1 + k', piece)
  {
    var rest := s[i + 1..];
    var k := i + 1 + k';
    assert s[..k] == s[..i] + [c] + rest[..k'];
    CountCharAbsent(s[..i], c);
    CountCharConcat(s[..i] + [c], rest[..k'], c);
    CountCharConcat(s[..i], [c], c);
    assert k + |piece| <= |s|;
    var segment := s[k..k + |piece|];
    assert forall j :: 0 <= j < |piece| ==> segment[j] == rest[k' + j];
  }

  /** Joining `n` parts on `c` puts at least `n - 1` copies of `c` in the result. */
  lemma {:induction false} JoinCountChar(parts: seq<string>, c: char)
    ensures |parts| > 0 ==> CountChar(Join(parts, [c]), c) >= |parts| - 1
    decreases |parts|
  {
    if |parts| >= 2 {
      JoinCountChar(parts[1..], c);
      CountCharConcat(parts[0] + [c], Join(parts[1..], [c]), c);
      CountCharConcat(parts[0], [c], c);
    }
  }

  /** A join starts with its first part. */
  /** A join starts with its first part. */
  lemma JoinFirst(parts: seq<string>, sep: string)
    ensures |parts| > 0 ==> parts[0] <= Join(parts, sep)
  {
  }
}
