/**
  The JavaScript string and array primitives the shim engine relies on:
  `indexOf` (on strings and on arrays), `startsWith`, `split` on a single
  character and `trim`. `LastIndexOf` is not a call of the source: the
  model uses it to express the anchored regular expression
  `/([^/]+\/[^/]+)$/` of the install loop.
 */
module Strings {

  /** `t` occurs in `s` starting at position `j`. */
  predicate OccursAt<T(==)>(s: seq<T>, t: seq<T>, j: nat) {
    j + |t| <= |s| && s[j..j + |t|] == t
  }

  /** `String.prototype.startsWith`. */
  predicate StartsWith<T(==)>(s: seq<T>, prefix: seq<T>) {
    |prefix| <= |s| && s[..|prefix|] == prefix
  }

  /**
    `indexOf`: the first position at which `t` occurs in `s`, or -1.
    On an array, `a.indexOf(x)` is `IndexOf(a, [x])`.
   */
  function IndexOf<T(==)>(s: seq<T>, t: seq<T>): (r: int)
    ensures -1 <= r <= |s|
    ensures r >= 0 ==> OccursAt(s, t, r)
    ensures r >= 0 ==> forall j :: 0 <= j < r ==> !OccursAt(s, t, j)
    ensures r == -1 <==> forall j :: 0 <= j ==> !OccursAt(s, t, j)
  {
    IndexFrom(s, t, 0)
  }

  /** The first position at or after `i` at which `t` occurs in `s`, or -1. */
  function IndexFrom<T(==)>(s: seq<T>, t: seq<T>, i: nat): (r: int)
    requires i <= |s|
    ensures -1 <= r <= |s|
    ensures r >= 0 ==> i <= r && OccursAt(s, t, r)
    ensures r >= 0 ==> forall j :: i <= j < r ==> !OccursAt(s, t, j)
    ensures r == -1 ==> forall j :: i <= j ==> !OccursAt(s, t, j)
    decreases |s| - i
  {
    if i + |t| > |s| then -1
    else if s[i..i + |t|] == t then i
    else IndexFrom(s, t, i + 1)
  }

  /** `s.indexOf(t) === 0`, the source's way of writing a prefix test, is exactly `startsWith`. */
  lemma IndexOfZeroIsStartsWith<T>(s: seq<T>, t: seq<T>)
    ensures IndexOf(s, t) == 0 <==> StartsWith(s, t)
  {
    if StartsWith(s, t) {
      assert OccursAt(s, t, 0);
    }
  }

  /** `s.indexOf(c) === -1` holds exactly when the character is absent. */
  lemma IndexOfCharMissing(s: string, c: char)
    ensures IndexOf(s, [c]) == -1 <==> c !in s
  {
    if c in s {
      var j :| 0 <= j < |s| && s[j] == c;
      assert s[j..j + 1] == [c];
      assert OccursAt(s, [c], j);
    } else {
      forall j | 0 <= j ensures !OccursAt(s, [c], j) {
        if j + 1 <= |s| {
          assert s[j..j + 1][0] == s[j];
        }
      }
    }
  }

  /** `Array.prototype.indexOf(x)` finds `x` exactly when `x` is an element, at its first position. */
  lemma IndexOfElement<T>(s: seq<T>, x: T)
    ensures IndexOf(s, [x]) >= 0 <==> x in s
    ensures IndexOf(s, [x]) >= 0 ==> s[IndexOf(s, [x])] == x && x !in s[..IndexOf(s, [x])]
  {
    var r := IndexOf(s, [x]);
    if x in s {
      var j :| 0 <= j < |s| && s[j] == x;
      assert s[j..j + 1] == [x];
      assert OccursAt(s, [x], j);
    }
    if r >= 0 {
      assert s[r..r + 1] == [x];
      assert s[r] == x;
      forall j | 0 <= j < r ensures s[j] != x {
        assert !OccursAt(s, [x], j);
        assert s[j..j + 1] == [s[j]];
      }
    }
  }

  /** The position of the last `c` in `s`, or -1 when there is none. */
  function LastIndexOf(s: string, c: char): (r: int)
    ensures -1 <= r < |s|
    ensures r >= 0 ==> s[r] == c && c !in s[r + 1..]
    ensures r == -1 ==> c !in s
  {
    var r := LastIndexBefore(s, c, |s|);
    NoneAfter(s, c, r);
    r
  }

  /** No `c` after position `r` means none in the slice after it. */
  lemma NoneAfter(s: string, c: char, r: int)
    requires -1 <= r < |s| && forall j :: r < j < |s| ==> s[j] != c
    ensures c !in s[r + 1..]
  {
    var lo := r + 1;
    assert forall j :: 0 <= j < |s| - lo ==> s[lo..][j] == s[lo + j];
  }

  /** The position of the last `c` among the first `n` characters of `s`, or -1. */
  function LastIndexBefore(s: string, c: char, n: nat): (r: int)
    requires n <= |s|
    ensures -1 <= r < n
    ensures r >= 0 ==> s[r] == c
    ensures forall j :: r < j < n ==> s[j] != c
    decreases n
  {
    if n == 0 then -1
    else if s[n - 1] == c then n - 1
    else LastIndexBefore(s, c, n - 1)
  }

  /** A `c` with no `c` after it is the last one. */
  lemma LastIndexOfIs(s: string, c: char, k: nat)
    requires k < |s| && s[k] == c && c !in s[k + 1..]
    ensures LastIndexOf(s, c) == k
  {
    assert forall j :: k < j < |s| ==> s[j] != c by {
      forall j | k < j < |s| ensures s[j] != c {
        assert s[j] == s[k + 1..][j - k - 1];
      }
    }
    var r := LastIndexOf(s, c);
    assert forall j :: r < j < |s| ==> s[j] != c by {
      forall j | r < j < |s| ensures s[j] != c {
        if r >= 0 {
          assert s[j] == s[r + 1..][j - r - 1];
        }
      }
    }
  }

  /** The inverse of `Split`: the parts glued back with `sep` between them. */
  function Join(parts: seq<string>, sep: char): string
    requires |parts| >= 1
  {
    if |parts| == 1 then parts[0] else parts[0] + [sep] + Join(parts[1..], sep)
  }

  /** `s.split(sep)` for a one-character separator: the maximal `sep`-free pieces, in order. */
  function Split(s: string, sep: char): (parts: seq<string>)
    ensures |parts| >= 1
    ensures forall i :: 0 <= i < |parts| ==> sep !in parts[i]
    decreases |s|
  {
    var k := IndexOf(s, [sep]);
    IndexOfCharMissing(s, sep);
    if k == -1 then [s]
    else
      FirstSeparator(s, sep, k);
      [s[..k]] + Split(s[k + 1..], sep)
  }

  /** Joining the parts of a split with the separator gives the string back. */
  lemma {:induction false} JoinSplit(s: string, sep: char)
    ensures Join(Split(s, sep), sep) == s
    decreases |s|
  {
    var k := IndexOf(s, [sep]);
    if k != -1 {
      FirstSeparator(s, sep, k);
      var rest := Split(s[k + 1..], sep);
      JoinSplit(s[k + 1..], sep);
      assert Split(s, sep) == [s[..k]] + rest;
      assert ([s[..k]] + rest)[1..] == rest;
    }
  }

  /** The first `sep` cuts `s` into a `sep`-free head, the separator and the rest. */
  lemma FirstSeparator(s: string, sep: char, k: nat)
    requires OccursAt(s, [sep], k) && forall j :: 0 <= j < k ==> !OccursAt(s, [sep], j)
    ensures k < |s| && sep !in s[..k] && s == s[..k] + [sep] + s[k + 1..]
  {
    assert s[k..k + 1] == [sep];
    assert sep !in s[..k] by {
      forall j | 0 <= j < k ensures s[j] != sep {
        assert !OccursAt(s, [sep], j);
        assert s[j..j + 1] == [s[j]];
      }
    }
    assert s == s[..k] + [sep] + s[k + 1..];
  }

  /** Splitting a join of `sep`-free parts gives the parts back. */
  lemma {:induction false} SplitJoin(parts: seq<string>, sep: char)
    requires |parts| >= 1
    requires forall i :: 0 <= i < |parts| ==> sep !in parts[i]
    ensures Split(Join(parts, sep), sep) == parts
    decreases |parts|
  {
    if |parts| == 1 {
      SplitWithoutSeparator(parts[0], sep);
    } else {
      var p := parts[0];
      var tail := Join(parts[1..], sep);
      var s := p + [sep] + tail;
      assert Join(parts, sep) == s;
      SeparatorAfter(p, tail, sep);
      SplitJoin(parts[1..], sep);
      assert Split(s, sep) == [p] + Split(tail, sep);
    }
  }

  /** In `p + sep + tail` with `p` free of `sep`, the first `sep` is the one after `p`. */
  lemma SeparatorAfter(p: string, tail: string, sep: char)
    requires sep !in p
    ensures var s := p + [sep] + tail;
      IndexOf(s, [sep]) == |p| && s[..|p|] == p && s[|p| + 1..] == tail
  {
    var s := p + [sep] + tail;
    assert s[|p|..|p| + 1] == [sep];
    assert OccursAt(s, [sep], |p|);
    forall j | 0 <= j < |p| ensures !OccursAt(s, [sep], j) {
      assert s[j] == p[j];
      assert s[j..j + 1] == [s[j]];
    }
    assert s[..|p|] == p;
    assert s[|p| + 1..] == tail;
  }

  /** Joining two runs of parts is joining each and gluing the results with `sep`. */
  lemma {:induction false} JoinAppend(p: seq<string>, q: seq<string>, sep: char)
    requires |p| >= 1 && |q| >= 1
    ensures Join(p + q, sep) == Join(p, sep) + [sep] + Join(q, sep)
    decreases |p|
  {
    if |p| == 1 {
      assert (p + q)[1..] == q;
    } else {
      assert (p + q)[1..] == p[1..] + q;
      JoinAppend(p[1..], q, sep);
    }
  }

  /** Splitting `x + sep + y` splits `x` and `y` separately. */
  lemma SplitAround(x: string, y: string, sep: char)
    ensures Split(x + [sep] + y, sep) == Split(x, sep) + Split(y, sep)
  {
    var parts := Split(x, sep) + Split(y, sep);
    JoinAppend(Split(x, sep), Split(y, sep), sep);
    JoinSplit(x, sep);
    JoinSplit(y, sep);
    forall i | 0 <= i < |parts| ensures sep !in parts[i] {
      if i >= |Split(x, sep)| {
        assert parts[i] == Split(y, sep)[i - |Split(x, sep)|];
      }
    }
    SplitJoin(parts, sep);
  }

  /** A `sep`-free piece standing between two separators is one of the split's parts. */
  lemma SplitFindsPiece(before: string, piece: string, after: string, sep: char)
    requires sep !in piece
    ensures piece in Split(before + [sep] + piece + [sep] + after, sep)
  {
    var tail := piece + [sep] + after;
    var s := before + [sep] + piece + [sep] + after;
    assert s == before + [sep] + tail;
    var parts := Split(s, sep);
    assert parts == Split(before, sep) + Split(tail, sep) by {
      SplitAround(before, tail, sep);
    }
    LeadingPiece(piece, after, sep);
    PieceInParts(Split(before, sep), Split(tail, sep), piece, Split(after, sep));
  }

  /** A `sep`-free piece followed by `sep` is the first part of the split. */
  lemma LeadingPiece(piece: string, after: string, sep: char)
    requires sep !in piece
    ensures Split(piece + [sep] + after, sep) == [piece] + Split(after, sep)
  {
    SplitAround(piece, after, sep);
    SplitWithoutSeparator(piece, sep);
  }

  lemma PieceInParts(parts: seq<string>, later: seq<string>, piece: string, rest: seq<string>)
    requires later == [piece] + rest
    ensures piece in parts + later
  {
    assert (parts + later)[|parts|] == piece;
  }

  /** A string without `sep` splits into itself alone. */
  lemma SplitWithoutSeparator(s: string, sep: char)
    requires sep !in s
    ensures Split(s, sep) == [s]
  {
    IndexOfCharMissing(s, sep);
  }

  /** The characters JavaScript's `trim` removes (white space and line terminators). */
  predicate IsSpace(c: char) {
    || c == '\t' || c == '\n' || c == '\U{000B}' || c == '\U{000C}' || c == '\r' || c == ' '
    || c == '\U{00A0}' || c == '\U{1680}' || ('\U{2000}' <= c <= '\U{200A}')
    || c == '\U{2028}' || c == '\U{2029}' || c == '\U{202F}' || c == '\U{205F}'
    || c == '\U{3000}' || c == '\U{FEFF}'
  }

  /** `s` with its leading white space removed. */
  function TrimStart(s: string): (r: string)
    ensures |r| <= |s|
    ensures r == s[|s| - |r|..]
    ensures forall k :: 0 <= k < |s| - |r| ==> IsSpace(s[k])
    ensures r == [] || !IsSpace(r[0])
  {
    if |s| > 0 && IsSpace(s[0]) then TrimStart(s[1..]) else s
  }

  /** `s` with its trailing white space removed. */
  function TrimEnd(s: string): (r: string)
    ensures |r| <= |s|
    ensures r == s[..|r|]
    ensures forall k :: |r| <= k < |s| ==> IsSpace(s[k])
    ensures r == [] || !IsSpace(r[|r| - 1])
  {
    if |s| > 0 && IsSpace(s[|s| - 1]) then TrimEnd(s[..|s| - 1]) else s
  }

  /** `String.prototype.trim`. */
  function Trim(s: string): string {
    TrimEnd(TrimStart(s))
  }
}
