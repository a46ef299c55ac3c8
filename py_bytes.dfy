/**
 The parts of Python's `bytes` type that the blob decoder relies on: indexing,
 slicing with clamped bounds, `bytes.split` on a non-empty separator, and
 `int.from_bytes(..., "little")`.
 */
module PyBytes {

  import opened Wrappers

  /** An element of a Python `bytes` object: indexing one yields an int in [0, 256). */
  type byte = x: int | 0 <= x < 256

  function Min(a: int, b: int): int
  {
    if a <= b then a else b
  }

  /** `s[i]` as an int, or 0 when `s` is too short to have it. */
  function ByteOrZero(s: seq<byte>, i: nat): int
  {
    if i < |s| then s[i] as int else 0
  }

  /** `sep` occurs in `s` starting at index `i`. */
  predicate OccursAt(s: seq<byte>, sep: seq<byte>, i: nat)
  {
    i + |sep| <= |s| && s[i..i + |sep|] == sep
  }

  /** `sep in s` for a bytes object `s`. */
  predicate Contains(s: seq<byte>, sep: seq<byte>)
  {
    exists i: nat | i <= |s| :: OccursAt(s, sep, i)
  }

  /** `s.find(sep, from)`: the first index at or after `from` where `sep` occurs. */
  function FindFrom(s: seq<byte>, sep: seq<byte>, from: nat): (r: Option<nat>)
    ensures r.Some? ==> from <= r.value && OccursAt(s, sep, r.value)
    ensures r.Some? ==> forall j :: from <= j < r.value ==> !OccursAt(s, sep, j)
    ensures r.None? ==> forall j :: from <= j ==> !OccursAt(s, sep, j)
    decreases |s| - from
  {
    if from + |sep| > |s| then None
    else if s[from..from + |sep|] == sep then Some(from)
    else FindFrom(s, sep, from + 1)
  }

  /** An occurrence inside a prefix of `s` is an occurrence in `s`. */
  lemma OccursInPrefix(s: seq<byte>, sep: seq<byte>, i: nat, j: nat)
    requires i <= |s| && OccursAt(s[..i], sep, j)
    ensures j + |sep| <= i && OccursAt(s, sep, j)
  {
    assert s[..i][j..j + |sep|] == s[j..j + |sep|];
  }

  /** Occurrences in a suffix of `s` are the occurrences in `s` past its start, shifted. */
  lemma OccursInSuffix(s: seq<byte>, sep: seq<byte>, i: nat, j: nat)
    requires i <= |s|
    ensures OccursAt(s[i..], sep, j) <==> OccursAt(s, sep, i + j)
  {
    if i + j + |sep| <= |s| {
      assert s[i..][j..j + |sep|] == s[i + j..i + j + |sep|];
    }
  }

  /**
   `s.split(sep)` for a non-empty `sep`: the pieces between consecutive
   non-overlapping occurrences, scanning left to right; `s` itself when `sep`
   does not occur.
   */
  function Split(s: seq<byte>, sep: seq<byte>): (parts: seq<seq<byte>>)
    requires |sep| > 0
    ensures |parts| >= 1
    ensures forall k :: 0 <= k < |parts| ==> !Contains(parts[k], sep)
    decreases |s|
  {
    match FindFrom(s, sep, 0)
    case None => [s]
    case Some(i) =>
      var head := s[..i];
      assert !Contains(head, sep) by {
        forall j: nat | OccursAt(head, sep, j) ensures false {
          OccursInPrefix(s, sep, i, j);
        }
      }
      [head] + Split(s[i + |sep|..], sep)
  }

  /** `s.find(sep, from)` is the first occurrence at or after `from`. */
  lemma FindFromFirst(s: seq<byte>, sep: seq<byte>, from: nat, i: nat)
    requires from <= i && OccursAt(s, sep, i)
    requires forall j :: from <= j < i ==> !OccursAt(s, sep, j)
    ensures FindFrom(s, sep, from) == Some(i)
  {
  }

  /**
   `s.split(sep)[1]`: when the first occurrence is at `i` and the next one
   from `i + len(sep)` on is at `e` (or there is none and `e` is `len(s)`),
   the second piece is `s[i + len(sep):e]`.
   */
  lemma SplitSecondPiece(s: seq<byte>, sep: seq<byte>, i: nat, e: nat)
    requires |sep| > 0 && OccursAt(s, sep, i)
    requires forall j :: 0 <= j < i ==> !OccursAt(s, sep, j)
    requires i + |sep| <= e <= |s|
    requires forall j :: i + |sep| <= j < e ==> !OccursAt(s, sep, j)
    requires e == |s| || OccursAt(s, sep, e)
    ensures |Split(s, sep)| >= 2 && Split(s, sep)[1] == s[i + |sep|..e]
  {
    var a := i + |sep|;
    SplitAt(s, sep, i);
    OccurrencesInTail(s, sep, a, e);
    SplitFirstPiece(s[a..], sep, e - a);
  }

  /** Where `sep` occurs in `s[a:]` before `e - a`, and at `e - a`, is where it does in `s` from `a` on. */
  lemma OccurrencesInTail(s: seq<byte>, sep: seq<byte>, a: nat, e: nat)
    requires a <= e <= |s|
    requires forall j :: a <= j < e ==> !OccursAt(s, sep, j)
    requires e == |s| || OccursAt(s, sep, e)
    ensures forall j :: 0 <= j < e - a ==> !OccursAt(s[a..], sep, j)
    ensures e == |s| || OccursAt(s[a..], sep, e - a)
    ensures s[a..][..e - a] == s[a..e]
  {
    forall j | 0 <= j < e - a ensures !OccursAt(s[a..], sep, j) {
      OccursInSuffix(s, sep, a, j);
    }
    if e < |s| {
      OccursInSuffix(s, sep, a, e - a);
    }
  }

  /** When the first occurrence of `sep` is at `i`, the split is `s[:i]` followed by the split of the rest. */
  lemma SplitAt(s: seq<byte>, sep: seq<byte>, i: nat)
    requires |sep| > 0 && OccursAt(s, sep, i)
    requires forall j :: 0 <= j < i ==> !OccursAt(s, sep, j)
    ensures Split(s, sep) == [s[..i]] + Split(s[i + |sep|..], sep)
    ensures |Split(s, sep)| >= 2 && Split(s, sep)[1] == Split(s[i + |sep|..], sep)[0]
  {
    FindFromFirst(s, sep, 0, i);
  }

  /** When the first occurrence of `sep` is at `e` (or there is none and `e` is `len(s)`), the first piece is `s[:e]`. */
  lemma SplitFirstPiece(s: seq<byte>, sep: seq<byte>, e: nat)
    requires |sep| > 0 && e <= |s|
    requires forall j :: 0 <= j < e ==> !OccursAt(s, sep, j)
    requires e == |s| || OccursAt(s, sep, e)
    ensures Split(s, sep)[0] == s[..e]
  {
    if e < |s| {
      FindFromFirst(s, sep, 0, e);
    } else {
      assert FindFrom(s, sep, 0) == None;
    }
  }

  /** An occurrence at `j` in `u` is an occurrence at `|t| + j` in `t + u`, and back. */
  lemma OccursInAppend(t: seq<byte>, u: seq<byte>, sep: seq<byte>, j: nat)
    ensures OccursAt(t + u, sep, |t| + j) <==> OccursAt(u, sep, j)
  {
    assert (t + u)[|t|..] == u;
    OccursInSuffix(t + u, sep, |t|, j);
  }

  /**
   `(prefix + sep + body).split(sep)[1]` is `body[:m]` when `sep` does not
   occur before the end of `prefix` and `m` is the first occurrence in `body`
   (or `len(body)`).
   */
  lemma SplitAroundFirst(prefix: seq<byte>, sep: seq<byte>, body: seq<byte>, m: nat)
    requires |sep| > 0
    requires forall j :: 0 <= j < |prefix| ==> !OccursAt(prefix + (sep + body), sep, j)
    requires m <= |body| && (m == |body| || OccursAt(body, sep, m))
    requires forall j :: 0 <= j < m ==> !OccursAt(body, sep, j)
    ensures |Split(prefix + (sep + body), sep)| >= 2 && Split(prefix + (sep + body), sep)[1] == body[..m]
  {
    var rest := sep + body;
    OccurrencesAfterPrefix(prefix, sep, body, m);
    SplitSecondPiece(prefix + rest, sep, |prefix|, |prefix| + |sep| + m);
    SliceOfAppend(prefix, rest, |sep|, |sep| + m);
    SliceOfAppend(sep, body, 0, m);
  }

  /**
   In `prefix + sep + body`, `sep` occurs right after `prefix`, and from the
   end of that occurrence on exactly where it occurs in `body`.
   */
  lemma OccurrencesAfterPrefix(prefix: seq<byte>, sep: seq<byte>, body: seq<byte>, m: nat)
    requires m <= |body| && (m == |body| || OccursAt(body, sep, m))
    requires forall j :: 0 <= j < m ==> !OccursAt(body, sep, j)
    ensures OccursAt(prefix + (sep + body), sep, |prefix|)
    ensures forall j :: |prefix| + |sep| <= j < |prefix| + |sep| + m ==> !OccursAt(prefix + (sep + body), sep, j)
    ensures m == |body| || OccursAt(prefix + (sep + body), sep, |prefix| + |sep| + m)
  {
    var rest := sep + body;
    var a := |prefix| + |sep|;
    assert rest[..|sep|] == sep;
    OccursInAppend(prefix, rest, sep, 0);
    forall j | a <= j < a + m ensures !OccursAt(prefix + rest, sep, j) {
      OccursInAppend(prefix, rest, sep, j - |prefix|);
      OccursInAppend(sep, body, sep, j - a);
    }
    if m < |body| {
      OccursInAppend(prefix, rest, sep, a + m - |prefix|);
      OccursInAppend(sep, body, sep, m);
    }
  }

  /** `sep.join(parts)`. */
  function Join(parts: seq<seq<byte>>, sep: seq<byte>): seq<byte>
    requires |parts| >= 1
  {
    if |parts| == 1 then parts[0] else parts[0] + sep + Join(parts[1..], sep)
  }

  /** Joining a piece in front of at least one more puts the separator between them. */
  lemma JoinCons(head: seq<byte>, tail: seq<seq<byte>>, sep: seq<byte>)
    requires |tail| >= 1
    ensures Join([head] + tail, sep) == head + sep + Join(tail, sep)
  {
    assert ([head] + tail)[1..] == tail;
  }

  /** Splitting loses nothing: joining the pieces with the separator gives back `s`. */
  lemma {:induction false} JoinSplit(s: seq<byte>, sep: seq<byte>)
    requires |sep| > 0
    ensures Join(Split(s, sep), sep) == s
    decreases |s|
  {
    match FindFrom(s, sep, 0)
    case None =>
    case Some(i) =>
      var rest := s[i + |sep|..];
      assert Split(s, sep) == [s[..i]] + Split(rest, sep);
      JoinSplit(rest, sep);
      JoinCons(s[..i], Split(rest, sep), sep);
      assert s[i..i + |sep|] == sep;
      assert s == s[..i] + s[i..i + |sep|] + rest;
  }

  /** `s.split(sep)` has a single piece exactly when `sep` does not occur in `s`. */
  lemma SplitSingleIffAbsent(s: seq<byte>, sep: seq<byte>)
    requires |sep| > 0
    ensures |Split(s, sep)| == 1 <==> !Contains(s, sep)
  {
    match FindFrom(s, sep, 0)
    case None =>
    case Some(i) =>
      assert OccursAt(s, sep, i);
  }

  /**
   Python's `s[lo:hi]` for non-negative bounds: both bounds are clamped to
   `len(s)` and the slice is empty when `lo >= hi`; it never raises.
   */
  function Slice(s: seq<byte>, lo: nat, hi: nat): (r: seq<byte>)
    ensures |r| == if lo < Min(hi, |s|) then Min(hi, |s|) - lo else 0
    ensures forall k :: 0 <= k < |r| ==> lo + k < |s| && r[k] == s[lo + k]
  {
    var h := Min(hi, |s|);
    if lo < h then s[lo..h] else []
  }

  /** 256 to the power `n`: one more than the largest value `n` bytes hold. */
  function Pow256(n: nat): (p: nat)
    ensures p >= 1
  {
    if n == 0 then 1 else 256 * Pow256(n - 1)
  }

  /** `int.from_bytes(b, "little")`: the unsigned little-endian value of `b`; 0 for empty `b`. */
  function FromBytesLittle(b: seq<byte>): (n: nat)
    ensures n < Pow256(|b|)
  {
    if b == [] then 0 else b[0] + 256 * FromBytesLittle(b[1..])
  }

  /** `n.to_bytes(width, "little")` for an `n` that fits. */
  function ToBytesLittle(n: nat, width: nat): (b: seq<byte>)
    requires n < Pow256(width)
    ensures |b| == width
  {
    if width == 0 then [] else [n % 256] + ToBytesLittle(n / 256, width - 1)
  }

  /** `int.from_bytes` undoes `int.to_bytes` on values that fit the width. */
  lemma {:induction false} FromToBytesLittle(n: nat, width: nat)
    requires n < Pow256(width)
    ensures FromBytesLittle(ToBytesLittle(n, width)) == n
  {
    if width > 0 {
      FromToBytesLittle(n / 256, width - 1);
      assert ToBytesLittle(n, width)[1..] == ToBytesLittle(n / 256, width - 1);
    }
  }

  /** `int.to_bytes` undoes `int.from_bytes` at the input's own width. */
  lemma {:induction false} ToFromBytesLittle(b: seq<byte>)
    ensures ToBytesLittle(FromBytesLittle(b), |b|) == b
  {
    if b != [] {
      var n := FromBytesLittle(b);
      ToFromBytesLittle(b[1..]);
      assert n % 256 == b[0] && n / 256 == FromBytesLittle(b[1..]);
    }
  }

  /** The two-byte reading used by the extended length header, and its clamped forms. */
  lemma FromBytesLittleShort(b: seq<byte>)
    requires |b| <= 2
    ensures FromBytesLittle(b) == ByteOrZero(b, 0) + 256 * ByteOrZero(b, 1)
  {
    if |b| > 0 {
      assert FromBytesLittle(b) == b[0] + 256 * FromBytesLittle(b[1..]);
      if |b| > 1 {
        assert b[1..][1..] == [];
      }
    }
  }

  /** A slice of `t + u` past the end of `t` is a slice of `u`. */
  lemma SliceOfAppend(t: seq<byte>, u: seq<byte>, lo: nat, hi: nat)
    requires lo <= hi <= |u|
    ensures (t + u)[|t| + lo..|t| + hi] == u[lo..hi]
  {
  }

  /** A slice up to the end is the plain subsequence. */
  lemma SliceToEnd(s: seq<byte>, lo: nat)
    requires lo <= |s|
    ensures Slice(s, lo, |s|) == s[lo..]
  {
  }

  /** Slicing the tail `s[a:]` again is one slice of `s`. */
  lemma SliceOfTail(s: seq<byte>, a: nat, lo: nat, hi: nat)
    requires a <= |s|
    ensures Slice(Slice(s, a, |s|), lo, hi) == Slice(s, a + lo, a + hi)
  {
    var t := Slice(s, a, |s|);
    assert t == s[a..];
    var x, y := Slice(t, lo, hi), Slice(s, a + lo, a + hi);
    assert |x| == |y|;
    forall k | 0 <= k < |x| ensures x[k] == y[k] {
    }
  }
}
