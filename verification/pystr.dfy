/**
 * The few Python `str` operations the evaluation script relies on, over
 * `seq<char>`: the `in` operator, `str.find`, `str.split(sep)` with a
 * non-empty separator, `sep.join` (as the inverse of split) and `str.strip()`.
 */
module PyStr {
  import opened Results

  type String = seq<char>

  /** Python's `str.isspace()` for one character: the code points that
      `str.strip()` with no argument removes. */
  predicate IsSpace(c: char) {
    || ('\t' <= c <= '\r')                  // \t \n \v \f \r
    || ('\U{1C}' <= c <= '\U{1F}')          // file, group, record and unit separators
    || c == ' '
    || c == '\U{85}'
    || c == '\U{A0}'
    || c == '\U{1680}'
    || ('\U{2000}' <= c <= '\U{200A}')
    || c == '\U{2028}'
    || c == '\U{2029}'
    || c == '\U{202F}'
    || c == '\U{205F}'
    || c == '\U{3000}'
  }

  predicate AllSpace(s: String) {
    forall k :: 0 <= k < |s| ==> IsSpace(s[k])
  }

  // ---------------------------------------------------------------------
  // Substring search
  // ---------------------------------------------------------------------

  /** `sep` occurs in `s` starting at index `i`. */
  predicate OccursAt(s: String, sep: String, i: int) {
    0 <= i && i + |sep| <= |s| && s[i..i + |sep|] == sep
  }

  /** Python's `sep in s`. */
  predicate Contains(s: String, sep: String) {
    exists i | 0 <= i <= |s| - |sep| :: OccursAt(s, sep, i)
  }

  /** `i` is the leftmost occurrence of `sep` in `s` at or after `from`. */
  ghost predicate FirstFrom(s: String, sep: String, from: int, i: int) {
    from <= i && OccursAt(s, sep, i) && forall j :: from <= j < i ==> !OccursAt(s, sep, j)
  }

  /** Python's `s.find(sep, from)`, with `None` for -1. */
  function FindFrom(s: String, sep: String, from: nat): (r: Option<nat>)
    ensures r.Some? ==> FirstFrom(s, sep, from, r.value)
    ensures r.None? <==> forall j :: from <= j ==> !OccursAt(s, sep, j)
    decreases |s| - from
  {
    if from + |sep| > |s| then None
    else if s[from..from + |sep|] == sep then Some(from)
    else FindFrom(s, sep, from + 1)
  }

  /** The end of the piece that starts at `from`: the next occurrence of
      `sep`, or the end of `s` when there is none. */
  function PieceEnd(s: String, sep: String, from: nat): (e: nat)
    requires from <= |s|
    ensures from <= e <= |s|
  {
    match FindFrom(s, sep, from)
    case None => |s|
    case Some(j) => j
  }

  lemma ContainsIffFind(s: String, sep: String)
    ensures Contains(s, sep) <==> FindFrom(s, sep, 0).Some?
  {
    if FindFrom(s, sep, 0).Some? {
      assert OccursAt(s, sep, FindFrom(s, sep, 0).value);
    }
  }

  /** An occurrence inside a prefix is an occurrence in the whole. */
  lemma OccursInPrefix(s: String, n: nat, sep: String, j: int)
    requires n <= |s|
    ensures OccursAt(s[..n], sep, j) ==> OccursAt(s, sep, j)
  {
    if OccursAt(s[..n], sep, j) {
      assert s[..n][j..j + |sep|] == s[j..j + |sep|];
    }
  }

  lemma SliceOfPrefix(s: String, n: nat, a: nat, b: nat)
    requires a <= b <= n <= |s|
    ensures s[..n][a..b] == s[a..b]
  {
  }

  /** A search finds the leftmost occurrence whenever there is one. */
  lemma FindFromFirst(s: String, sep: String, from: nat, i: int)
    requires FirstFrom(s, sep, from, i)
    ensures FindFrom(s, sep, from) == Some(i)
  {
    var b := FindFrom(s, sep, from);
    assert OccursAt(s, sep, i);
    assert b.Some?;
  }

  /** An occurrence inside a slice is an occurrence in the whole, shifted. */
  lemma OccursInSlice(s: String, a: nat, b: nat, sep: String, j: int)
    requires a <= b <= |s|
    ensures OccursAt(s[a..b], sep, j) ==> OccursAt(s, sep, a + j)
  {
    var t := s[a..b];
    if OccursAt(t, sep, j) {
      forall k | 0 <= k < |t| ensures t[k] == s[a + k] {
      }
      assert t[j..j + |sep|] == s[a + j..a + j + |sep|];
    }
  }

  // ---------------------------------------------------------------------
  // str.split(sep) and sep.join
  // ---------------------------------------------------------------------

  /** The pieces of `s.split(sep)` from position `from` on: cut at every
      leftmost non-overlapping occurrence of `sep`. */
  function SplitFrom(s: String, sep: String, from: nat): (r: seq<String>)
    requires |sep| > 0 && from <= |s|
    ensures |r| >= 1
    decreases |s| - from
  {
    match FindFrom(s, sep, from)
    case None => [s[from..]]
    case Some(j) => [s[from..j]] + SplitFrom(s, sep, j + |sep|)
  }

  /** Python's `s.split(sep)` for a non-empty `sep`. Never returns an empty list. */
  function Split(s: String, sep: String): (r: seq<String>)
    requires |sep| > 0
    ensures |r| >= 1
  {
    SplitFrom(s, sep, 0)
  }

  /** Python's `sep.join(parts)` for a non-empty list. */
  function Join(parts: seq<String>, sep: String): String
    requires |parts| >= 1
  {
    if |parts| == 1 then parts[0] else parts[0] + sep + Join(parts[1..], sep)
  }

  /** A piece is leftmost when no occurrence of `sep` starts inside it, even
      one that runs on into the separator that follows it. */
  predicate Leftmost(piece: String, sep: String)
    requires |sep| > 0
  {
    !Contains(piece + sep[..|sep| - 1], sep)
  }

  lemma SplitJoin(s: String, sep: String)
    requires |sep| > 0
    ensures Join(Split(s, sep), sep) == s
  {
    JoinSplitFrom(s, sep, 0);
  }

  lemma {:induction false} JoinSplitFrom(s: String, sep: String, from: nat)
    requires |sep| > 0 && from <= |s|
    ensures Join(SplitFrom(s, sep, from), sep) == s[from..]
    decreases |s| - from
  {
    match FindFrom(s, sep, from)
    case None =>
    case Some(j) =>
      var d := j + |sep|;
      var pieces := SplitFrom(s, sep, d);
      JoinSplitFrom(s, sep, d);
      assert SplitFrom(s, sep, from) == [s[from..j]] + pieces;
      assert Join([s[from..j]] + pieces, sep) == s[from..j] + sep + Join(pieces, sep) by {
        assert ([s[from..j]] + pieces)[1..] == pieces;
      }
      assert s[from..] == s[from..j] + s[j..d] + s[d..];
  }

  /** The piece a search cuts off is leftmost. */
  lemma PieceLeftmost(s: String, sep: String, from: nat, i: nat)
    requires |sep| > 0 && FirstFrom(s, sep, from, i)
    ensures Leftmost(s[from..i], sep)
  {
    var p := s[from..i] + sep[..|sep| - 1];
    var b := i + |sep| - 1;
    assert p == s[from..b] by {
      assert s[i..i + |sep|] == sep;
    }
    if Contains(p, sep) {
      var j :| 0 <= j <= |p| - |sep| && OccursAt(p, sep, j);
      OccursInSlice(s, from, b, sep, j);
      assert false;
    }
  }

  /** With no occurrence from `from` on, the rest of the string holds none. */
  lemma NoneInRest(s: String, sep: String, from: nat)
    requires from <= |s| && FindFrom(s, sep, from).None?
    ensures !Contains(s[from..], sep)
  {
    if Contains(s[from..], sep) {
      var j :| 0 <= j <= |s| - from - |sep| && OccursAt(s[from..], sep, j);
      assert s[from..|s|] == s[from..];
      OccursInSlice(s, from, |s|, sep, j);
      assert false;
    }
  }

  /** Every piece but the last is leftmost, and the last holds no `sep`. */
  ghost predicate AllLeftmost(r: seq<String>, sep: String)
    requires |sep| > 0 && |r| >= 1
  {
    && (forall k :: 0 <= k < |r| - 1 ==> Leftmost(r[k], sep))
    && !Contains(r[|r| - 1], sep)
  }

  lemma ConsLeftmost(p: String, r: seq<String>, sep: String)
    requires |sep| > 0 && |r| >= 1 && Leftmost(p, sep) && AllLeftmost(r, sep)
    ensures AllLeftmost([p] + r, sep)
  {
    var q := [p] + r;
    forall k | 0 <= k < |q| - 1 ensures Leftmost(q[k], sep) {
      if k > 0 { assert q[k] == r[k - 1]; }
    }
    assert q[|q| - 1] == r[|r| - 1];
  }

  /** Every piece of a split is leftmost, and the last piece holds no `sep`:
      with `SplitJoin` this pins the pieces down as Python's. */
  lemma SplitPiecesLeftmost(s: String, sep: String)
    requires |sep| > 0
    ensures forall k :: 0 <= k < |Split(s, sep)| - 1 ==> Leftmost(Split(s, sep)[k], sep)
    ensures !Contains(Split(s, sep)[|Split(s, sep)| - 1], sep)
  {
    PiecesLeftmostFrom(s, sep, 0);
  }

  lemma {:induction false} PiecesLeftmostFrom(s: String, sep: String, from: nat)
    requires |sep| > 0 && from <= |s|
    ensures AllLeftmost(SplitFrom(s, sep, from), sep)
    decreases |s| - from
  {
    match FindFrom(s, sep, from)
    case None =>
      NoneInRest(s, sep, from);
      assert SplitFrom(s, sep, from) == [s[from..]];
    case Some(i) =>
      PiecesLeftmostFrom(s, sep, i + |sep|);
      PieceLeftmost(s, sep, from, i);
      ConsLeftmost(s[from..i], SplitFrom(s, sep, i + |sep|), sep);
  }

  /** `s.split(sep)` has a second piece exactly when `sep in s`. */
  lemma SplitHasSecondPiece(s: String, sep: String)
    requires |sep| > 0
    ensures |Split(s, sep)| >= 2 <==> Contains(s, sep)
  {
    ContainsIffFind(s, sep);
  }

  /** The first piece from `from` runs up to the next occurrence or the end. */
  lemma PieceFrom(s: String, sep: String, from: nat)
    requires |sep| > 0 && from <= |s|
    ensures SplitFrom(s, sep, from)[0] == s[from..PieceEnd(s, sep, from)]
  {
  }

  /** `s.split(sep)[0]` is everything before the first occurrence of `sep`. */
  lemma SplitFirstPiece(s: String, sep: String)
    requires |sep| > 0
    ensures Split(s, sep)[0] == s[..PieceEnd(s, sep, 0)]
  {
    PieceFrom(s, sep, 0);
  }

  /** `s.split(sep)[1]`, when `sep` first occurs at `i`, runs from just after
      that occurrence up to the next one or the end of `s`. */
  lemma SplitSecondPiece(s: String, sep: String, i: nat)
    requires |sep| > 0 && FindFrom(s, sep, 0) == Some(i)
    ensures i + |sep| <= |s| && |Split(s, sep)| >= 2
    ensures Split(s, sep)[1] == s[i + |sep|..PieceEnd(s, sep, i + |sep|)]
  {
    SecondFrom(s, sep, 0, i);
    PieceFrom(s, sep, i + |sep|);
  }

  /** After a cut at `j`, the next piece is the first piece from `j + |sep|`. */
  lemma SecondFrom(s: String, sep: String, from: nat, j: nat)
    requires |sep| > 0 && from <= |s| && FindFrom(s, sep, from) == Some(j)
    ensures j + |sep| <= |s| && |SplitFrom(s, sep, from)| >= 2
    ensures SplitFrom(s, sep, from)[1] == SplitFrom(s, sep, j + |sep|)[0]
  {
  }

  // ---------------------------------------------------------------------
  // str.strip()
  // ---------------------------------------------------------------------

  /** Where the leading whitespace from `i` on ends: the first index at or
      after `i` that is not whitespace, or `|s|`. */
  function SkipSpace(s: String, i: nat): (j: nat)
    requires i <= |s|
    ensures i <= j <= |s|
    ensures forall k :: i <= k < j ==> IsSpace(s[k])
    ensures j < |s| ==> !IsSpace(s[j])
    decreases |s| - i
  {
    if i < |s| && IsSpace(s[i]) then SkipSpace(s, i + 1) else i
  }

  /** Where the trailing whitespace before `e` starts, looking no further
      left than `lo`. */
  function TrimSpace(s: String, lo: nat, e: nat): (j: nat)
    requires lo <= e <= |s|
    ensures lo <= j <= e
    ensures forall k :: j <= k < e ==> IsSpace(s[k])
    ensures j > lo ==> !IsSpace(s[j - 1])
    decreases e - lo
  {
    if e > lo && IsSpace(s[e - 1]) then TrimSpace(s, lo, e - 1) else e
  }

  /** `r` is `s` with the whitespace before index `i` and after `r` cut
      off, and nothing more could be cut. */
  ghost predicate StrippedAt(s: String, r: String, i: int) {
    && 0 <= i && i + |r| <= |s|
    && r == s[i..i + |r|]
    && (forall k :: 0 <= k < i ==> IsSpace(s[k]))
    && (forall k :: i + |r| <= k < |s| ==> IsSpace(s[k]))
    && (|r| > 0 ==> !IsSpace(s[i]) && !IsSpace(s[i + |r| - 1]))
  }

  /** Python's `s.strip()`: leading and trailing whitespace removed. */
  function Strip(s: String): (r: String)
    ensures StrippedAt(s, r, SkipSpace(s, 0))
  {
    var a := SkipSpace(s, 0);
    var b := TrimSpace(s, a, |s|);
    s[a..b]
  }

  /** Stripping is determined by its characterisation: any way of cutting
      maximal whitespace runs from both ends gives `Strip(s)`. */
  lemma StripUnique(s: String, r: String, i: int)
    requires StrippedAt(s, r, i)
    ensures Strip(s) == r
  {
    var r' := Strip(s);
    var i' := SkipSpace(s, 0);
    assert StrippedAt(s, r', i');
    if |r| > 0 && |r'| > 0 {
      assert i == i';
      assert |r| == |r'|;
    }
  }

  /** A string with no whitespace at either end is its own strip. */
  lemma StripUnpadded(s: String)
    requires |s| > 0 && !IsSpace(s[0]) && !IsSpace(s[|s| - 1])
    ensures Strip(s) == s
  {
    assert StrippedAt(s, s, 0);
    StripUnique(s, s, 0);
  }

  /** `len(s.strip()) == 0` exactly when `s` is all whitespace. */
  lemma StripEmptyIff(s: String)
    ensures |Strip(s)| == 0 <==> AllSpace(s)
  {
    var i := SkipSpace(s, 0);
    if |Strip(s)| > 0 {
      assert !IsSpace(s[i]);
    }
  }

  /** Stripping twice is stripping once. */
  lemma StripIdempotent(s: String)
    ensures Strip(Strip(s)) == Strip(s)
  {
    var r := Strip(s);
    assert StrippedAt(r, r, 0);
    StripUnique(r, r, 0);
  }

  /** Whitespace added around a string is stripped away again. */
  lemma StripPadding(pre: String, s: String, post: String)
    requires AllSpace(pre) && AllSpace(post)
    ensures Strip(pre + s + post) == Strip(s)
  {
    var r := Strip(s);
    var i := SkipSpace(s, 0);
    StrippedPadded(pre, s, post, r, i);
    StripUnique(pre + s + post, r, |pre| + i);
  }

  /** Cutting whitespace runs from a string still does so after more
      whitespace is added around it. */
  lemma StrippedPadded(pre: String, s: String, post: String, r: String, i: int)
    requires AllSpace(pre) && AllSpace(post) && StrippedAt(s, r, i)
    ensures StrippedAt(pre + s + post, r, |pre| + i)
  {
    var t := pre + s + post;
    var j := |pre| + i;
    forall k | 0 <= k < |t| ensures t[k] == if k < |pre| then pre[k] else if k < |pre| + |s| then s[k - |pre|] else post[k - |pre| - |s|] {
    }
    assert r == t[j..j + |r|];
  }
}
