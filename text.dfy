/**
 * String helpers with the meaning Rust's standard library gives them:
 * byte-wise ordering, `trim`, `split`, `join`, `replace` and UTF-8 lengths.
 * Strings are `seq<char>` over Unicode scalar values.
 */
module Text {

  import opened Wrappers

  // ---------------------------------------------------------------------
  // Ordering. Rust compares `str` by its UTF-8 bytes; UTF-8 preserves the
  // order of code points, so that is lexicographic order on characters.
  // ---------------------------------------------------------------------

  predicate LexLe(a: string, b: string)
  {
    if |a| == 0 then true
    else if |b| == 0 then false
    else if a[0] != b[0] then a[0] < b[0]
    else LexLe(a[1..], b[1..])
  }

  lemma {:induction false} LexLeTotal(a: string, b: string)
    ensures LexLe(a, b) || LexLe(b, a)
  {
    if |a| > 0 && |b| > 0 && a[0] == b[0] {
      LexLeTotal(a[1..], b[1..]);
    }
  }

  lemma {:induction false} LexLeAntisymmetric(a: string, b: string)
    requires LexLe(a, b) && LexLe(b, a)
    ensures a == b
  {
    if |a| > 0 && |b| > 0 {
      LexLeAntisymmetric(a[1..], b[1..]);
      assert a == [a[0]] + a[1..];
      assert b == [b[0]] + b[1..];
    }
  }

  lemma {:induction false} LexLeTransitive(a: string, b: string, c: string)
    requires LexLe(a, b) && LexLe(b, c)
    ensures LexLe(a, c)
  {
    if |a| > 0 && |b| > 0 && |c| > 0 && a[0] == b[0] && b[0] == c[0] {
      LexLeTransitive(a[1..], b[1..], c[1..]);
    }
  }

  // ---------------------------------------------------------------------
  // Whitespace and trimming (`str::trim`).
  // ---------------------------------------------------------------------

  /** Rust's `char::is_whitespace`: the Unicode White_Space property. */
  predicate IsWhitespace(c: char)
  {
    ('\t' <= c <= '\r') || c == ' ' || c == '\U{85}' || c == '\U{A0}' || c == '\U{1680}'
    || ('\U{2000}' <= c <= '\U{200A}') || c == '\U{2028}' || c == '\U{2029}'
    || c == '\U{202F}' || c == '\U{205F}' || c == '\U{3000}'
  }

  /** The length of the whitespace run `s` starts with. */
  function LeadingWhitespace(s: string): (n: nat)
    ensures n <= |s|
    ensures forall k :: 0 <= k < n ==> IsWhitespace(s[k])
    ensures n < |s| ==> !IsWhitespace(s[n])
  {
    if s != [] && IsWhitespace(s[0]) then 1 + LeadingWhitespace(s[1..]) else 0
  }

  /** The length of the whitespace run `s` ends with. */
  function TrailingWhitespace(s: string): (n: nat)
    ensures n <= |s|
    ensures forall k :: |s| - n <= k < |s| ==> IsWhitespace(s[k])
    ensures n < |s| ==> !IsWhitespace(s[|s| - 1 - n])
  {
    if s != [] && IsWhitespace(s[|s| - 1]) then 1 + TrailingWhitespace(s[..|s| - 1]) else 0
  }

  /** `str::trim`: the infix of `s` between its leading and its trailing whitespace run. */
  function Trim(s: string): (r: string)
    ensures LeadingWhitespace(s) + |r| <= |s|
    ensures r == s[LeadingWhitespace(s)..LeadingWhitespace(s) + |r|]
  {
    var i := LeadingWhitespace(s);
    s[i..|s| - TrailingWhitespace(s[i..])]
  }

  /** The trailing run of a suffix `s[i..]`, read in `s` itself. */
  lemma TrailingWhitespaceOfSuffix(s: string, i: nat)
    requires i <= |s|
    ensures var t := TrailingWhitespace(s[i..]);
            && (forall k :: |s| - t <= k < |s| ==> IsWhitespace(s[k]))
            && (i < |s| - t ==> !IsWhitespace(s[|s| - 1 - t]))
  {
    var rest := s[i..];
    var t := TrailingWhitespace(rest);
    forall k | |s| - t <= k < |s|
      ensures IsWhitespace(s[k])
    {
      assert s[k] == rest[k - i];
    }
    if i < |s| - t {
      assert s[|s| - 1 - t] == rest[|rest| - 1 - t];
    }
  }

  /**
   * Trimming removes exactly the whitespace at both ends: what is left
   * starts and ends with a non-whitespace character, and everything cut
   * off is whitespace.
   */
  lemma TrimCutsOnlyEdgeWhitespace(s: string)
    ensures var r := Trim(s);
            && (r == [] || (!IsWhitespace(r[0]) && !IsWhitespace(r[|r| - 1])))
            && (forall k :: 0 <= k < LeadingWhitespace(s) ==> IsWhitespace(s[k]))
            && (forall k :: LeadingWhitespace(s) + |r| <= k < |s| ==> IsWhitespace(s[k]))
  {
    var i := LeadingWhitespace(s);
    var j := |s| - TrailingWhitespace(s[i..]);
    TrailingWhitespaceOfSuffix(s, i);
    var r := Trim(s);
    assert r == s[i..j];
    assert i + |r| == j;
    if i < j {
      assert r[0] == s[i];
      assert r[|r| - 1] == s[j - 1];
    }
  }

  // ---------------------------------------------------------------------
  // Splitting on one character and joining with a separator.
  // ---------------------------------------------------------------------

  /** Number of occurrences of `c` in `s`. */
  function Count(s: string, c: char): nat
  {
    if s == [] then 0 else (if s[0] == c then 1 else 0) + Count(s[1..], c)
  }

  lemma {:induction false} CountZero(s: string, c: char)
    ensures Count(s, c) == 0 <==> c !in s
  {
    if s != [] {
      CountZero(s[1..], c);
      assert s == [s[0]] + s[1..];
    }
  }

  /**
   * `str::split` on one character, collected: the pieces between the
   * occurrences of `c`, in order. The empty string splits into one empty piece.
   */
  function Split(s: string, c: char): (parts: seq<string>)
    ensures |parts| == Count(s, c) + 1
    ensures forall k :: 0 <= k < |parts| ==> c !in parts[k]
  {
    if s == [] then [[]]
    else
      var rest := Split(s[1..], c);
      if s[0] == c then [[]] + rest
      else [[s[0]] + rest[0]] + rest[1..]
  }

  /** `join`: the pieces with `sep` between consecutive ones. */
  function Join(parts: seq<string>, sep: string): string
  {
    if |parts| == 0 then []
    else if |parts| == 1 then parts[0]
    else parts[0] + sep + Join(parts[1..], sep)
  }

  /** A split has exactly one piece iff the separator does not occur. */
  lemma SplitSingle(s: string, c: char)
    ensures |Split(s, c)| == 1 <==> c !in s
  {
    CountZero(s, c);
  }

  /** Joining the pieces of a split with the split character gives the string back. */
  lemma {:induction false} JoinSplit(s: string, c: char)
    ensures Join(Split(s, c), [c]) == s
  {
    if s != [] {
      var rest := Split(s[1..], c);
      JoinSplit(s[1..], c);
      if s[0] == c {
        JoinCons([], rest, [c]);
        assert s == [c] + s[1..];
      } else {
        JoinHead([s[0]], rest, [c]);
        assert s == [s[0]] + s[1..];
      }
    }
  }

  lemma JoinCons(p: string, rest: seq<string>, sep: string)
    requires |rest| >= 1
    ensures Join([p] + rest, sep) == p + sep + Join(rest, sep)
  {
    assert ([p] + rest)[1..] == rest;
  }

  lemma JoinHead(p: string, rest: seq<string>, sep: string)
    requires |rest| >= 1
    ensures Join([p + rest[0]] + rest[1..], sep) == p + Join(rest, sep)
  {
    var q := [p + rest[0]] + rest[1..];
    assert q[1..] == rest[1..];
    if |rest| > 1 {
      assert Join(rest, sep) == rest[0] + sep + Join(rest[1..], sep);
    }
  }

  /** Position of the first `c` in `s`, or `|s|` when there is none. */
  function IndexOf(s: string, c: char): (i: nat)
    ensures i <= |s|
    ensures i < |s| ==> s[i] == c
    ensures forall k :: 0 <= k < i ==> s[k] != c
  {
    if s == [] || s[0] == c then 0 else 1 + IndexOf(s[1..], c)
  }

  /** In `p + [c] + t` with `c` not in `p`, the first `c` is right after `p`. */
  lemma {:induction false} IndexAfterPrefix(p: string, c: char, t: string)
    requires c !in p
    ensures IndexOf(p + [c] + t, c) == |p|
  {
    if p != [] {
      assert (p + [c] + t)[1..] == p[1..] + [c] + t;
      IndexAfterPrefix(p[1..], c, t);
    }
  }

  /** Splitting a string that does not contain `c` gives that string alone. */
  lemma {:induction false} SplitNoSeparator(p: string, c: char)
    ensures c !in p ==> Split(p, c) == [p]
  {
    if p != [] && c !in p {
      SplitNoSeparator(p[1..], c);
      assert p == [p[0]] + p[1..];
    }
  }

  /** A split of `p + [c] + t` with `c` not in `p` starts with the piece `p`. */
  lemma {:induction false} SplitAfterPiece(p: string, c: char, t: string)
    requires c !in p
    ensures Split(p + [c] + t, c) == [p] + Split(t, c)
  {
    var s := p + [c] + t;
    if p == [] {
      assert s[1..] == t;
    } else {
      assert s[1..] == p[1..] + [c] + t;
      SplitAfterPiece(p[1..], c, t);
      assert [p[0]] + p[1..] == p;
    }
  }

  /** Splitting a join gives the pieces back when none holds the separator. */
  lemma {:induction false} SplitJoin(parts: seq<string>, c: char)
    requires |parts| >= 1
    requires forall k :: 0 <= k < |parts| ==> c !in parts[k]
    ensures Split(Join(parts, [c]), c) == parts
  {
    if |parts| == 1 {
      SplitNoSeparator(parts[0], c);
    } else {
      SplitJoin(parts[1..], c);
      SplitAfterPiece(parts[0], c, Join(parts[1..], [c]));
      assert [parts[0]] + parts[1..] == parts;
    }
  }

  /** `str::replace` of one character by a string `rep`. */
  function ReplaceChar(s: string, c: char, rep: string): string
  {
    if s == [] then []
    else (if s[0] == c then rep else [s[0]]) + ReplaceChar(s[1..], c, rep)
  }

  /** Replacing `c` by `rep` is the same as splitting on `c` and joining with `rep`. */
  lemma {:induction false} ReplaceIsSplitJoin(s: string, c: char, rep: string)
    ensures ReplaceChar(s, c, rep) == Join(Split(s, c), rep)
  {
    if s != [] {
      ReplaceIsSplitJoin(s[1..], c, rep);
      var rest := Split(s[1..], c);
      if s[0] == c {
        JoinCons([], rest, rep);
      } else {
        JoinHead([s[0]], rest, rep);
      }
    }
  }

  // ---------------------------------------------------------------------
  // UTF-8 lengths: Rust's `str::len` counts bytes.
  // ---------------------------------------------------------------------

  function Utf8Width(c: char): nat
  {
    if c as int < 0x80 then 1
    else if c as int < 0x800 then 2
    else if c as int < 0x1_0000 then 3
    else 4
  }

  function Utf8Len(s: string): nat
  {
    if s == [] then 0 else Utf8Width(s[0]) + Utf8Len(s[1..])
  }

  predicate IsAscii(s: string)
  {
    forall k :: 0 <= k < |s| ==> s[k] as int < 0x80
  }

  lemma {:induction false} AsciiUtf8Len(s: string)
    requires IsAscii(s)
    ensures Utf8Len(s) == |s|
  {
    if s != [] {
      AsciiUtf8Len(s[1..]);
    }
  }

  /**
   * The byte slice `&s[..n]`: the prefix of `s` that is exactly `n` bytes
   * long, or None when byte `n` falls inside a character or past the end
   * (where Rust panics).
   */
  function Utf8Prefix(s: string, n: nat): (r: Option<string>)
    ensures r.Some? ==> |r.value| <= |s| && r.value == s[..|r.value|] && Utf8Len(r.value) == n
    ensures r.None? ==> forall k :: 0 <= k <= |s| ==> Utf8Len(s[..k]) != n
  {
    if n == 0 then Some([])
    else if s == [] then None
    else if Utf8Width(s[0]) > n then
      assert forall k :: 1 <= k <= |s| ==> s[..k][1..] == s[1..k];
      None
    else match Utf8Prefix(s[1..], n - Utf8Width(s[0]))
      case None =>
        assert forall k :: 1 <= k <= |s| ==> s[..k][1..] == s[1..][..k - 1];
        None
      case Some(p) =>
        assert ([s[0]] + p)[1..] == p;
        Some([s[0]] + p)
  }

  /** On ASCII text the byte prefix is the character prefix. */
  lemma {:induction false} AsciiUtf8Prefix(s: string, n: nat)
    requires IsAscii(s) && n <= |s|
    ensures Utf8Prefix(s, n) == Some(s[..n])
  {
    if n > 0 {
      AsciiUtf8Prefix(s[1..], n - 1);
      assert s[..n] == [s[0]] + s[1..][..n - 1];
    }
  }

}
