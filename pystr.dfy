/** The two Python `str` methods that the results-file parser relies on:
    `strip` (with and without a character argument) and `split` on one separator.
    Both are defined by the indices they stop at; what they compute is stated by the
    lemmas that follow each definition. */
module PyStr {

  /** The characters for which Python's `str.isspace()` holds; `str.strip()` with no
      argument removes these from both ends. */
  predicate IsSpace(c: char)
  {
    || '\t' <= c <= '\r'                    // tab, line feed, vertical tab, form feed, return
    || '\U{001C}' <= c <= ' '                // file, group, record and unit separators; space
    || c == '\U{0085}' || c == '\U{00A0}' || c == '\U{1680}'
    || '\U{2000}' <= c <= '\U{200A}'
    || c == '\U{2028}' || c == '\U{2029}' || c == '\U{202F}' || c == '\U{205F}' || c == '\U{3000}'
  }

  /** Every character of `s` from index `lo` up to (not including) `hi` satisfies `cs`.
      A set of characters to strip is given as the predicate that picks them out. */
  predicate AllIn(s: string, lo: int, hi: int, cs: char -> bool)
    requires 0 <= lo <= hi <= |s|
  {
    forall k :: lo <= k < hi ==> cs(s[k])
  }

  /** `r` is what remains of `s` once the longest prefix and the longest suffix made only
      of characters satisfying `cs` are removed: an infix of `s`, everything around it
      satisfying `cs`, and (unless nothing remains) neither of its ends satisfying `cs`. */
  ghost predicate IsStripOf(r: string, s: string, cs: char -> bool)
  {
    exists i, j :: 0 <= i <= j <= |s| && r == s[i..j] && AllIn(s, 0, i, cs) && AllIn(s, j, |s|, cs)
                   && (r != [] ==> !cs(r[0]) && !cs(r[|r| - 1]))
  }

  /** The first index at or after `i` whose character does not satisfy `cs`. */
  function SkipForward(s: string, cs: char -> bool, i: nat): (j: nat)
    requires i <= |s|
    ensures i <= j <= |s|
    decreases |s| - i
  {
    if i < |s| && cs(s[i]) then SkipForward(s, cs, i + 1) else i
  }

  /** The end of `s[lo..j]` once the characters satisfying `cs` are removed from its right. */
  function SkipBackward(s: string, cs: char -> bool, lo: nat, j: nat): (k: nat)
    requires lo <= j <= |s|
    ensures lo <= k <= j
    decreases j
  {
    if lo < j && cs(s[j - 1]) then SkipBackward(s, cs, lo, j - 1) else j
  }

  /** Python's `s.strip(cs)`: both ends at once. What it computes is `StripSpec`. */
  function Strip(s: string, cs: char -> bool): (r: string)
    ensures |r| <= |s|
  {
    var lo := SkipForward(s, cs, 0);
    s[lo..SkipBackward(s, cs, lo, |s|)]
  }

  lemma {:induction false} SkipForwardSpec(s: string, cs: char -> bool, i: nat)
    requires i <= |s|
    ensures AllIn(s, i, SkipForward(s, cs, i), cs)
    ensures SkipForward(s, cs, i) < |s| ==> !cs(s[SkipForward(s, cs, i)])
    decreases |s| - i
  {
    if i < |s| && cs(s[i]) {
      SkipForwardSpec(s, cs, i + 1);
    }
  }

  lemma {:induction false} SkipBackwardSpec(s: string, cs: char -> bool, lo: nat, j: nat)
    requires lo <= j <= |s|
    ensures AllIn(s, SkipBackward(s, cs, lo, j), j, cs)
    ensures lo < SkipBackward(s, cs, lo, j) ==> !cs(s[SkipBackward(s, cs, lo, j) - 1])
    decreases j
  {
    if lo < j && cs(s[j - 1]) {
      SkipBackwardSpec(s, cs, lo, j - 1);
    }
  }

  /** `Strip` removes exactly the longest runs of `cs` characters at both ends. */
  lemma StripSpec(s: string, cs: char -> bool)
    ensures IsStripOf(Strip(s, cs), s, cs)
  {
    var i := SkipForward(s, cs, 0);
    var j := SkipBackward(s, cs, i, |s|);
    SkipForwardSpec(s, cs, 0);
    SkipBackwardSpec(s, cs, i, |s|);
    var r := s[i..j];
    assert AllIn(s, 0, i, cs);
    assert r != [] ==> r[0] == s[i] && r[|r| - 1] == s[j - 1];
  }

  lemma {:induction false} SkipForwardAt(s: string, cs: char -> bool, i: nat, j: nat)
    requires i <= j <= |s| && AllIn(s, i, j, cs) && (j < |s| ==> !cs(s[j]))
    ensures SkipForward(s, cs, i) == j
    decreases j - i
  {
    if i < j {
      SkipForwardAt(s, cs, i + 1, j);
    }
  }

  lemma {:induction false} SkipBackwardAt(s: string, cs: char -> bool, lo: nat, j: nat, k: nat)
    requires lo <= k <= j <= |s| && AllIn(s, k, j, cs) && (lo < k ==> !cs(s[k - 1]))
    ensures SkipBackward(s, cs, lo, j) == k
    decreases j - k
  {
    if k < j {
      SkipBackwardAt(s, cs, lo, j - 1, k);
    }
  }

  /** There is only one way to strip a string: whatever satisfies `IsStripOf` is what
      `Strip` returns. */
  lemma StripUnique(r: string, s: string, cs: char -> bool)
    requires IsStripOf(r, s, cs)
    ensures r == Strip(s, cs)
  {
    var i, j :| 0 <= i <= j <= |s| && r == s[i..j] && AllIn(s, 0, i, cs) && AllIn(s, j, |s|, cs)
                && (r != [] ==> !cs(r[0]) && !cs(r[|r| - 1]));
    if r == [] {
      assert AllIn(s, 0, |s|, cs);
      SkipForwardAt(s, cs, 0, |s|);
    } else {
      assert s[i] == r[0] && s[j - 1] == r[|r| - 1];
      SkipForwardAt(s, cs, 0, i);
      SkipBackwardAt(s, cs, i, |s|, j);
    }
  }

  /** Stripping a string padded on both sides with characters satisfying `cs` gives
      back the string, when its own ends do not satisfy `cs`. */
  lemma StripPadded(pre: string, s: string, post: string, cs: char -> bool)
    requires AllIn(pre, 0, |pre|, cs) && AllIn(post, 0, |post|, cs)
    requires s != [] ==> !cs(s[0]) && !cs(s[|s| - 1])
    ensures Strip(pre + s + post, cs) == s
  {
    var t := pre + s + post;
    var i, j := |pre|, |pre| + |s|;
    assert forall k :: 0 <= k < i ==> t[k] == pre[k];
    assert forall k :: j <= k < |t| ==> t[k] == post[k - j];
    if s == [] {
      SkipForwardAt(t, cs, 0, |t|);
    } else {
      assert t[i] == s[0] && t[j - 1] == s[|s| - 1];
      SkipForwardAt(t, cs, 0, i);
      SkipBackwardAt(t, cs, i, |t|, j);
      assert t[i..j] == s;
    }
  }

  /** The index of the first `c` in `s` at or after `i`, or `|s|` when there is none. */
  function IndexFrom(s: string, c: char, i: nat): (j: nat)
    requires i <= |s|
    ensures i <= j <= |s|
    decreases |s| - i
  {
    if i == |s| || s[i] == c then i else IndexFrom(s, c, i + 1)
  }

  /** `IndexFrom` finds the first `c` from `i` on, and is determined by that. */
  lemma {:induction false} IndexFromSpec(s: string, c: char, i: nat, j: nat)
    requires i <= j <= |s|
    ensures IndexFrom(s, c, i) == j <==>
              (forall k :: i <= k < j ==> s[k] != c) && (j < |s| ==> s[j] == c)
    decreases |s| - i
  {
    if i < |s| && s[i] != c {
      if i < j {
        IndexFromSpec(s, c, i + 1, j);
      } else {
        IndexFromSpec(s, c, i + 1, IndexFrom(s, c, i + 1));
      }
    }
  }

  /** `sep.join(pieces)`, the inverse of `Split`. */
  function Join(pieces: seq<string>, sep: char): string
  {
    if pieces == [] then []
    else if |pieces| == 1 then pieces[0]
    else pieces[0] + [sep] + Join(pieces[1..], sep)
  }

  /** `Join(pieces, sep)` ends with the last piece, after a separator when there is
      more than one piece. */
  lemma {:induction false} JoinLast(pieces: seq<string>, sep: char)
    requires |pieces| >= 1
    ensures |Join(pieces, sep)| >= |pieces[|pieces| - 1]|
    ensures Join(pieces, sep)[|Join(pieces, sep)| - |pieces[|pieces| - 1]|..] == pieces[|pieces| - 1]
    ensures |pieces| > 1 ==>
              && |Join(pieces, sep)| > |pieces[|pieces| - 1]|
              && Join(pieces, sep)[|Join(pieces, sep)| - |pieces[|pieces| - 1]| - 1] == sep
    decreases |pieces|
  {
    if |pieces| > 1 {
      var rest := pieces[1..];
      JoinLast(rest, sep);
      var t, u := Join(pieces, sep), Join(rest, sep);
      assert t == pieces[0] + [sep] + u;
      assert rest[|rest| - 1] == pieces[|pieces| - 1];
      assert t[|t| - |u|..] == u;
    }
  }

  lemma JoinCons(p: string, rest: seq<string>, sep: char)
    requires |rest| >= 1
    ensures Join([p] + rest, sep) == p + [sep] + Join(rest, sep)
  {
    assert ([p] + rest)[1..] == rest;
  }

  /** The pieces of `s[start..]` between occurrences of `sep`. */
  function SplitFrom(s: string, sep: char, start: nat): (pieces: seq<string>)
    requires start <= |s|
    ensures |pieces| >= 1
    decreases |s| - start
  {
    var j := IndexFrom(s, sep, start);
    if j == |s| then [s[start..]] else [s[start..j]] + SplitFrom(s, sep, j + 1)
  }

  /** Python's `s.split(sep)` for a one-character separator: it always yields at least
      one piece. What it computes is stated by `SplitPiecesFree`, `JoinSplit` and
      `SplitJoin`. */
  function Split(s: string, sep: char): (pieces: seq<string>)
    ensures |pieces| >= 1
  {
    SplitFrom(s, sep, 0)
  }

  lemma {:induction false} SplitFromPiecesFree(s: string, sep: char, start: nat)
    requires start <= |s|
    ensures forall k :: 0 <= k < |SplitFrom(s, sep, start)| ==> sep !in SplitFrom(s, sep, start)[k]
    decreases |s| - start
  {
    var j := IndexFrom(s, sep, start);
    IndexFromSpec(s, sep, start, j);
    var pieces := SplitFrom(s, sep, start);
    if j == |s| {
      assert pieces == [s[start..]];
      assert forall k :: 0 <= k < |s| - start ==> s[start..][k] == s[start + k];
    } else {
      SplitFromPiecesFree(s, sep, j + 1);
      var rest := SplitFrom(s, sep, j + 1);
      assert pieces == [s[start..j]] + rest;
      assert forall k :: 0 <= k < j - start ==> s[start..j][k] == s[start + k];
      assert forall k :: 1 <= k < |pieces| ==> pieces[k] == rest[k - 1];
    }
  }

  /** No piece of `Split(s, sep)` holds the separator. */
  lemma SplitPiecesFree(s: string, sep: char)
    ensures forall k :: 0 <= k < |Split(s, sep)| ==> sep !in Split(s, sep)[k]
  {
    SplitFromPiecesFree(s, sep, 0);
  }

  lemma {:induction false} JoinSplitFrom(s: string, sep: char, start: nat)
    requires start <= |s|
    ensures Join(SplitFrom(s, sep, start), sep) == s[start..]
    decreases |s| - start
  {
    var j := IndexFrom(s, sep, start);
    if j < |s| {
      IndexFromSpec(s, sep, start, j);
      JoinSplitFrom(s, sep, j + 1);
      var pieces, rest := SplitFrom(s, sep, start), SplitFrom(s, sep, j + 1);
      assert pieces == [s[start..j]] + rest;
      assert |pieces| >= 2 && pieces[0] == s[start..j] && pieces[1..] == rest;
      assert Join(pieces, sep) == s[start..j] + [sep] + s[j + 1..];
      assert s[start..] == s[start..j] + [s[j]] + s[j + 1..];
    }
  }

  /** Joining the pieces of `Split(s, sep)` back gives `s`. */
  lemma JoinSplit(s: string, sep: char)
    ensures Join(Split(s, sep), sep) == s
  {
    JoinSplitFrom(s, sep, 0);
    assert s[0..] == s;
  }

  /** `Join(pieces, sep)` starts with the first piece, followed by the separator and
      the join of the rest when there is more than one piece. */
  lemma JoinHead(pieces: seq<string>, sep: char)
    requires |pieces| >= 1
    ensures |Join(pieces, sep)| >= |pieces[0]|
    ensures Join(pieces, sep)[..|pieces[0]|] == pieces[0]
    ensures |pieces| == 1 ==> |Join(pieces, sep)| == |pieces[0]|
    ensures |pieces| > 1 ==> |Join(pieces, sep)| > |pieces[0]|
                             && Join(pieces, sep)[|pieces[0]|] == sep
                             && Join(pieces, sep)[|pieces[0]| + 1..] == Join(pieces[1..], sep)
  {
    var p := pieces[0];
    if |pieces| > 1 {
      var t := Join(pieces, sep);
      assert t == p + [sep] + Join(pieces[1..], sep);
      assert t[..|p|] == p;
    }
  }

  /** When `p` holds no separator and is followed in `s` by one (or by the end of `s`),
      the next separator after `start` is the one that follows `p`. */
  lemma SeparatorAfter(s: string, sep: char, start: nat, p: string)
    requires start + |p| <= |s| && s[start..start + |p|] == p && sep !in p
    requires start + |p| < |s| ==> s[start + |p|] == sep
    ensures IndexFrom(s, sep, start) == start + |p|
  {
    forall k | start <= k < start + |p| ensures s[k] != sep {
      assert s[k] == p[k - start];
    }
    IndexFromSpec(s, sep, start, start + |p|);
  }

  lemma {:induction false} SplitFromJoin(s: string, sep: char, start: nat, pieces: seq<string>)
    requires start <= |s| && |pieces| >= 1
    requires forall k :: 0 <= k < |pieces| ==> sep !in pieces[k]
    requires s[start..] == Join(pieces, sep)
    ensures SplitFrom(s, sep, start) == pieces
    decreases |pieces|
  {
    var p := pieces[0];
    var j := start + |p|;
    JoinHead(pieces, sep);
    assert s[start..j] == s[start..][..|p|];
    if |pieces| == 1 {
      SeparatorAfter(s, sep, start, p);
    } else {
      assert s[j] == s[start..][|p|];
      SeparatorAfter(s, sep, start, p);
      assert s[j + 1..] == s[start..][|p| + 1..];
      SplitFromJoin(s, sep, j + 1, pieces[1..]);
      assert pieces == [p] + pieces[1..];
    }
  }

  /** The round trip the other way: splitting joined pieces that hold no separator
      gives the pieces back. */
  lemma SplitJoin(pieces: seq<string>, sep: char)
    requires |pieces| >= 1
    requires forall k :: 0 <= k < |pieces| ==> sep !in pieces[k]
    ensures Split(Join(pieces, sep), sep) == pieces
  {
    var s := Join(pieces, sep);
    assert s[0..] == s;
    SplitFromJoin(s, sep, 0, pieces);
  }
}
