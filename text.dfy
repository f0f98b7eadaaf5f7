/**
 * The .NET string operations the request-fingerprinting rules rely on:
 * `char.IsWhiteSpace`, `Trim`, `Split`, `string.Join`, ordinal `Contains`,
 * and the two-character grouping used to format MAC addresses.
 */
module Text {

  /** `char.IsWhiteSpace`: U+0009..U+000D, U+0085 and the Unicode space, line and paragraph separators. */
  predicate IsWhiteSpace(c: char) {
    ('\t' <= c <= '\r') || c == ' ' || c == '\U{0085}' || c == '\U{00A0}' || c == '\U{1680}'
    || ('\U{2000}' <= c <= '\U{200A}') || c == '\U{2028}' || c == '\U{2029}'
    || c == '\U{202F}' || c == '\U{205F}' || c == '\U{3000}'
  }

  /** Every character of `s` is white space. */
  predicate AllWhiteSpace(s: string) {
    forall i :: 0 <= i < |s| ==> IsWhiteSpace(s[i])
  }

  /** The number of white-space characters `s` starts with. */
  function LeadingSpace(s: string): (n: nat)
    ensures n <= |s|
    ensures forall k :: 0 <= k < n ==> IsWhiteSpace(s[k])
    ensures n == |s| || !IsWhiteSpace(s[n])
  {
    if s != [] && IsWhiteSpace(s[0]) then
      var n := 1 + LeadingSpace(s[1..]);
      assert forall k :: 1 <= k < n ==> s[k] == s[1..][k - 1];
      n
    else 0
  }

  /** The index at which the white space `s` ends with begins. */
  function TrailingSpaceStart(s: string): (n: nat)
    ensures n <= |s|
    ensures forall k :: n <= k < |s| ==> IsWhiteSpace(s[k])
    ensures n == 0 || !IsWhiteSpace(s[n - 1])
  {
    if s != [] && IsWhiteSpace(s[|s| - 1]) then
      var n := TrailingSpaceStart(s[..|s| - 1]);
      assert forall k :: n <= k < |s| - 1 ==> s[k] == s[..|s| - 1][k];
      n
    else |s|
  }

  /** `TrimStart()`: drops the leading white space, and only that. */
  function TrimStart(s: string): (r: string)
    ensures |r| <= |s| && r == s[|s| - |r|..]
    ensures forall k :: 0 <= k < |s| - |r| ==> IsWhiteSpace(s[k])
    ensures r == [] || !IsWhiteSpace(r[0])
  {
    s[LeadingSpace(s)..]
  }

  /** `TrimEnd()`: drops the trailing white space, and only that. */
  function TrimEnd(s: string): (r: string)
    ensures |r| <= |s| && r == s[..|r|]
    ensures forall k :: |r| <= k < |s| ==> IsWhiteSpace(s[k])
    ensures r == [] || !IsWhiteSpace(r[|r| - 1])
  {
    s[..TrailingSpaceStart(s)]
  }

  /**
   * `Trim()`: the slice of `s` that starts after its leading white space (the first
   * `LeadingSpace(s)` characters) and leaves only white space after it; no white space
   * at either end; empty exactly when `s` is all white space.
   */
  function Trim(s: string): (r: string)
    ensures LeadingSpace(s) + |r| <= |s| && r == s[LeadingSpace(s)..LeadingSpace(s) + |r|]
    ensures forall k :: LeadingSpace(s) + |r| <= k < |s| ==> IsWhiteSpace(s[k])
    ensures r == [] || (!IsWhiteSpace(r[0]) && !IsWhiteSpace(r[|r| - 1]))
    ensures r == [] <==> AllWhiteSpace(s)
  {
    var i := LeadingSpace(s);
    var n := TrailingSpaceStart(s[i..]);
    var r := TrimEnd(TrimStart(s));
    assert r == s[i..][..n];
    PrefixOfSuffix(s, i, n, r);
    SuffixTailWhiteSpace(s, i, n);
    r
  }

  /** The first `n` characters of the suffix `s[i..]` are the slice of `s` from `i` to `i + n`. */
  lemma PrefixOfSuffix(s: string, i: nat, n: nat, r: string)
    requires i + n <= |s| && r == s[i..][..n]
    ensures i + |r| <= |s| && r == s[i..i + |r|]
  {
    assert |r| == n;
  }

  /** White space at the end of the suffix `s[i..]`, from its index `n`, is white space at the end of `s` from `i + n`. */
  lemma SuffixTailWhiteSpace(s: string, i: nat, n: nat)
    requires i + n <= |s|
    requires forall k :: n <= k < |s[i..]| ==> IsWhiteSpace(s[i..][k])
    ensures forall k :: i + n <= k < |s| ==> IsWhiteSpace(s[k])
  {
    forall k | i + n <= k < |s|
      ensures IsWhiteSpace(s[k])
    {
      assert s[k] == s[i..][k - i];
    }
  }

  /** Trimming brings in no character that `s` lacks. */
  lemma TrimExcludes(s: string, c: char)
    requires c !in s
    ensures c !in Trim(s)
  {
    var i := LeadingSpace(s);
    var r := Trim(s);
    forall k | 0 <= k < |r|
      ensures r[k] != c
    {
      assert r[k] == s[i + k];
    }
  }

  /** Trimming is idempotent. */
  lemma TrimIdempotent(s: string)
    ensures Trim(Trim(s)) == Trim(s)
  {
    var t := Trim(s);
    if t != [] {
      assert LeadingSpace(t) == 0;
      assert TrimStart(t) == t;
      assert TrailingSpaceStart(t) == |t|;
      assert TrimEnd(t) == t;
    }
  }

  /**
   * `s.Split(sep)` with no options: the maximal separator-free pieces of `s`,
   * including empty ones; there is always one more piece than separators.
   */
  function SplitOn(s: string, sep: char): (pieces: seq<string>)
    ensures |pieces| >= 1
    ensures forall i :: 0 <= i < |pieces| ==> sep !in pieces[i]
  {
    if s == [] then [[]]
    else
      var rest := SplitOn(s[1..], sep);
      if s[0] == sep then [[]] + rest
      else [[s[0]] + rest[0]] + rest[1..]
  }

  /** `string.Join(sep, pieces)`. */
  function Join(pieces: seq<string>, sep: char): string {
    if |pieces| == 0 then []
    else if |pieces| == 1 then pieces[0]
    else pieces[0] + [sep] + Join(pieces[1..], sep)
  }

  /** Joining the pieces of a split with the same separator gives back the original string. */
  lemma {:induction false} JoinSplit(s: string, sep: char)
    ensures Join(SplitOn(s, sep), sep) == s
  {
    if s != [] {
      var rest := SplitOn(s[1..], sep);
      JoinSplit(s[1..], sep);
      if s[0] == sep {
        assert ([[]] + rest)[1..] == rest;
      } else {
        var pieces := [[s[0]] + rest[0]] + rest[1..];
        if |rest| > 1 {
          assert pieces[1..] == rest[1..];
        }
      }
    }
  }

  /** Splitting a piece that holds no separator yields just that piece. */
  lemma {:induction false} SplitPiece(p: string, sep: char)
    requires sep !in p
    ensures SplitOn(p, sep) == [p]
  {
    if p != [] {
      SplitPiece(p[1..], sep);
      assert [p[0]] + p[1..] == p;
    }
  }

  /** Splitting `p + [sep] + tail` yields `p` followed by the pieces of `tail`. */
  lemma {:induction false} SplitCons(p: string, tail: string, sep: char)
    requires sep !in p
    ensures SplitOn(p + [sep] + tail, sep) == [p] + SplitOn(tail, sep)
  {
    var s := p + [sep] + tail;
    if p == [] {
      assert s[1..] == tail;
    } else {
      assert s[1..] == p[1..] + [sep] + tail;
      SplitCons(p[1..], tail, sep);
      assert [p[0]] + p[1..] == p;
    }
  }

  /** Splitting a join of separator-free pieces gives back the pieces. */
  lemma {:induction false} SplitJoin(pieces: seq<string>, sep: char)
    requires |pieces| >= 1
    requires forall i :: 0 <= i < |pieces| ==> sep !in pieces[i]
    ensures SplitOn(Join(pieces, sep), sep) == pieces
  {
    if |pieces| == 1 {
      SplitPiece(pieces[0], sep);
    } else {
      SplitJoin(pieces[1..], sep);
      SplitCons(pieces[0], Join(pieces[1..], sep), sep);
      assert [pieces[0]] + pieces[1..] == pieces;
    }
  }

  /** The non-empty entries of `pieces`, in order (`StringSplitOptions.RemoveEmptyEntries`). */
  function RemoveEmpty(pieces: seq<string>): (r: seq<string>)
    ensures |r| <= |pieces|
    ensures forall i :: 0 <= i < |r| ==> r[i] != [] && r[i] in pieces
  {
    if pieces == [] then []
    else if pieces[0] == [] then RemoveEmpty(pieces[1..])
    else [pieces[0]] + RemoveEmpty(pieces[1..])
  }

  /** `s.Split(sep, StringSplitOptions.RemoveEmptyEntries)`: the non-empty separator-free pieces of `s`. */
  function SplitNonEmpty(s: string, sep: char): (pieces: seq<string>)
    ensures forall i :: 0 <= i < |pieces| ==> pieces[i] != [] && sep !in pieces[i]
  {
    RemoveEmpty(SplitOn(s, sep))
  }

  /** Every entry is empty. */
  predicate AllEmpty(pieces: seq<string>) {
    forall i :: 0 <= i < |pieces| ==> pieces[i] == []
  }

  /** Every character is the separator. */
  predicate AllSep(s: string, sep: char) {
    forall i :: 0 <= i < |s| ==> s[i] == sep
  }

  /** Dropping the empty entries leaves nothing exactly when every entry was empty. */
  lemma {:induction false} RemoveEmptyNone(pieces: seq<string>)
    ensures RemoveEmpty(pieces) == [] <==> AllEmpty(pieces)
  {
    if pieces != [] {
      RemoveEmptyNone(pieces[1..]);
      assert AllEmpty(pieces) <==> pieces[0] == [] && AllEmpty(pieces[1..]) by {
        assert forall i :: 1 <= i < |pieces| ==> pieces[i] == pieces[1..][i - 1];
      }
    }
  }

  /** The pieces of `s.Split(sep)` are all empty exactly when `s` consists of separators only. */
  lemma {:induction false} SplitAllEmpty(s: string, sep: char)
    ensures AllEmpty(SplitOn(s, sep)) <==> AllSep(s, sep)
  {
    if s != [] {
      SplitAllEmpty(s[1..], sep);
      var rest := SplitOn(s[1..], sep);
      assert AllSep(s, sep) <==> s[0] == sep && AllSep(s[1..], sep) by {
        assert forall i :: 1 <= i < |s| ==> s[i] == s[1..][i - 1];
      }
      if s[0] == sep {
        var pieces := [[]] + rest;
        assert pieces == SplitOn(s, sep);
        assert AllEmpty(pieces) <==> AllEmpty(rest) by {
          assert forall j :: 0 <= j < |rest| ==> rest[j] == pieces[j + 1];
        }
      } else {
        var pieces := [[s[0]] + rest[0]] + rest[1..];
        assert pieces == SplitOn(s, sep);
        assert pieces[0] != [];
      }
    }
  }

  /** `s.Split(sep, RemoveEmptyEntries)` is empty exactly when `s` holds nothing but separators. */
  lemma SplitNonEmptyNone(s: string, sep: char)
    ensures SplitNonEmpty(s, sep) == [] <==> AllSep(s, sep)
  {
    var pieces := SplitOn(s, sep);
    assert SplitNonEmpty(s, sep) == RemoveEmpty(pieces);
    RemoveEmptyNone(pieces);
    SplitAllEmpty(s, sep);
  }

  /** Dropping empty entries works piecewise on a concatenation. */
  lemma {:induction false} RemoveEmptyAppend(a: seq<string>, b: seq<string>)
    ensures RemoveEmpty(a + b) == RemoveEmpty(a) + RemoveEmpty(b)
  {
    if a == [] {
      assert a + b == b;
    } else {
      var ab := a + b;
      assert ab[0] == a[0] && ab[1..] == a[1..] + b;
      RemoveEmptyAppend(a[1..], b);
      if a[0] == [] {
        assert RemoveEmpty(ab) == RemoveEmpty(a[1..] + b);
        assert RemoveEmpty(a) == RemoveEmpty(a[1..]);
      } else {
        assert RemoveEmpty(ab) == [a[0]] + RemoveEmpty(a[1..] + b);
        assert RemoveEmpty(a) == [a[0]] + RemoveEmpty(a[1..]);
      }
    }
  }

  /** The non-empty pieces of a separator-free string: the string itself, unless it is empty. */
  lemma SplitNonEmptyPiece(p: string, sep: char)
    requires sep !in p
    ensures SplitNonEmpty(p, sep) == if p == [] then [] else [p]
  {
    SplitPiece(p, sep);
    assert [p][1..] == [];
  }

  /** A leading entry `p` comes first among the non-empty pieces, when it is not empty itself. */
  lemma SplitNonEmptyCons(p: string, tail: string, sep: char)
    requires sep !in p
    ensures SplitNonEmpty(p + [sep] + tail, sep) == (if p == [] then [] else [p]) + SplitNonEmpty(tail, sep)
  {
    SplitCons(p, tail, sep);
    RemoveEmptyAppend([p], SplitOn(tail, sep));
    assert [p][1..] == [];
  }

  /** Splitting `head + [sep] + p` yields the pieces of `head` followed by `p`. */
  lemma {:induction false} SplitSnoc(head: string, p: string, sep: char)
    requires sep !in p
    ensures SplitOn(head + [sep] + p, sep) == SplitOn(head, sep) + [p]
  {
    var s := head + [sep] + p;
    if head == [] {
      assert s[1..] == p;
      SplitPiece(p, sep);
    } else {
      assert s[1..] == head[1..] + [sep] + p;
      SplitSnoc(head[1..], p, sep);
      var rest := SplitOn(head[1..], sep);
      if head[0] != sep {
        assert (rest + [p])[0] == rest[0];
        assert (rest + [p])[1..] == rest[1..] + [p];
      }
    }
  }

  /** A trailing entry `p` comes last among the non-empty pieces, when it is not empty itself. */
  lemma SplitNonEmptySnoc(head: string, p: string, sep: char)
    requires sep !in p
    ensures SplitNonEmpty(head + [sep] + p, sep) == SplitNonEmpty(head, sep) + (if p == [] then [] else [p])
  {
    SplitSnoc(head, p, sep);
    RemoveEmptyAppend(SplitOn(head, sep), [p]);
    assert [p][1..] == [];
  }

  /** `sub` occurs in `s` starting at index `i`. */
  predicate OccursAt(s: string, sub: string, i: int) {
    0 <= i && i + |sub| <= |s| && s[i..i + |sub|] == sub
  }

  /** Ordinal `s.Contains(sub)`, by scanning `s` from the left. */
  function Contains(s: string, sub: string): bool
    decreases |s|
  {
    if sub <= s then true
    else if s == [] then false
    else Contains(s[1..], sub)
  }

  /** The scan finds `sub` exactly when `sub` occurs somewhere in `s`. */
  lemma {:induction false} ContainsIff(s: string, sub: string)
    ensures Contains(s, sub) <==> exists i :: OccursAt(s, sub, i)
    decreases |s|
  {
    if sub <= s {
      assert OccursAt(s, sub, 0);
    } else if s == [] {
      assert forall i :: !OccursAt(s, sub, i);
    } else {
      ContainsIff(s[1..], sub);
      forall i | OccursAt(s[1..], sub, i) ensures OccursAt(s, sub, i + 1) {
        assert s[1..][i..i + |sub|] == s[i + 1..i + 1 + |sub|];
      }
      forall i | OccursAt(s, sub, i) ensures OccursAt(s[1..], sub, i - 1) {
        assert i != 0;
        assert s[1..][i - 1..i - 1 + |sub|] == s[i..i + |sub|];
      }
    }
  }

  /** The consecutive two-character groups of `s` (a trailing odd character is dropped). */
  function Pairs(s: string): (groups: seq<string>)
    ensures |groups| == |s| / 2
    ensures forall g :: 0 <= g < |groups| ==> |groups[g]| == 2
  {
    if |s| < 2 then [] else [s[..2]] + Pairs(s[2..])
  }

  /** Undoes a colon grouping: keeps two characters of every three. */
  function Ungroup(r: string): string
    decreases |r|
  {
    if |r| <= 2 then r else r[..2] + Ungroup(r[3..])
  }

  /** The concatenation of the pieces. */
  function Concat(pieces: seq<string>): string {
    if pieces == [] then [] else pieces[0] + Concat(pieces[1..])
  }

  /** The two-character groups of an even-length string put back together give the string. */
  lemma {:induction false} ConcatPairs(s: string)
    requires |s| % 2 == 0
    ensures Concat(Pairs(s)) == s
    decreases |s|
  {
    if |s| >= 2 {
      ConcatPairs(s[2..]);
      assert s[..2] + s[2..] == s;
    }
  }

  /**
   * Joining two-character groups with `sep` puts `sep` at every third position,
   * yields `3k - 1` characters for `k` groups, and `Ungroup` recovers the groups' concatenation.
   */
  lemma {:induction false} JoinPairs(groups: seq<string>, sep: char)
    requires |groups| >= 1
    requires forall g :: 0 <= g < |groups| ==> |groups[g]| == 2
    ensures |Join(groups, sep)| == 3 * |groups| - 1
    ensures forall i :: 0 <= i < |Join(groups, sep)| && i % 3 == 2 ==> Join(groups, sep)[i] == sep
    ensures Ungroup(Join(groups, sep)) == Concat(groups)
  {
    if |groups| > 1 {
      JoinPairs(groups[1..], sep);
      var tail := Join(groups[1..], sep);
      var r := Join(groups, sep);
      assert r == groups[0] + [sep] + tail;
      assert r[3..] == tail;
      assert r[..2] == groups[0];
      forall i | 0 <= i < |r| && i % 3 == 2 ensures r[i] == sep {
        if i >= 3 {
          assert r[i] == tail[i - 3];
        }
      }
    }
  }
}
