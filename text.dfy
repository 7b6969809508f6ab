/** String helpers shared by every module: the parts of Python's `str`
    methods that the modelled code relies on, written out on `seq<char>`. */
module Text {

  predicate IsLower(c: char) { 'a' <= c <= 'z' }
  predicate IsUpper(c: char) { 'A' <= c <= 'Z' }
  predicate IsLetter(c: char) { IsLower(c) || IsUpper(c) }
  predicate IsDigit(c: char) { '0' <= c <= '9' }
  /** Python's `\s` on the ASCII range. */
  predicate IsSpace(c: char) { c == ' ' || c == '\t' || c == '\n' || c == '\r' || c == '\U{C}' || c == '\U{B}' }

  predicate StartsWith(s: string, p: string) { |p| <= |s| && s[..|p|] == p }

  predicate EndsWith(s: string, p: string) { |p| <= |s| && s[|s| - |p|..] == p }

  /** `p` occurs in `s` at position `i`. */
  predicate OccursAt(s: string, p: string, i: int) {
    0 <= i && i + |p| <= |s| && s[i..i + |p|] == p
  }

  predicate Contains(s: string, p: string) {
    exists i :: 0 <= i <= |s| && OccursAt(s, p, i)
  }

  /** Python's `s.find(p, start)`: the first occurrence at or after `start`, or -1. */
  function Find(s: string, p: string, start: nat): (r: int)
    ensures r == -1 || (start <= r && OccursAt(s, p, r))
    ensures r == -1 ==> forall i :: start <= i ==> !OccursAt(s, p, i)
    ensures r != -1 ==> forall i :: start <= i < r ==> !OccursAt(s, p, i)
    decreases |s| - start
  {
    if start + |p| > |s| then -1
    else if s[start..start + |p|] == p then start
    else Find(s, p, start + 1)
  }

  /** Python's `s.rfind(p)`: the last occurrence at or before `end`, or -1. */
  function RFind(s: string, p: string, end: int): (r: int)
    ensures r == -1 || (0 <= r <= end && OccursAt(s, p, r))
    ensures r == -1 ==> forall i :: 0 <= i <= end ==> !OccursAt(s, p, i)
    ensures r != -1 ==> forall i :: r < i <= end ==> !OccursAt(s, p, i)
    decreases end + 1
  {
    if end < 0 then -1
    else if OccursAt(s, p, end) then end
    else RFind(s, p, end - 1)
  }

  /** Python's `str.split(c)` for a one-character separator. */
  function Split(s: string, c: char): (parts: seq<string>)
    ensures |parts| >= 1
    ensures forall k :: 0 <= k < |parts| ==> c !in parts[k]
    decreases |s|
  {
    if |s| == 0 then [""]
    else
      var rest := Split(s[1..], c);
      if s[0] == c then [""] + rest
      else [[s[0]] + rest[0]] + rest[1..]
  }

  /** Python's `sep.join(parts)`. */
  function Join(parts: seq<string>, sep: string): string
  {
    if |parts| == 0 then ""
    else if |parts| == 1 then parts[0]
    else parts[0] + sep + Join(parts[1..], sep)
  }

  function Concat(parts: seq<string>): string
  {
    if |parts| == 0 then "" else parts[0] + Concat(parts[1..])
  }

  lemma {:induction false} JoinSplit(s: string, c: char)
    ensures Join(Split(s, c), [c]) == s
    decreases |s|
  {
    if |s| > 0 {
      JoinSplit(s[1..], c);
      var rest := Split(s[1..], c);
      if s[0] == c {
        assert Split(s, c) == [""] + rest;
        assert s == [c] + s[1..];
      } else {
        var parts := Split(s, c);
        assert parts == [[s[0]] + rest[0]] + rest[1..];
        if |rest| == 1 {
          assert s == [s[0]] + s[1..];
        } else {
          assert parts[1..] == rest[1..];
          assert Join(rest, [c]) == rest[0] + [c] + Join(rest[1..], [c]);
          assert s == [s[0]] + s[1..];
        }
      }
    }
  }

  lemma {:induction false} SplitJoin(parts: seq<string>, c: char)
    requires |parts| >= 1
    requires forall k :: 0 <= k < |parts| ==> c !in parts[k]
    ensures Split(Join(parts, [c]), c) == parts
    decreases |parts|, |parts[0]|
  {
    if |parts[0]| == 0 {
      if |parts| > 1 {
        SplitJoin(parts[1..], c);
        var j := Join(parts, [c]);
        assert j == [c] + Join(parts[1..], [c]);
        assert j[1..] == Join(parts[1..], [c]);
        assert parts == [""] + parts[1..];
      }
    } else {
      var p0 := parts[0];
      var tail := [p0[1..]] + parts[1..];
      forall k | 0 <= k < |tail| ensures c !in tail[k] {
        if k == 0 { assert forall x :: x in p0[1..] ==> x in p0; }
      }
      SplitJoin(tail, c);
      var j := Join(parts, [c]);
      if |parts| == 1 {
        assert j == p0;
        assert j[1..] == Join(tail, [c]);
      } else {
        assert tail[1..] == parts[1..];
        assert j == p0 + [c] + Join(parts[1..], [c]);
        assert Join(tail, [c]) == p0[1..] + [c] + Join(parts[1..], [c]);
        assert j[1..] == Join(tail, [c]);
      }
      assert j[0] == p0[0];
      assert p0[0] != c;
      assert [j[0]] + p0[1..] == p0;
      assert parts == [p0] + parts[1..];
    }
  }

  /** Python's `s.replace(pat, rep)` with a non-empty `pat`: leftmost,
      non-overlapping occurrences, scanned left to right. */
  function ReplaceAll(s: string, pat: string, rep: string): (r: string)
    requires |pat| > 0
    decreases |s|
  {
    if |s| < |pat| then s
    else if s[..|pat|] == pat then rep + ReplaceAll(s[|pat|..], pat, rep)
    else [s[0]] + ReplaceAll(s[1..], pat, rep)
  }

  lemma {:induction false} ReplaceAllAbsent(s: string, pat: string, rep: string)
    requires |pat| > 0
    requires !Contains(s, pat)
    ensures ReplaceAll(s, pat, rep) == s
    decreases |s|
  {
    if |s| >= |pat| {
      assert !OccursAt(s, pat, 0);
      forall i | 0 <= i <= |s[1..]| ensures !OccursAt(s[1..], pat, i) {
        if OccursAt(s[1..], pat, i) {
          assert s[i + 1..i + 1 + |pat|] == s[1..][i..i + |pat|];
          assert OccursAt(s, pat, i + 1);
        }
      }
      ReplaceAllAbsent(s[1..], pat, rep);
    }
  }

  /** No occurrence of `p` in `s` means none in any suffix of `s` either. */
  lemma NotContainsSuffix(s: string, p: string, n: nat)
    requires n <= |s| && !Contains(s, p)
    ensures !Contains(s[n..], p)
  {
    forall i | 0 <= i <= |s[n..]| ensures !OccursAt(s[n..], p, i) {
      if OccursAt(s[n..], p, i) {
        assert s[n + i..n + i + |p|] == s[n..][i..i + |p|];
        assert OccursAt(s, p, n + i);
      }
    }
  }

  /** `ReplaceAll` brings in no character that neither `s` nor `rep` holds. */
  lemma {:induction false} ReplaceAllChars(s: string, pat: string, rep: string, c: char)
    requires |pat| > 0 && c !in s && c !in rep
    ensures c !in ReplaceAll(s, pat, rep)
    decreases |s|
  {
    if |s| >= |pat| {
      if s[..|pat|] == pat {
        ReplaceAllChars(s[|pat|..], pat, rep, c);
      } else {
        ReplaceAllChars(s[1..], pat, rep, c);
      }
    }
  }

  /** Where `pat` starts `s`, the result starts with `rep`. */
  lemma ReplaceAllHead(s: string, pat: string, rep: string)
    requires |pat| > 0 && |rep| > 0 && |s| >= |pat| && s[..|pat|] == pat
    ensures ReplaceAll(s, pat, rep)[0] == rep[0]
  {
  }

  /** A prefix of the result free of `rep`'s first character was copied
      from `s` unchanged. */
  lemma {:induction false} ReplaceAllCopiedPrefix(s: string, pat: string, rep: string, m: nat)
    requires |pat| > 0 && |rep| > 0
    requires m <= |ReplaceAll(s, pat, rep)|
    requires forall k :: 0 <= k < m ==> ReplaceAll(s, pat, rep)[k] != rep[0]
    ensures m <= |s| && ReplaceAll(s, pat, rep)[..m] == s[..m]
    decreases |s|
  {
    var r := ReplaceAll(s, pat, rep);
    if m > 0 && |s| >= |pat| {
      if s[..|pat|] == pat {
        ReplaceAllHead(s, pat, rep);
        assert false;
      } else {
        var rest := ReplaceAll(s[1..], pat, rep);
        assert r == [s[0]] + rest;
        assert forall k :: 0 <= k < m - 1 ==> rest[k] == r[k + 1];
        ReplaceAllCopiedPrefix(s[1..], pat, rep, m - 1);
        assert r[..m] == [s[0]] + rest[..m - 1];
        assert s[..m] == [s[0]] + s[1..][..m - 1];
      }
    }
  }

  /** The result does not start with `p` when `s` does not and `rep`'s
      first character, which `p` starts with, does not recur in `p`. */
  lemma NoNewOccurrenceAtStart(s: string, pat: string, rep: string, p: string)
    requires |pat| > 0 && |rep| > 0 && 0 < |p| && rep[0] == p[0] && p[0] !in p[1..]
    requires |s| >= |pat| && s[..|pat|] != pat && !OccursAt(s, p, 0)
    ensures !OccursAt(ReplaceAll(s, pat, rep), p, 0)
  {
    var r := ReplaceAll(s, pat, rep);
    var rest := ReplaceAll(s[1..], pat, rep);
    assert r == [s[0]] + rest;
    if |p| <= |r| {
      if exists k :: 0 <= k < |p| - 1 && rest[k] == rep[0] {
        var k :| 0 <= k < |p| - 1 && rest[k] == rep[0];
        assert r[k + 1] == p[0];
        FirstCharBlocks(r, p, k + 1);
      } else {
        ReplaceAllCopiedPrefix(s[1..], pat, rep, |p| - 1);
        SamePrefixBlocks(s, rest, p);
      }
    }
  }

  /** `p` does not occur at the start of `r` when its first character, which recurs
      nowhere else in `p`, stands in `r` at a later position of that stretch. */
  lemma FirstCharBlocks(r: string, p: string, k: nat)
    requires 0 < k < |p| <= |r| && r[k] == p[0] && p[0] !in p[1..]
    ensures !OccursAt(r, p, 0)
  {
    assert p[k] == p[1..][k - 1];
    assert r[0..|p|][k] == r[k];
  }

  /** A text that keeps the first character of `s` and copies the next ones starts with
      `p` only when `s` does. */
  lemma SamePrefixBlocks(s: string, rest: string, p: string)
    requires 0 < |p| <= |s| && |p| - 1 <= |rest| && rest[..|p| - 1] == s[1..][..|p| - 1]
    requires !OccursAt(s, p, 0)
    ensures !OccursAt([s[0]] + rest, p, 0)
  {
    var r := [s[0]] + rest;
    assert r[0..|p|] == [s[0]] + rest[..|p| - 1];
    assert s[0..|p|] == [s[0]] + s[1..][..|p| - 1];
  }

  /** `ReplaceAll` creates no occurrence of `p` when `p` shares its first
      character with `rep` only at the start, differs from `rep` at `j`,
      and does not occur in `s`. */
  lemma {:induction false} ReplaceAllNoNewOccurrence(s: string, pat: string, rep: string, p: string, j: nat)
    requires |pat| > 0 && j < |rep| && j < |p|
    requires rep[0] == p[0] && rep[j] != p[j]
    requires p[0] !in p[1..] && p[0] !in rep[1..]
    requires !Contains(s, p)
    ensures !Contains(ReplaceAll(s, pat, rep), p)
    decreases |s|
  {
    var r := ReplaceAll(s, pat, rep);
    if |s| >= |pat| {
      if s[..|pat|] == pat {
        var rest := ReplaceAll(s[|pat|..], pat, rep);
        NotContainsSuffix(s, p, |pat|);
        ReplaceAllNoNewOccurrence(s[|pat|..], pat, rep, p, j);
        forall i | 0 <= i <= |r| && i + |p| <= |r| ensures !OccursAt(r, p, i) {
          if i >= |rep| {
            assert !OccursAt(rest, p, i - |rep|);
            assert rest[i - |rep|..i - |rep| + |p|] == r[i..i + |p|];
          } else if i == 0 {
            assert r[j] != p[j];
          } else {
            assert r[i] == rep[1..][i - 1] != p[0];
          }
        }
      } else {
        var rest := ReplaceAll(s[1..], pat, rep);
        assert r == [s[0]] + rest;
        NotContainsSuffix(s, p, 1);
        ReplaceAllNoNewOccurrence(s[1..], pat, rep, p, j);
        forall i | 0 <= i <= |r| && i + |p| <= |r| ensures !OccursAt(r, p, i) {
          if i >= 1 {
            assert !OccursAt(rest, p, i - 1);
            assert rest[i - 1..i - 1 + |p|] == r[i..i + |p|];
          } else {
            NoNewOccurrenceAtStart(s, pat, rep, p);
          }
        }
      }
    }
  }

  /** Replacing `pat` by `rep` and then `rep` by `pat` gives back `s` when
      `s` does not hold `rep` and `rep`'s first character does not recur in
      it. */
  lemma {:induction false} ReplaceAllRoundTrip(s: string, pat: string, rep: string)
    requires |pat| > 0 && |rep| > 0
    requires rep[0] !in rep[1..] && !Contains(s, rep)
    ensures ReplaceAll(ReplaceAll(s, pat, rep), rep, pat) == s
    decreases |s|
  {
    var r := ReplaceAll(s, pat, rep);
    if |s| < |pat| {
      ReplaceAllAbsent(s, rep, pat);
    } else if s[..|pat|] == pat {
      var rest := ReplaceAll(s[|pat|..], pat, rep);
      NotContainsSuffix(s, rep, |pat|);
      ReplaceAllRoundTrip(s[|pat|..], pat, rep);
      assert r[..|rep|] == rep && r[|rep|..] == rest;
      assert s == pat + s[|pat|..];
    } else {
      var rest := ReplaceAll(s[1..], pat, rep);
      assert r == [s[0]] + rest;
      NotContainsSuffix(s, rep, 1);
      ReplaceAllRoundTrip(s[1..], pat, rep);
      if |r| < |rep| {
        assert ReplaceAll(rest, rep, pat) == rest;
      } else {
        NoNewOccurrenceAtStart(s, pat, rep, rep);
        assert r[1..] == rest;
      }
      assert s == [s[0]] + s[1..];
    }
  }

  /** `a + [c] + b` splits into the pieces of `a` followed by those of `b`. */
  lemma {:induction false} SplitAppend(a: string, b: string, c: char)
    ensures Split(a + [c] + b, c) == Split(a, c) + Split(b, c)
    decreases |a|
  {
    if |a| == 0 {
      assert a + [c] + b == [c] + b;
      assert ([c] + b)[1..] == b;
    } else {
      assert (a + [c] + b)[1..] == a[1..] + [c] + b;
      SplitAppend(a[1..], b, c);
    }
  }

  /** A text without the separator is a single piece. */
  lemma {:induction false} SplitNoSeparator(s: string, c: char)
    requires c !in s
    ensures Split(s, c) == [s]
    decreases |s|
  {
    if |s| > 0 {
      SplitNoSeparator(s[1..], c);
      assert [s[0]] + s[1..] == s;
    }
  }

  /** No piece of a split is longer than the text. */
  lemma {:induction false} SplitPieceLength(s: string, c: char)
    ensures forall k :: 0 <= k < |Split(s, c)| ==> |Split(s, c)[k]| <= |s|
    decreases |s|
  {
    if |s| > 0 {
      SplitPieceLength(s[1..], c);
    }
  }

  /** `sep.join(a + b)` for non-empty `a` and `b`. */
  lemma {:induction false} JoinAppend(a: seq<string>, b: seq<string>, sep: string)
    requires |a| > 0 && |b| > 0
    ensures Join(a + b, sep) == Join(a, sep) + sep + Join(b, sep)
    decreases |a|
  {
    if |a| == 1 {
      assert (a + b)[1..] == b;
    } else {
      assert (a + b)[1..] == a[1..] + b;
      JoinAppend(a[1..], b, sep);
    }
  }

  // ---------------------------------------------------------------------
  // Deleting occurrences of one character.

  /** `a` is `b` with some occurrences of `c` deleted. */
  predicate Thinned(a: string, b: string, c: char)
    decreases |b|
  {
    if |b| == 0 then |a| == 0
    else (|a| > 0 && a[0] == b[0] && Thinned(a[1..], b[1..], c)) || (b[0] == c && Thinned(a, b[1..], c))
  }

  lemma {:induction false} ThinnedRefl(a: string, c: char)
    ensures Thinned(a, a, c)
    decreases |a|
  {
    if |a| > 0 { ThinnedRefl(a[1..], c); }
  }

  lemma ThinnedDrop(c: char)
    ensures Thinned("", [c], c)
  {
    assert [c][1..] == "";
  }

  lemma {:induction false} ThinnedAppend(a1: string, b1: string, a2: string, b2: string, c: char)
    requires Thinned(a1, b1, c) && Thinned(a2, b2, c)
    ensures Thinned(a1 + a2, b1 + b2, c)
    decreases |b1|
  {
    if |b1| == 0 {
      assert a1 + a2 == a2 && b1 + b2 == b2;
    } else {
      assert (b1 + b2)[1..] == b1[1..] + b2;
      if |a1| > 0 && a1[0] == b1[0] && Thinned(a1[1..], b1[1..], c) {
        ThinnedAppend(a1[1..], b1[1..], a2, b2, c);
        assert (a1 + a2)[1..] == a1[1..] + a2;
      } else {
        ThinnedAppend(a1, b1[1..], a2, b2, c);
      }
    }
  }

  lemma {:induction false} ThinnedTrans(a: string, b: string, d: string, c: char)
    requires Thinned(a, b, c) && Thinned(b, d, c)
    ensures Thinned(a, d, c)
    decreases |d|
  {
    if |d| > 0 {
      if |b| > 0 && b[0] == d[0] && Thinned(b[1..], d[1..], c) {
        if |a| > 0 && a[0] == b[0] && Thinned(a[1..], b[1..], c) {
          ThinnedTrans(a[1..], b[1..], d[1..], c);
        } else {
          ThinnedTrans(a, b[1..], d[1..], c);
        }
      } else {
        ThinnedTrans(a, b, d[1..], c);
      }
    }
  }
}
