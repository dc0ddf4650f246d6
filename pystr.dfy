/**
 * The handful of Python `str` operations the extractor relies on, written
 * out over `seq<char>`: whitespace and `strip()`, `lower()`, `isdigit()`,
 * substring tests, `startswith`, `split(sep)`, `sep.join(parts)` and
 * `replace(pat, "")`.
 */
module PyStr {

  /** `str.isspace()` for one character: the exact set of code points Python
      treats as whitespace. */
  predicate IsSpace(c: char) {
    var n := c as int;
    (9 <= n <= 13) || (28 <= n <= 32) || n == 0x85 || n == 0xA0 || n == 0x1680
    || (0x2000 <= n <= 0x200A) || n == 0x2028 || n == 0x2029 || n == 0x202F
    || n == 0x205F || n == 0x3000
  }

  /** Every character of `s` in positions `lo` to `hi` is whitespace. */
  predicate SpaceBetween(s: string, lo: int, hi: int) {
    forall k :: lo <= k < hi && 0 <= k < |s| ==> IsSpace(s[k])
  }

  predicate AllSpace(s: string) {
    SpaceBetween(s, 0, |s|)
  }

  /** No whitespace at either end: what `strip()` produces. */
  predicate IsStripped(s: string) {
    s == [] || (!IsSpace(s[0]) && !IsSpace(s[|s| - 1]))
  }

  /** The first position at or after `i` that does not hold whitespace. */
  function SkipSpaceForward(s: string, i: nat): (r: nat)
    requires i <= |s|
    ensures i <= r <= |s| && SpaceBetween(s, i, r)
    ensures r < |s| ==> !IsSpace(s[r])
    decreases |s| - i
  {
    if i < |s| && IsSpace(s[i]) then SkipSpaceForward(s, i + 1) else i
  }

  /** The smallest end position, between `lo` and `j`, after which `s` has
      only whitespace up to `j`. */
  function SkipSpaceBackward(s: string, lo: nat, j: nat): (r: nat)
    requires lo <= j <= |s|
    ensures lo <= r <= j && SpaceBetween(s, r, j)
    ensures r > lo ==> !IsSpace(s[r - 1])
    decreases j
  {
    if j > lo && IsSpace(s[j - 1]) then SkipSpaceBackward(s, lo, j - 1) else j
  }

  /** `str.strip()`: skips whitespace from the front, then from the back down
      to where the front stopped, and keeps what lies between. */
  function Strip(s: string): string {
    var i := SkipSpaceForward(s, 0);
    var j := SkipSpaceBackward(s, i, |s|);
    s[i..j]
  }

  /** What remains after `strip()` has no whitespace at either end, is empty
      exactly for an all-whitespace string, and is the block of `s` left
      between two all-whitespace ends. */
  lemma StripSpec(s: string)
    ensures IsStripped(Strip(s))
    ensures Strip(s) == [] <==> AllSpace(s)
    ensures var r := Strip(s);
            exists i :: 0 <= i <= |s| - |r| && r == s[i..i + |r|]
                        && SpaceBetween(s, 0, i) && SpaceBetween(s, i + |r|, |s|)
  {
    var i := SkipSpaceForward(s, 0);
    var j := SkipSpaceBackward(s, i, |s|);
    var r := s[i..j];
    assert Strip(s) == r;
    if r != [] {
      assert r[0] == s[i] && r[|r| - 1] == s[j - 1];
    }
    assert j - i == |r|;
  }

  /** `str.lower()` restricted to ASCII letters. */
  function LowerChar(c: char): char {
    if 'A' <= c <= 'Z' then (c as int + 32) as char else c
  }

  function Lower(s: string): (r: string)
    ensures |r| == |s|
    ensures forall k :: 0 <= k < |s| ==> r[k] == LowerChar(s[k])
  {
    seq(|s|, k requires 0 <= k < |s| => LowerChar(s[k]))
  }

  /** `str.isdigit()` restricted to the ASCII decimal digits. */
  predicate IsDigit(c: char) {
    '0' <= c <= '9'
  }

  predicate HasDigit(s: string) {
    exists k :: 0 <= k < |s| && IsDigit(s[k])
  }

  /** `sub` occurs in `s` at position `i`. */
  predicate OccursAt(s: string, sub: string, i: int) {
    0 <= i && i + |sub| <= |s| && s[i..i + |sub|] == sub
  }

  /** Python's `sub in s` for strings. */
  predicate Contains(s: string, sub: string) {
    exists i :: 0 <= i <= |s| && OccursAt(s, sub, i)
  }

  /** `s.startswith(p)`. */
  predicate StartsWith(s: string, p: string) {
    |p| <= |s| && s[..|p|] == p
  }

  /** `s.split(sep)` for a non-empty separator: scans left to right and cuts
      at every non-overlapping occurrence of `sep`. */
  function Split(s: string, sep: string): (parts: seq<string>)
    requires sep != []
    ensures |parts| >= 1
    decreases |s|
  {
    if |s| < |sep| then [s]
    else if s[..|sep|] == sep then [[]] + Split(s[|sep|..], sep)
    else
      var rest := Split(s[1..], sep);
      [[s[0]] + rest[0]] + rest[1..]
  }

  /** `sep.join(parts)`. */
  function Join(parts: seq<string>, sep: string): string
    requires |parts| >= 1
    decreases |parts|
  {
    if |parts| == 1 then parts[0] else parts[0] + sep + Join(parts[1..], sep)
  }

  /** `"".join(parts)`. */
  function Concat(parts: seq<string>): string
    decreases |parts|
  {
    if parts == [] then [] else parts[0] + Concat(parts[1..])
  }

  function Last<T>(xs: seq<T>): T
    requires |xs| >= 1
  {
    xs[|xs| - 1]
  }

  /** `s.replace(pat, "")` for a non-empty pattern: scans left to right and
      drops every non-overlapping occurrence of `pat`, wherever it stands. */
  function RemoveAll(s: string, pat: string): (r: string)
    requires pat != []
    ensures |r| <= |s|
    decreases |s|
  {
    if |s| < |pat| then s
    else if s[..|pat|] == pat then RemoveAll(s[|pat|..], pat)
    else [s[0]] + RemoveAll(s[1..], pat)
  }

  /** Joining the pieces of a split with the same separator gives back the
      original string. */
  lemma {:induction false} SplitJoin(s: string, sep: string)
    requires sep != []
    ensures Join(Split(s, sep), sep) == s
    decreases |s|
  {
    if |s| < |sep| {
    } else if s[..|sep|] == sep {
      var tail := s[|sep|..];
      var rest := Split(tail, sep);
      assert Split(s, sep) == [[]] + rest;
      SplitJoin(tail, sep);
      JoinEmptyFirst(rest, sep);
      assert s == s[..|sep|] + tail;
    } else {
      var tail := s[1..];
      var rest := Split(tail, sep);
      assert Split(s, sep) == [[s[0]] + rest[0]] + rest[1..];
      SplitJoin(tail, sep);
      JoinExtendFirst(s[0], rest, sep);
      assert s == s[..1] + tail && s[..1] == [s[0]];
    }
  }

  /** An empty first piece contributes only the separator that follows it. */
  lemma JoinEmptyFirst(t: seq<string>, sep: string)
    requires |t| >= 1
    ensures Join([[]] + t, sep) == sep + Join(t, sep)
  {
    assert ([[]] + t)[1..] == t;
  }

  /** Extending the first piece extends the joined string at the front. */
  lemma {:induction false} JoinExtendFirst(c: char, t: seq<string>, sep: string)
    requires |t| >= 1
    ensures Join([[c] + t[0]] + t[1..], sep) == [c] + Join(t, sep)
  {
    var u := [[c] + t[0]] + t[1..];
    assert u[1..] == t[1..];
  }

  /** With a one-character separator, no piece of the split contains it. */
  lemma {:induction false} SplitPiecesFree(s: string, c: char)
    ensures forall k :: 0 <= k < |Split(s, [c])| ==> c !in Split(s, [c])[k]
    decreases |s|
  {
    var sep := [c];
    if |s| < 1 {
    } else if s[..1] == sep {
      SplitPiecesFree(s[1..], c);
      var rest := Split(s[1..], sep);
      assert Split(s, sep) == [[]] + rest;
    } else {
      SplitPiecesFree(s[1..], c);
      var rest := Split(s[1..], sep);
      assert s[0] != c by { assert s[..1] == [s[0]]; }
      var parts := [[s[0]] + rest[0]] + rest[1..];
      assert Split(s, sep) == parts;
      forall k | 0 <= k < |parts| ensures c !in parts[k] {
        if k > 0 { assert parts[k] == rest[k]; }
      }
    }
  }

  /** A string that does not contain the separator splits into itself alone. */
  lemma {:induction false} SplitAbsent(s: string, sep: string)
    requires sep != []
    requires !Contains(s, sep)
    ensures Split(s, sep) == [s]
    decreases |s|
  {
    if |s| >= |sep| {
      assert !OccursAt(s, sep, 0);
      forall i | 0 <= i <= |s[1..]| ensures !OccursAt(s[1..], sep, i) {
        assert !OccursAt(s, sep, i + 1);
        if i + |sep| <= |s[1..]| {
          assert s[1..][i..i + |sep|] == s[i + 1..i + 1 + |sep|];
        }
      }
      SplitAbsent(s[1..], sep);
      assert [s[0]] + s[1..] == s;
    }
  }

  /** The last piece of a split with several pieces is a suffix of the string
      that directly follows an occurrence of the separator. */
  lemma {:induction false} JoinLast(parts: seq<string>, sep: string)
    requires |parts| >= 2
    ensures Join(parts, sep) == Join(parts[..|parts| - 1], sep) + sep + Last(parts)
    decreases |parts|
  {
    if |parts| == 2 {
      assert parts[..1] == [parts[0]];
    } else {
      JoinLast(parts[1..], sep);
      assert parts[1..][..|parts| - 2] == parts[..|parts| - 1][1..];
    }
  }

  /** Python's identity `s.replace(pat, "") == "".join(s.split(pat))`: the
      removal drops exactly the separators of the split. */
  lemma {:induction false} RemoveAllIsConcatOfSplit(s: string, pat: string)
    requires pat != []
    ensures RemoveAll(s, pat) == Concat(Split(s, pat))
    decreases |s|
  {
    if |s| < |pat| {
      assert Concat([s]) == s + Concat([]);
    } else if s[..|pat|] == pat {
      RemoveAllIsConcatOfSplit(s[|pat|..], pat);
      var rest := Split(s[|pat|..], pat);
      assert ([[]] + rest)[1..] == rest;
    } else {
      RemoveAllIsConcatOfSplit(s[1..], pat);
      var rest := Split(s[1..], pat);
      var parts := [[s[0]] + rest[0]] + rest[1..];
      assert parts[1..] == rest[1..];
      assert Concat(rest) == rest[0] + Concat(rest[1..]);
      assert Concat(parts) == ([s[0]] + rest[0]) + Concat(rest[1..]);
    }
  }

  /** A string with no occurrence of the pattern is left unchanged. */
  lemma RemoveAllAbsent(s: string, pat: string)
    requires pat != []
    requires !Contains(s, pat)
    ensures RemoveAll(s, pat) == s
  {
    RemoveAllIsConcatOfSplit(s, pat);
    SplitAbsent(s, pat);
    assert Concat([s]) == s + Concat([]);
  }

  /** A leading occurrence is removed together with every later one. */
  lemma RemoveAllLeading(pat: string, s: string)
    requires pat != []
    ensures RemoveAll(pat + s, pat) == RemoveAll(s, pat)
  {
    assert (pat + s)[..|pat|] == pat;
    assert (pat + s)[|pat|..] == s;
  }

  /** A string that lacks one of the pattern's characters cannot contain
      the pattern. */
  lemma AbsentCharNoOccurrence(s: string, pat: string, j: nat)
    requires j < |pat| && pat[j] !in s
    ensures !Contains(s, pat)
  {
    forall i | 0 <= i <= |s| ensures !OccursAt(s, pat, i) {
      if i + |pat| <= |s| {
        assert s[i..i + |pat|][j] == s[i + j];
      }
    }
  }

  /** A stretch in which no occurrence of the pattern starts is kept as it
      is, and the removal goes on after it: an occurrence is dropped
      wherever it stands, not only at the front. */
  lemma {:induction false} RemoveAllKeepsCleanPrefix(a: string, rest: string, pat: string)
    requires pat != []
    requires forall i :: 0 <= i < |a| ==> !OccursAt(a + rest, pat, i)
    ensures RemoveAll(a + rest, pat) == a + RemoveAll(rest, pat)
    decreases |a|
  {
    if a == [] {
      assert a + rest == rest;
    } else {
      var s := a + rest;
      if |s| < |pat| {
        assert RemoveAll(rest, pat) == rest;
      } else {
        assert !OccursAt(s, pat, 0);
        assert s[1..] == a[1..] + rest;
        forall i | 0 <= i < |a[1..]| ensures !OccursAt(a[1..] + rest, pat, i) {
          assert !OccursAt(s, pat, i + 1);
          if i + |pat| <= |s[1..]| {
            assert s[1..][i..i + |pat|] == s[i + 1..i + 1 + |pat|];
          }
        }
        RemoveAllKeepsCleanPrefix(a[1..], rest, pat);
        assert a == [a[0]] + a[1..];
      }
    }
  }
}
