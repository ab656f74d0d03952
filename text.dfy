/**
 * The handful of Python `str` operations the scraper and the citation
 * formatter rely on: `strip`, `lstrip(chars)`, `split(sep)`, `sep.join`,
 * `in`, `replace`, `lower` and slicing `[:n]`, over `seq<char>`.
 */
module Text {

  /** Python's `str.isspace()` for one character, by code point. */
  predicate IsSpace(c: char) {
    var n := c as int;
    (9 <= n <= 13) || (28 <= n <= 32) || n == 0x85 || n == 0xA0 || n == 0x1680
    || (0x2000 <= n <= 0x200A) || n == 0x2028 || n == 0x2029 || n == 0x202F
    || n == 0x205F || n == 0x3000
  }

  predicate AllSpace(s: string) {
    forall i :: 0 <= i < |s| ==> IsSpace(s[i])
  }

  lemma AllSpaceConcat(a: string, b: string)
    requires AllSpace(a) && AllSpace(b)
    ensures AllSpace(a + b)
  {
    assert forall i :: |a| <= i < |a + b| ==> (a + b)[i] == b[i - |a|];
  }

  /** `s.lstrip()`: the suffix left after dropping leading whitespace. */
  function LStrip(s: string): string
  {
    if s != [] && IsSpace(s[0]) then LStrip(s[1..]) else s
  }

  /** What `lstrip` drops is whitespace, and what it keeps is a suffix. */
  lemma {:induction false} LStripShape(s: string)
    ensures |LStrip(s)| <= |s| && LStrip(s) == s[|s| - |LStrip(s)|..]
    ensures AllSpace(s[..|s| - |LStrip(s)|])
    ensures LStrip(s) == [] || !IsSpace(LStrip(s)[0])
  {
    if s != [] && IsSpace(s[0]) {
      LStripShape(s[1..]);
      var n := |s| - |LStrip(s)|;
      assert s[1..][|s| - 1 - |LStrip(s)|..] == s[n..];
      assert forall i :: 1 <= i < n ==> s[..n][i] == s[1..][..n - 1][i - 1];
    }
  }

  /** `s.rstrip()`: the prefix left after dropping trailing whitespace. */
  function RStrip(s: string): string
  {
    if s != [] && IsSpace(s[|s| - 1]) then RStrip(s[..|s| - 1]) else s
  }

  /** What `rstrip` drops is whitespace, and what it keeps is a prefix. */
  lemma {:induction false} RStripShape(s: string)
    ensures |RStrip(s)| <= |s| && RStrip(s) == s[..|RStrip(s)|]
    ensures AllSpace(s[|RStrip(s)|..])
    ensures RStrip(s) == [] || !IsSpace(RStrip(s)[|RStrip(s)| - 1])
  {
    if s != [] && IsSpace(s[|s| - 1]) {
      var m := |s| - 1;
      RStripShape(s[..m]);
      var n := |RStrip(s)|;
      assert s[..m][..n] == s[..n];
      assert forall i :: 0 <= i < m - n ==> s[n..][i] == s[..m][n..][i];
    }
  }

  /** `s.strip()`. */
  function Strip(s: string): string {
    RStrip(LStrip(s))
  }

  /**
   * What `strip` keeps is the slice of `s` between a whitespace-only margin
   * on each side, and it neither starts nor ends with whitespace.
   */
  lemma StripShape(s: string)
    ensures |LStrip(s)| <= |s|
    ensures |s| - |LStrip(s)| + |Strip(s)| <= |s|
    ensures Strip(s) == s[|s| - |LStrip(s)|..|s| - |LStrip(s)| + |Strip(s)|]
    ensures AllSpace(s[..|s| - |LStrip(s)|])
    ensures AllSpace(s[|s| - |LStrip(s)| + |Strip(s)|..])
    ensures Strip(s) == [] || (!IsSpace(Strip(s)[0]) && !IsSpace(Strip(s)[|Strip(s)| - 1]))
  {
    var l := LStrip(s);
    var k := |s| - |l|;
    LStripShape(s);
    RStripShape(l);
    var n := |Strip(s)|;
    assert s[k..][..n] == s[k..k + n];
    assert s[k + n..] == s[k..][n..];
  }

  /** `s.lstrip(chars)`: drops leading characters that belong to `chars`. */
  function LStripChars(s: string, chars: set<char>): (r: string)
    ensures |r| <= |s| && r == s[|s| - |r|..]
    ensures forall i :: 0 <= i < |s| - |r| ==> s[i] in chars
    ensures r == [] || r[0] !in chars
  {
    if s != [] && s[0] in chars then LStripChars(s[1..], chars) else s
  }

  lemma LStripCharsStop(s: string, chars: set<char>)
    requires s == [] || s[0] !in chars
    ensures LStripChars(s, chars) == s
  { }

  lemma LStripCharsSkip(c: char, s: string, chars: set<char>)
    requires c in chars
    ensures LStripChars([c] + s, chars) == LStripChars(s, chars)
  {
    assert ([c] + s)[1..] == s;
  }

  lemma {:induction false} LStripConcat(x: string, y: string)
    ensures LStrip(x + y) == if AllSpace(x) then LStrip(y) else LStrip(x) + y
  {
    if x != [] {
      assert (x + y)[1..] == x[1..] + y;
      if IsSpace(x[0]) {
        LStripConcat(x[1..], y);
        assert AllSpace(x) == AllSpace(x[1..]);
      } else {
        assert !AllSpace(x);
      }
    } else {
      assert x + y == y;
    }
  }

  lemma {:induction false} RStripConcat(x: string, y: string)
    ensures RStrip(x + y) == if AllSpace(y) then RStrip(x) else x + RStrip(y)
    decreases |y|
  {
    if y == [] {
      assert x + y == x;
    } else {
      var n := |y| - 1;
      var xy := x + y;
      assert xy[|xy| - 1] == y[n];
      assert xy[..|xy| - 1] == x + y[..n];
      if IsSpace(y[n]) {
        assert RStrip(xy) == RStrip(x + y[..n]);
        assert RStrip(y) == RStrip(y[..n]);
        RStripConcat(x, y[..n]);
        assert AllSpace(y) == AllSpace(y[..n]) by {
          if AllSpace(y[..n]) {
            forall i | 0 <= i < |y| ensures IsSpace(y[i]) {
              if i < n { assert y[i] == y[..n][i]; }
            }
          }
        }
      } else {
        assert RStrip(xy) == xy;
        assert RStrip(y) == y;
      }
    }
  }

  lemma LStripOfAllSpace(s: string)
    requires AllSpace(s)
    ensures LStrip(s) == []
  {
    LStripShape(s);
  }

  /** Trailing whitespace dropped before a strip makes no difference. */
  lemma StripAfterRStrip(s: string)
    ensures Strip(RStrip(s)) == Strip(s)
  {
    var r := RStrip(s);
    RStripShape(s);
    var t := s[|r|..];
    assert s == r + t;
    LStripConcat(r, t);
    if AllSpace(r) {
      LStripOfAllSpace(t);
      LStripOfAllSpace(r);
    } else {
      RStripConcat(LStrip(r), t);
    }
  }

  /** Leading whitespace dropped before a strip makes no difference. */
  lemma StripAfterLStrip(s: string)
    ensures Strip(LStrip(s)) == Strip(s)
  {
    LStripShape(s);
  }

  /** Whitespace appended to a string is gone again after a strip. */
  lemma StripDropsBlankTail(y: string, t: string)
    requires AllSpace(t)
    ensures Strip(y + t) == Strip(y)
  {
    LStripConcat(y, t);
    if AllSpace(y) {
      LStripOfAllSpace(t);
      LStripOfAllSpace(y);
    } else {
      RStripConcat(LStrip(y), t);
    }
  }

  /** A string that neither starts nor ends with whitespace is its own strip. */
  lemma StripUnpadded(s: string)
    requires s != [] ==> !IsSpace(s[0]) && !IsSpace(s[|s| - 1])
    ensures Strip(s) == s
  {
  }

  /** A leading whitespace character is lost to the strip. */
  lemma StripLeadingSpace(c: char, s: string)
    requires IsSpace(c)
    ensures Strip([c] + s) == Strip(s)
  {
    assert ([c] + s)[1..] == s;
  }

  /** `s.strip().strip() == s.strip()`. */
  lemma StripIdempotent(s: string)
    ensures Strip(Strip(s)) == Strip(s)
  {
    StripAfterRStrip(LStrip(s));
    StripAfterLStrip(s);
  }

  /** A character absent from a string stays absent once it is stripped. */
  lemma LStripKeepsAbsent(s: string, c: char)
    requires c !in s
    ensures c !in LStrip(s)
  {
    var l := LStrip(s);
    LStripShape(s);
    assert forall i :: 0 <= i < |l| ==> l[i] == s[|s| - |l| + i];
  }

  lemma RStripKeepsAbsent(s: string, c: char)
    requires c !in s
    ensures c !in RStrip(s)
  {
    var r := RStrip(s);
    RStripShape(s);
    assert forall i :: 0 <= i < |r| ==> r[i] == s[i];
  }

  lemma StripKeepsAbsent(s: string, c: char)
    requires c !in s
    ensures c !in Strip(s)
  {
    LStripKeepsAbsent(s, c);
    RStripKeepsAbsent(LStrip(s), c);
  }

  /** `sep.join(parts)` for a one-character separator; `SplitJoin` shows that `Split` undoes it. */
  function Join(parts: seq<string>, sep: char): string
  {
    if |parts| == 0 then []
    else if |parts| == 1 then parts[0]
    else parts[0] + [sep] + Join(parts[1..], sep)
  }

  /**
   * `s.split(sep)` for a one-character separator: always at least one part,
   * no part holds the separator, and joining the parts gives `s` back.
   */
  function Split(s: string, sep: char): (parts: seq<string>)
    ensures |parts| >= 1
    ensures forall k :: 0 <= k < |parts| ==> sep !in parts[k]
    ensures Join(parts, sep) == s
    decreases |s|
  {
    if s == [] then [[]]
    else
      var rest := Split(s[1..], sep);
      if s[0] == sep then
        assert ([[]] + rest)[1..] == rest;
        [[]] + rest
      else
        var parts := [[s[0]] + rest[0]] + rest[1..];
        assert parts[1..] == rest[1..];
        assert |rest| > 1 ==> Join(rest, sep) == rest[0] + [sep] + Join(rest[1..], sep);
        assert s == [s[0]] + s[1..];
        parts
  }

  lemma {:induction false} SplitWithoutSep(p: string, sep: char)
    requires sep !in p
    ensures Split(p, sep) == [p]
    decreases |p|
  {
    if p != [] {
      SplitWithoutSep(p[1..], sep);
    }
  }

  lemma {:induction false} SplitAfterSep(p: string, x: string, sep: char)
    requires sep !in p
    ensures Split(p + [sep] + x, sep) == [p] + Split(x, sep)
    decreases |p|
  {
    var s := p + [sep] + x;
    if p == [] {
      assert s[1..] == x;
    } else {
      assert s[1..] == p[1..] + [sep] + x;
      SplitAfterSep(p[1..], x, sep);
      assert [p[0]] + p[1..] == p;
    }
  }

  /** Splitting a join of separator-free parts gives the parts back. */
  lemma {:induction false} SplitJoin(parts: seq<string>, sep: char)
    requires |parts| >= 1
    requires forall k :: 0 <= k < |parts| ==> sep !in parts[k]
    ensures Split(Join(parts, sep), sep) == parts
  {
    if |parts| == 1 {
      SplitWithoutSep(parts[0], sep);
    } else {
      SplitJoin(parts[1..], sep);
      SplitAfterSep(parts[0], Join(parts[1..], sep), sep);
    }
  }

  /** The last part of a join, split off. */
  lemma JoinOfTwo(a: string, b: string, sep: char)
    ensures Join([a, b], sep) == a + [sep] + b
  {
    assert [a, b][1..] == [b];
  }

  lemma {:induction false} JoinSnoc(parts: seq<string>, sep: char)
    requires |parts| >= 2
    ensures Join(parts, sep) == Join(parts[..|parts| - 1], sep) + [sep] + parts[|parts| - 1]
  {
    if |parts| > 2 {
      JoinSnoc(parts[1..], sep);
      assert parts[1..][..|parts| - 2] == parts[..|parts| - 1][1..];
    }
  }

  /** A last part that is blank together with its separator is lost to the strip. */
  lemma StripJoinBlankLast(parts: seq<string>, sep: char)
    requires |parts| >= 2 && AllSpace([sep] + parts[|parts| - 1])
    ensures Strip(Join(parts, sep)) == Strip(Join(parts[..|parts| - 1], sep))
  {
    JoinSnoc(parts, sep);
    StripDropsBlankBreak(Join(parts[..|parts| - 1], sep), sep, parts[|parts| - 1]);
  }

  /** A separator followed by a blank part, both whitespace, is lost to the strip. */
  lemma StripDropsBlankBreak(y: string, sep: char, t: string)
    requires AllSpace([sep] + t)
    ensures Strip(y + [sep] + t) == Strip(y)
  {
    assert ([sep] + t)[0] == sep;
    assert forall i :: 0 <= i < |t| ==> t[i] == ([sep] + t)[i + 1];
    StripDropsBlankTail(y + [sep], t);
    StripDropsBlankTail(y, [sep]);
  }

  lemma LStripJoin(parts: seq<string>, sep: char)
    requires |parts| >= 2 && !AllSpace(parts[0])
    ensures LStrip(Join(parts, sep)) == Join(parts[0 := LStrip(parts[0])], sep)
  {
    var p1 := parts[0 := LStrip(parts[0])];
    var rest := Join(parts[1..], sep);
    var tail := [sep] + rest;
    calc {
      LStrip(Join(parts, sep));
      LStrip(parts[0] + [sep] + rest);
      { assert parts[0] + [sep] + rest == parts[0] + tail; }
      LStrip(parts[0] + tail);
      { LStripConcat(parts[0], tail); }
      LStrip(parts[0]) + tail;
      { assert p1[1..] == parts[1..]; }
      p1[0] + [sep] + Join(p1[1..], sep);
      Join(p1, sep);
    }
  }

  lemma RStripJoin(parts: seq<string>, sep: char)
    requires |parts| >= 2 && !AllSpace(parts[|parts| - 1])
    ensures RStrip(Join(parts, sep))
      == Join(parts[|parts| - 1 := RStrip(parts[|parts| - 1])], sep)
  {
    var m := |parts| - 1;
    var p1 := parts[m := RStrip(parts[m])];
    var head := Join(parts[..m], sep) + [sep];
    JoinSnoc(parts, sep);
    JoinSnoc(p1, sep);
    assert p1[..m] == parts[..m];
    assert Join(parts, sep) == head + parts[m];
    RStripConcat(head, parts[m]);
    assert Join(p1, sep) == head + RStrip(parts[m]);
  }

  /**
   * Stripping a join strips only the outer ends: the leading whitespace of
   * the first part and the trailing whitespace of the last, provided those
   * parts are not blank.
   */
  lemma StripJoin(parts: seq<string>, sep: char)
    requires |parts| >= 2
    requires !AllSpace(parts[0]) && !AllSpace(parts[|parts| - 1])
    ensures Strip(Join(parts, sep))
      == Join(parts[0 := LStrip(parts[0])][|parts| - 1 := RStrip(parts[|parts| - 1])], sep)
  {
    var p1 := parts[0 := LStrip(parts[0])];
    LStripJoin(parts, sep);
    assert p1[|p1| - 1] == parts[|parts| - 1];
    RStripJoin(p1, sep);
  }

  predicate StartsWith(s: string, prefix: string) {
    |prefix| <= |s| && s[..|prefix|] == prefix
  }

  predicate EndsWith(s: string, suffix: string) {
    |suffix| <= |s| && s[|s| - |suffix|..] == suffix
  }

  /** Python's `sub in s`. */
  predicate Contains(s: string, sub: string)
    decreases |s|
  {
    StartsWith(s, sub) || (s != [] && Contains(s[1..], sub))
  }

  /** `sub` is the slice of `s` that starts at position `i`. */
  predicate OccursAt(s: string, sub: string, i: int) {
    0 <= i <= |s| - |sub| && s[i..i + |sub|] == sub
  }

  /** `sub in s` holds exactly when `sub` occurs in `s` at some position. */
  lemma {:induction false} ContainsAt(s: string, sub: string)
    ensures Contains(s, sub) <==> exists i :: OccursAt(s, sub, i)
    decreases |s|
  {
    if StartsWith(s, sub) {
      assert OccursAt(s, sub, 0);
    } else if s == [] {
      assert forall i :: !OccursAt(s, sub, i);
    } else {
      ContainsAt(s[1..], sub);
      forall i | OccursAt(s, sub, i) ensures OccursAt(s[1..], sub, i - 1) {
        assert i != 0;
        assert s[1..][i - 1..i - 1 + |sub|] == s[i..i + |sub|];
      }
      forall i | OccursAt(s[1..], sub, i) ensures OccursAt(s, sub, i + 1) {
        assert s[i + 1..i + 1 + |sub|] == s[1..][i..i + |sub|];
      }
    }
  }

  lemma {:induction false} ContainsMiddle(a: string, b: string, c: string)
    ensures Contains(a + b + c, b)
    decreases |a|
  {
    if a == [] {
      assert (a + b + c)[..|b|] == b;
    } else {
      assert (a + b + c)[1..] == a[1..] + b + c;
      ContainsMiddle(a[1..], b, c);
    }
  }

  /** Text found in `a` is still found once more text follows. */
  lemma {:induction false} ContainsExtend(a: string, b: string, sub: string)
    requires Contains(a, sub)
    ensures Contains(a + b, sub)
    decreases |a|
  {
    if StartsWith(a, sub) {
      assert (a + b)[..|sub|] == a[..|sub|];
    } else {
      assert (a + b)[1..] == a[1..] + b;
      ContainsExtend(a[1..], b, sub);
    }
  }

  lemma ContainsSuffix(a: string, b: string)
    ensures Contains(a + b, b)
  {
    ContainsMiddle(a, b, []);
    assert a + b + [] == a + b;
  }

  lemma PrefixExtend(a: string, b: string, prefix: string)
    requires StartsWith(a, prefix)
    ensures StartsWith(a + b, prefix)
  {
    assert (a + b)[..|prefix|] == a[..|prefix|];
  }

  lemma PrefixTrans(s: string, p: string, q: string)
    requires StartsWith(s, p) && StartsWith(p, q)
    ensures StartsWith(s, q)
  {
    assert s[..|q|] == s[..|p|][..|q|];
  }

  /** A text that starts with `p` cannot start with a `sub` that differs from `p` at `k`. */
  lemma PrefixesDiffer(s: string, p: string, sub: string, k: nat)
    requires StartsWith(s, p) && k < |p| && k < |sub| && p[k] != sub[k]
    ensures !StartsWith(s, sub)
  {
    assert s[k] == s[..|p|][k];
    if |sub| <= |s| {
      assert s[k] == s[..|sub|][k];
    }
  }

  lemma PrefixOfConcat(a: string, b: string)
    ensures StartsWith(a + b, a)
  {
    assert (a + b)[..|a|] == a;
  }

  lemma SuffixOfConcat(a: string, b: string)
    ensures EndsWith(a + b, b)
  {
    assert (a + b)[|a + b| - |b|..] == b;
  }

  /**
   * `a + b` does not hold `sub` when it does not start with it, `b` does
   * not hold it, and `sub`'s first character occurs in `a` only at its head.
   */
  lemma NotContainsPast(a: string, b: string, sub: string)
    requires a != [] && sub != [] && sub[0] !in a[1..]
    requires !StartsWith(a + b, sub) && !Contains(b, sub)
    ensures !Contains(a + b, sub)
  {
    assert (a + b)[1..] == a[1..] + b;
    ContainsAfterSkip(a[1..], b, sub);
  }

  /** A string shorter than `sub` cannot contain it. */
  lemma {:induction false} ContainsNeedsRoom(s: string, sub: string)
    requires |s| < |sub|
    ensures !Contains(s, sub)
    decreases |s|
  {
    if s != [] {
      ContainsNeedsRoom(s[1..], sub);
    }
  }

  /**
   * A prefix none of whose characters can start `sub` adds no occurrence:
   * `sub in a + b` exactly when `sub in b`.
   */
  lemma {:induction false} ContainsAfterSkip(a: string, b: string, sub: string)
    requires sub != [] && sub[0] !in a
    ensures Contains(a + b, sub) <==> Contains(b, sub)
    decreases |a|
  {
    if a != [] {
      assert (a + b)[1..] == a[1..] + b;
      ContainsAfterSkip(a[1..], b, sub);
    } else {
      assert a + b == b;
    }
  }

  /**
   * `s.replace(pattern, replacement)`: scans left to right and replaces each
   * non-overlapping occurrence of `pattern`.  A string that does not
   * contain `pattern` comes back unchanged.
   */
  function Replace(s: string, pattern: string, replacement: string): (r: string)
    requires pattern != []
    ensures !Contains(s, pattern) ==> r == s
    decreases |s|
  {
    if StartsWith(s, pattern) then replacement + Replace(s[|pattern|..], pattern, replacement)
    else if s == [] then []
    else [s[0]] + Replace(s[1..], pattern, replacement)
  }

  /** An occurrence at the front is replaced, and nothing after it is touched. */
  lemma ReplaceLeading(pattern: string, tail: string, replacement: string)
    requires pattern != [] && !Contains(tail, pattern)
    ensures Replace(pattern + tail, pattern, replacement) == replacement + tail
  {
    PrefixOfConcat(pattern, tail);
    assert (pattern + tail)[|pattern|..] == tail;
  }

  /**
   * The scan goes on after a replaced occurrence: the first occurrence of
   * `pattern` is replaced, the text before it is kept, and the rest is
   * replaced in turn, so every non-overlapping occurrence is replaced.
   */
  lemma {:induction false} ReplaceFirstOccurrence(x: string, pattern: string, y: string, replacement: string)
    requires pattern != [] && !Contains(x + pattern[..|pattern| - 1], pattern)
    ensures Replace(x + pattern + y, pattern, replacement)
      == x + replacement + Replace(y, pattern, replacement)
    decreases |x|
  {
    if x == [] {
      assert x + pattern + y == pattern + y;
      ReplaceAtFront(pattern, y, replacement);
      assert x + replacement == replacement;
    } else {
      var rest := pattern + y;
      var tail := Replace(y, pattern, replacement);
      NoOccurrenceNearHead(x, pattern, y);
      Regroup(x, pattern, y);
      ReplaceSkipsHead(x, rest, pattern, replacement);
      ReplaceFirstOccurrence(x[1..], pattern, y, replacement);
      ConsRegroup(x, replacement, tail);
    }
  }

  lemma Regroup(x: string, pattern: string, y: string)
    requires x != []
    ensures x + pattern + y == x + (pattern + y)
    ensures x[1..] + (pattern + y) == x[1..] + pattern + y
  { }

  lemma ConsRegroup(x: string, m: string, r: string)
    requires x != []
    ensures [x[0]] + (x[1..] + m + r) == x + m + r
  {
    assert [x[0]] + (x[1..] + m + r) == [x[0]] + (x[1..] + m) + r;
    assert [x[0]] + (x[1..] + m) == x + m;
  }

  lemma ReplaceAtFront(pattern: string, y: string, replacement: string)
    requires pattern != []
    ensures Replace(pattern + y, pattern, replacement) == replacement + Replace(y, pattern, replacement)
  {
    PrefixOfConcat(pattern, y);
    assert (pattern + y)[|pattern|..] == y;
  }

  lemma ReplaceSkipsHead(x: string, rest: string, pattern: string, replacement: string)
    requires pattern != [] && x != [] && !StartsWith(x + rest, pattern)
    ensures Replace(x + rest, pattern, replacement) == [x[0]] + Replace(x[1..] + rest, pattern, replacement)
  {
    assert (x + rest)[1..] == x[1..] + rest;
  }

  /** No occurrence starts at the head of `x`, nor anywhere in `x[1..]` before `pattern` itself. */
  lemma NoOccurrenceNearHead(x: string, pattern: string, y: string)
    requires pattern != [] && x != [] && !Contains(x + pattern[..|pattern| - 1], pattern)
    ensures !StartsWith(x + (pattern + y), pattern)
    ensures !Contains(x[1..] + pattern[..|pattern| - 1], pattern)
  {
    var near := x + pattern[..|pattern| - 1];
    HeadsAgree(x, pattern, y);
    SamePrefixStarts(x + (pattern + y), near, pattern);
    assert near[1..] == x[1..] + pattern[..|pattern| - 1];
  }

  /** The first `|pattern|` characters of `x + pattern + y` come from `x` and `pattern` without its last character. */
  lemma HeadsAgree(x: string, pattern: string, y: string)
    requires pattern != [] && x != []
    ensures |pattern| <= |x + pattern[..|pattern| - 1]|
    ensures (x + (pattern + y))[..|pattern|] == (x + pattern[..|pattern| - 1])[..|pattern|]
  {
    var s := x + (pattern + y);
    var near := x + pattern[..|pattern| - 1];
    forall i | 0 <= i < |pattern| ensures s[i] == near[i] {
      if i >= |x| {
        assert s[i] == pattern[i - |x|];
        assert near[i] == pattern[..|pattern| - 1][i - |x|];
      }
    }
  }

  lemma SamePrefixStarts(s: string, t: string, sub: string)
    requires |sub| <= |s| && |sub| <= |t| && s[..|sub|] == t[..|sub|]
    ensures StartsWith(s, sub) <==> StartsWith(t, sub)
  { }

  /** `c.lower()` for ASCII letters; other characters are kept. */
  function LowerChar(c: char): char {
    if 'A' <= c <= 'Z' then (c as int + 32) as char else c
  }

  function Lower(s: string): (r: string)
    ensures |r| == |s|
    ensures forall i :: 0 <= i < |s| ==> r[i] == LowerChar(s[i])
  {
    seq(|s|, i requires 0 <= i < |s| => LowerChar(s[i]))
  }

  lemma LowerConcat(a: string, b: string)
    ensures Lower(a + b) == Lower(a) + Lower(b)
  {
  }

  lemma LowerTail(s: string)
    requires s != []
    ensures Lower(s)[1..] == Lower(s[1..])
  {
  }

  function Min(a: int, b: int): int { if a <= b then a else b }

  /** The slice `s[:n]`. */
  function Take(s: string, n: nat): (r: string)
    ensures |r| == if n <= |s| then n else |s|
    ensures StartsWith(s, r)
  {
    if n <= |s| then s[..n] else s
  }
}
