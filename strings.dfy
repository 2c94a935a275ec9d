/**
 * The Python `str` operations the pipeline relies on, for `string == seq<char>`:
 * `find`, `split`, `join`, `replace`, `strip`, `startswith`, and the ASCII part of
 * `lower` and `title`; plus code-point ordering of strings, as used by `sorted`.
 */
module Strings {
  import opened Wrappers

  // ------------------------------------------------------------------ occurrences

  /** `w` occurs in `s` starting at position `i`. */
  predicate OccursAt(s: string, w: string, i: nat) {
    i + |w| <= |s| && s[i..i + |w|] == w
  }

  /** Python's `w in s` on strings. */
  ghost predicate Contains(s: string, w: string) {
    exists i: nat :: OccursAt(s, w, i)
  }

  /** Python's `s.startswith(p)`. */
  predicate StartsWith(s: string, p: string) {
    OccursAt(s, p, 0)
  }

  lemma OccursInLeft(a: string, b: string, w: string, i: nat)
    requires OccursAt(a, w, i)
    ensures OccursAt(a + b, w, i)
  {
    assert (a + b)[i..i + |w|] == a[i..i + |w|];
  }

  lemma OccursInRight(a: string, b: string, w: string, i: nat)
    requires OccursAt(b, w, i)
    ensures OccursAt(a + b, w, |a| + i)
  {
    assert (a + b)[|a| + i..|a| + i + |w|] == b[i..i + |w|];
  }

  /** A string shorter than `w` cannot contain it. */
  lemma TooShortToContain(s: string, w: string)
    requires |s| < |w|
    ensures !Contains(s, w)
  {
  }

  lemma NotContainsTail(p: string, w: string)
    requires |p| > 0 && !Contains(p, w)
    ensures !Contains(p[1..], w)
  {
    if Contains(p[1..], w) {
      var i: nat :| OccursAt(p[1..], w, i);
      assert p[1..][i..i + |w|] == p[i + 1..i + 1 + |w|];
      assert OccursAt(p, w, i + 1);
    }
  }

  /** For a one-character pattern, containment is membership. */
  lemma ContainsChar(s: string, c: char)
    ensures Contains(s, [c]) <==> c in s
  {
    if c in s {
      var i :| 0 <= i < |s| && s[i] == c;
      assert OccursAt(s, [c], i);
    }
    if Contains(s, [c]) {
      var i: nat :| OccursAt(s, [c], i);
      assert s[i] == c;
    }
  }

  /** Python's `s.find(w, k)`: the first position at or after `k` where `w` occurs. */
  function FindFrom(s: string, w: string, k: nat): (r: Option<nat>)
    ensures r.Some? ==> k <= r.value && OccursAt(s, w, r.value)
    ensures r.Some? ==> forall j | k <= j < r.value :: !OccursAt(s, w, j)
    ensures r.None? ==> forall j: nat | k <= j :: !OccursAt(s, w, j)
    decreases |s| - k
  {
    if k + |w| > |s| then None
    else if s[k..k + |w|] == w then Some(k)
    else FindFrom(s, w, k + 1)
  }

  // ------------------------------------------------------------------ split and join

  /**
   * Python's `s.split(sep)` for a non-empty separator: the pieces between the
   * occurrences of `sep` found scanning from the left. Never empty: `"".split(",")`
   * is `[""]`.
   */
  function Split(s: string, sep: string): (parts: seq<string>)
    requires |sep| > 0
    ensures |parts| >= 1
    decreases |s|
  {
    if |s| < |sep| then [s]
    else if s[..|sep|] == sep then [""] + Split(s[|sep|..], sep)
    else
      var rest := Split(s[1..], sep);
      [[s[0]] + rest[0]] + rest[1..]
  }

  /** Python's `sep.join(parts)`. */
  function Join(parts: seq<string>, sep: string): string {
    if |parts| == 0 then ""
    else if |parts| == 1 then parts[0]
    else parts[0] + sep + Join(parts[1..], sep)
  }

  /** Python's `s.replace(pattern, replacement)` for a non-empty pattern. */
  function Replace(s: string, pattern: string, replacement: string): string
    requires |pattern| > 0
  {
    Join(Split(s, pattern), replacement)
  }

  /** No proper prefix of `sep` is also a suffix of it, so two occurrences never overlap. */
  predicate NoBorder(sep: string) {
    forall k | 0 < k < |sep| :: sep[k..] != sep[..|sep| - k]
  }

  lemma JoinConsHead(c: char, parts: seq<string>, sep: string)
    requires |parts| >= 1
    ensures Join([[c] + parts[0]] + parts[1..], sep) == [c] + Join(parts, sep)
  {
    var q := [[c] + parts[0]] + parts[1..];
    assert q[1..] == parts[1..];
  }

  /** Merging two leading parts around the separator does not change the joined text. */
  lemma JoinMergeHead(a: string, b: string, rest: seq<string>, sep: string)
    ensures Join([a + sep + b] + rest, sep) == Join([a, b] + rest, sep)
  {
    assert ([a, b] + rest)[1..] == [b] + rest;
    assert ([a + sep + b] + rest)[1..] == rest;
    assert ([b] + rest)[1..] == rest;
  }

  /** Splitting and joining back on the same separator gives the text back. */
  lemma {:induction false} JoinSplit(s: string, sep: string)
    requires |sep| > 0
    ensures Join(Split(s, sep), sep) == s
    decreases |s|
  {
    if |s| < |sep| {
    } else if s[..|sep|] == sep {
      JoinSplit(s[|sep|..], sep);
      var rest := Split(s[|sep|..], sep);
      assert ([""] + rest)[1..] == rest;
      assert s == s[..|sep|] + s[|sep|..];
    } else {
      JoinSplit(s[1..], sep);
      JoinConsHead(s[0], Split(s[1..], sep), sep);
      assert s == [s[0]] + s[1..];
    }
  }

  lemma {:induction false} SplitWithout(p: string, sep: string)
    requires |sep| > 0 && !Contains(p, sep)
    ensures Split(p, sep) == [p]
    decreases |p|
  {
    if |p| >= |sep| {
      assert !OccursAt(p, sep, 0);
      NotContainsTail(p, sep);
      SplitWithout(p[1..], sep);
      assert [p[0]] + p[1..] == p;
    }
  }

  /** A piece free of `sep`, followed by `sep`, is split off as the first part. */
  lemma {:induction false} SplitAfter(p: string, sep: string, rest: string)
    requires |sep| > 0 && NoBorder(sep) && !Contains(p, sep)
    ensures Split(p + sep + rest, sep) == [p] + Split(rest, sep)
    decreases |p|
  {
    var s := p + sep + rest;
    if |p| == 0 {
      assert s == sep + rest;
      assert s[..|sep|] == sep;
      assert s[|sep|..] == rest;
    } else {
      if |sep| <= |p| {
        assert s[..|sep|] == p[0..|sep|];
        assert !OccursAt(p, sep, 0);
      } else {
        var k := |p|;
        assert s[..|sep|] == p + sep[..|sep| - k];
        assert sep[k..] != sep[..|sep| - k];
        assert (p + sep[..|sep| - k])[k..] == sep[..|sep| - k];
      }
      assert s[..|sep|] != sep;
      NotContainsTail(p, sep);
      SplitAfter(p[1..], sep, rest);
      assert s[1..] == p[1..] + sep + rest;
      assert [p[0]] + p[1..] == p;
    }
  }

  /**
   * Joining parts that do not contain the separator and splitting again gives
   * the parts back (the separator must not overlap itself).
   */
  lemma {:induction false} SplitJoin(parts: seq<string>, sep: string)
    requires |sep| > 0 && NoBorder(sep) && |parts| >= 1
    requires forall i | 0 <= i < |parts| :: !Contains(parts[i], sep)
    ensures Split(Join(parts, sep), sep) == parts
    decreases |parts|
  {
    if |parts| == 1 {
      SplitWithout(parts[0], sep);
    } else {
      SplitJoin(parts[1..], sep);
      SplitAfter(parts[0], sep, Join(parts[1..], sep));
      assert parts == [parts[0]] + parts[1..];
    }
  }

  /** Every part produced by `Split` is free of the separator. */
  lemma {:induction false} SplitPartsLackSep(s: string, sep: string)
    requires |sep| > 0
    ensures Split(s, sep)[0] <= s
    ensures forall i | 0 <= i < |Split(s, sep)| :: !Contains(Split(s, sep)[i], sep)
    decreases |s|
  {
    var parts := Split(s, sep);
    if |s| < |sep| {
      TooShortToContain(s, sep);
    } else if s[..|sep|] == sep {
      SplitPartsLackSep(s[|sep|..], sep);
      TooShortToContain("", sep);
      assert parts == [""] + Split(s[|sep|..], sep);
    } else {
      SplitPartsLackSep(s[1..], sep);
      var rest := Split(s[1..], sep);
      var head := [s[0]] + rest[0];
      assert head <= s;
      forall j: nat ensures !OccursAt(head, sep, j) {
        if j == 0 {
          if |sep| <= |head| {
            assert head[..|sep|] == s[..|sep|];
          }
        } else if j + |sep| <= |head| {
          assert head[j..j + |sep|] == rest[0][j - 1..j - 1 + |sep|];
          assert !OccursAt(rest[0], sep, j - 1);
        }
      }
      assert parts == [head] + rest[1..];
      assert forall i | 1 <= i < |parts| :: parts[i] == rest[i];
    }
  }

  /** A character in neither the parts nor the separator is not in the joined text. */
  lemma {:induction false} NotInJoin(parts: seq<string>, sep: string, c: char)
    requires c !in sep
    requires forall i | 0 <= i < |parts| :: c !in parts[i]
    ensures c !in Join(parts, sep)
    decreases |parts|
  {
    if |parts| > 1 {
      NotInJoin(parts[1..], sep, c);
    }
  }

  /** An occurrence inside one part is an occurrence in the joined text. */
  lemma {:induction false} PartOccurrence(parts: seq<string>, sep: string, w: string, k: nat)
    requires k < |parts| && Contains(parts[k], w)
    ensures Contains(Join(parts, sep), w)
    decreases |parts|
  {
    if |parts| > 1 {
      var j: nat :| OccursAt(parts[k], w, j);
      if k == 0 {
        OccursInLeft(parts[0], sep + Join(parts[1..], sep), w, j);
        assert parts[0] + sep + Join(parts[1..], sep) == parts[0] + (sep + Join(parts[1..], sep));
      } else {
        PartOccurrence(parts[1..], sep, w, k - 1);
        var i: nat :| OccursAt(Join(parts[1..], sep), w, i);
        OccursInRight(parts[0] + sep, Join(parts[1..], sep), w, i);
      }
    }
  }

  /**
   * Joining on a one-character separator that the pattern does not contain
   * creates no occurrence of the pattern across part boundaries.
   */
  lemma {:induction false} JoinAvoids(parts: seq<string>, c: char, w: string)
    requires |w| > 0 && c !in w
    requires forall i | 0 <= i < |parts| :: !Contains(parts[i], w)
    ensures !Contains(Join(parts, [c]), w)
    decreases |parts|
  {
    if |parts| > 1 {
      JoinAvoids(parts[1..], c, w);
      var p, tail := parts[0], Join(parts[1..], [c]);
      var s := p + [c] + tail;
      assert s == Join(parts, [c]);
      assert !Contains(p, w) && !Contains(tail, w);
      forall i: nat | i + |w| <= |s| ensures !OccursAt(s, w, i) {
        if i + |w| <= |p| {
          assert s[i..i + |w|] == p[i..i + |w|];
          assert !OccursAt(p, w, i);
        } else if i <= |p| {
          assert s[i..i + |w|][|p| - i] == s[|p|] == c;
        } else {
          assert s[i..i + |w|] == tail[i - |p| - 1..i - |p| - 1 + |w|];
          assert !OccursAt(tail, w, i - |p| - 1);
        }
      }
    }
  }

  // ------------------------------------------------------------------ replace

  /** Replacing a pattern that does not occur changes nothing. */
  lemma ReplaceAbsent(s: string, pattern: string, replacement: string)
    requires |pattern| > 0 && !Contains(s, pattern)
    ensures Replace(s, pattern, replacement) == s
  {
    SplitWithout(s, pattern);
  }

  /** After replacing a character by text without it, the character is gone. */
  lemma ReplaceRemovesChar(s: string, c: char, replacement: string)
    requires c !in replacement
    ensures c !in Replace(s, [c], replacement)
  {
    var parts := Split(s, [c]);
    SplitPartsLackSep(s, [c]);
    forall i | 0 <= i < |parts| ensures c !in parts[i] {
      ContainsChar(parts[i], c);
    }
    NotInJoin(parts, replacement, c);
  }

  /** A character absent from the text and from the replacement stays absent. */
  lemma ReplaceKeepsAbsentChar(s: string, pattern: string, replacement: string, c: char)
    requires |pattern| > 0 && c !in s && c !in replacement
    ensures c !in Replace(s, pattern, replacement)
  {
    var parts := Split(s, pattern);
    JoinSplit(s, pattern);
    forall i | 0 <= i < |parts| ensures c !in parts[i] {
      if c in parts[i] {
        ContainsChar(parts[i], c);
        PartOccurrence(parts, pattern, [c], i);
        ContainsChar(s, c);
      }
    }
    NotInJoin(parts, replacement, c);
  }

  /** Replacing a pattern by a single character it does not contain removes every occurrence. */
  lemma ReplaceRemovesPattern(s: string, pattern: string, c: char)
    requires |pattern| > 0 && c !in pattern
    ensures !Contains(Replace(s, pattern, [c]), pattern)
  {
    SplitPartsLackSep(s, pattern);
    JoinAvoids(Split(s, pattern), c, pattern);
  }

  /**
   * Replacing a character by a pattern and the pattern back by the character is
   * the identity on text that does not already contain the pattern.
   */
  lemma ReplaceRoundTrip(s: string, c: char, pattern: string)
    requires |pattern| > 0 && NoBorder(pattern) && !Contains(s, pattern)
    ensures Replace(Replace(s, [c], pattern), pattern, [c]) == s
  {
    var parts := Split(s, [c]);
    JoinSplit(s, [c]);
    forall i | 0 <= i < |parts| ensures !Contains(parts[i], pattern) {
      if Contains(parts[i], pattern) {
        PartOccurrence(parts, [c], pattern, i);
      }
    }
    SplitJoin(parts, pattern);
  }

  /** Character-for-character translation, as `s.replace(a, b)` with one-character arguments. */
  function Translate(s: string, a: char, b: char): (r: string)
    ensures |r| == |s|
  {
    seq(|s|, i requires 0 <= i < |s| => if s[i] == a then b else s[i])
  }

  /** `replace` with one-character pattern and replacement is a translation. */
  lemma {:induction false} ReplaceOneChar(s: string, a: char, b: char)
    ensures Replace(s, [a], [b]) == Translate(s, a, b)
    decreases |s|
  {
    if |s| >= 1 {
      ReplaceOneChar(s[1..], a, b);
      var rest := Split(s[1..], [a]);
      if s[..1] == [a] {
        assert Split(s, [a]) == [""] + rest;
        assert ([""] + rest)[1..] == rest;
      } else {
        assert Split(s, [a]) == [[s[0]] + rest[0]] + rest[1..];
        JoinConsHead(s[0], rest, [b]);
      }
      assert Translate(s, a, b) == [if s[0] == a then b else s[0]] + Translate(s[1..], a, b);
    }
  }

  // ------------------------------------------------------------------ whitespace

  /** ASCII whitespace as Python's `str.isspace` sees it: tab to carriage return, 0x1c-0x1f, space. */
  predicate IsSpace(c: char) {
    c == ' ' || (9 <= c as int <= 13) || (28 <= c as int <= 31)
  }

  /** Every character is whitespace (the empty string included). */
  predicate Blank(s: string) {
    forall i | 0 <= i < |s| :: IsSpace(s[i])
  }

  /** Python's `s.lstrip()`. */
  function LStrip(s: string): (r: string)
    ensures |r| <= |s|
    decreases |s|
  {
    if |s| > 0 && IsSpace(s[0]) then LStrip(s[1..]) else s
  }

  /** Python's `s.rstrip()`. */
  function RStrip(s: string): (r: string)
    ensures |r| <= |s|
    decreases |s|
  {
    if |s| > 0 && IsSpace(s[|s| - 1]) then RStrip(s[..|s| - 1]) else s
  }

  /** Python's `s.strip()`. */
  function Strip(s: string): string {
    RStrip(LStrip(s))
  }

  /** `lstrip` removes a leading run of whitespace and nothing else. */
  lemma {:induction false} LStripDrops(s: string)
    ensures |s| - |LStrip(s)| >= 0 && LStrip(s) == s[|s| - |LStrip(s)|..]
    ensures forall i | 0 <= i < |s| - |LStrip(s)| :: IsSpace(s[i])
    decreases |s|
  {
    if |s| > 0 && IsSpace(s[0]) {
      LStripDrops(s[1..]);
      assert forall i | 1 <= i < |s| :: s[i] == s[1..][i - 1];
    }
  }

  /** `rstrip` removes a trailing run of whitespace and nothing else. */
  lemma {:induction false} RStripDrops(s: string)
    ensures RStrip(s) == s[..|RStrip(s)|]
    ensures forall i | |RStrip(s)| <= i < |s| :: IsSpace(s[i])
    decreases |s|
  {
    if |s| > 0 && IsSpace(s[|s| - 1]) {
      RStripDrops(s[..|s| - 1]);
    }
  }

  lemma {:induction false} LStripEmpty(s: string)
    ensures LStrip(s) == "" <==> Blank(s)
    decreases |s|
  {
    if |s| > 0 && IsSpace(s[0]) {
      LStripEmpty(s[1..]);
      assert forall i | 1 <= i < |s| :: s[i] == s[1..][i - 1];
    }
  }

  lemma {:induction false} RStripEmpty(s: string)
    ensures RStrip(s) == "" <==> Blank(s)
    decreases |s|
  {
    if |s| > 0 && IsSpace(s[|s| - 1]) {
      RStripEmpty(s[..|s| - 1]);
    }
  }

  /** `s.strip()` is empty (falsy) exactly when `s` is all whitespace. */
  lemma StripEmpty(s: string)
    ensures Strip(s) == "" <==> Blank(s)
  {
    var t := LStrip(s);
    LStripEmpty(s);
    RStripEmpty(t);
    LStripHeadNotSpace(s);
  }

  /** Right-stripping keeps a string that begins with a non-space character starting with it. */
  lemma {:induction false} RStripKeepsHead(s: string)
    requires |s| > 0 && !IsSpace(s[0])
    ensures |RStrip(s)| > 0 && RStrip(s)[0] == s[0]
    decreases |s|
  {
    if IsSpace(s[|s| - 1]) {
      RStripKeepsHead(s[..|s| - 1]);
    }
  }

  /** `s.strip().startswith(c)` for a non-space `c` asks for the first non-space character. */
  lemma StripStartsWith(s: string, c: char)
    requires !IsSpace(c)
    ensures StartsWith(Strip(s), [c]) <==> (|LStrip(s)| > 0 && LStrip(s)[0] == c)
  {
    var t := LStrip(s);
    if |t| > 0 && !IsSpace(t[0]) {
      RStripKeepsHead(t);
    }
    if |t| > 0 && IsSpace(t[0]) {
      LStripHeadNotSpace(s);
    }
  }

  lemma {:induction false} LStripHeadNotSpace(s: string)
    ensures |LStrip(s)| > 0 ==> !IsSpace(LStrip(s)[0])
    decreases |s|
  {
    if |s| > 0 && IsSpace(s[0]) {
      LStripHeadNotSpace(s[1..]);
    }
  }

  // ------------------------------------------------------------------ letter case

  predicate IsUpper(c: char) { 'A' <= c <= 'Z' }
  predicate IsLower(c: char) { 'a' <= c <= 'z' }
  predicate IsLetter(c: char) { IsUpper(c) || IsLower(c) }

  function LowerChar(c: char): (r: char)
    ensures !IsUpper(r) && IsLetter(r) == IsLetter(c)
    ensures IsLetter(c) ==> LowerChar(UpperChar(c)) == r
  {
    if IsUpper(c) then (c as int + 32) as char else c
  }

  function UpperChar(c: char): (r: char)
    ensures !IsLower(r) && IsLetter(r) == IsLetter(c)
  {
    if IsLower(c) then (c as int - 32) as char else c
  }

  /** Python's `s.lower()` on ASCII letters; other characters are left as they are. */
  function Lower(s: string): (r: string)
    ensures |r| == |s|
    ensures forall i | 0 <= i < |s| :: !IsUpper(r[i])
  {
    seq(|s|, i requires 0 <= i < |s| => LowerChar(s[i]))
  }

  /** Lowering twice is lowering once. */
  lemma LowerIdempotent(s: string)
    ensures Lower(Lower(s)) == Lower(s)
  {
  }

  /** A string with no upper-case letter is its own lower-case form. */
  lemma LowerNoUpper(s: string)
    requires forall i | 0 <= i < |s| :: !IsUpper(s[i])
    ensures Lower(s) == s
  {
  }

  /**
   * Python's `str.title()` on ASCII: a letter is upper-cased when the character
   * before it is not a letter, and lower-cased when it is.
   */
  function TitleFrom(s: string, afterLetter: bool): (r: string)
    ensures |r| == |s|
    decreases |s|
  {
    if s == [] then []
    else
      var c := s[0];
      var c' := if !IsLetter(c) then c else if afterLetter then LowerChar(c) else UpperChar(c);
      [c'] + TitleFrom(s[1..], IsLetter(c))
  }

  function Title(s: string): string {
    TitleFrom(s, false)
  }

  /** Title-casing changes letters only in case: non-letters stay, letters lower back to the same letter. */
  lemma {:induction false} TitleKeepsLetters(s: string, afterLetter: bool)
    ensures forall i | 0 <= i < |s| :: IsLetter(TitleFrom(s, afterLetter)[i]) == IsLetter(s[i])
    ensures forall i | 0 <= i < |s| :: !IsLetter(s[i]) ==> TitleFrom(s, afterLetter)[i] == s[i]
    ensures forall i | 0 <= i < |s| :: LowerChar(TitleFrom(s, afterLetter)[i]) == LowerChar(s[i])
    decreases |s|
  {
    if s != [] {
      TitleKeepsLetters(s[1..], IsLetter(s[0]));
      var t := TitleFrom(s, afterLetter);
      assert forall i | 1 <= i < |s| :: t[i] == TitleFrom(s[1..], IsLetter(s[0]))[i - 1] && s[i] == s[1..][i - 1];
    }
  }

  // ------------------------------------------------------------------ ordering

  /** Python's `a < b` on strings: lexicographic by code point. */
  predicate Less(a: string, b: string)
    decreases |a|
  {
    if |a| == 0 then |b| > 0
    else if |b| == 0 then false
    else if a[0] != b[0] then a[0] < b[0]
    else Less(a[1..], b[1..])
  }

  lemma {:induction false} LessIrreflexive(a: string)
    ensures !Less(a, a)
    decreases |a|
  {
    if |a| > 0 {
      LessIrreflexive(a[1..]);
    }
  }

  lemma {:induction false} LessTransitive(a: string, b: string, c: string)
    requires Less(a, b) && Less(b, c)
    ensures Less(a, c)
    decreases |a|
  {
    if |a| > 0 && a[0] == b[0] && b[0] == c[0] {
      LessTransitive(a[1..], b[1..], c[1..]);
    }
  }

  lemma {:induction false} LessTotal(a: string, b: string)
    requires a != b
    ensures Less(a, b) || Less(b, a)
    decreases |a|
  {
    if |a| > 0 && |b| > 0 && a[0] == b[0] {
      assert a == [a[0]] + a[1..] && b == [b[0]] + b[1..];
      LessTotal(a[1..], b[1..]);
    }
  }

  lemma LessAsymmetric(a: string, b: string)
    requires Less(a, b)
    ensures !Less(b, a)
  {
    if Less(b, a) {
      LessTransitive(a, b, a);
      LessIrreflexive(a);
    }
  }

  /** Each element is smaller than every later one; in particular there are no duplicates. */
  predicate StrictlySorted(s: seq<string>) {
    forall i, j | 0 <= i < j < |s| :: Less(s[i], s[j])
  }

  /** Inserts `x` into a strictly sorted list, unless it is already there. */
  function InsertSorted(s: seq<string>, x: string): (r: seq<string>)
    requires StrictlySorted(s)
    ensures StrictlySorted(r)
    ensures forall y :: y in r <==> y in s || y == x
    decreases |s|
  {
    if s == [] then [x]
    else if x == s[0] then s
    else if Less(x, s[0]) then
      assert forall j | 0 < j < |s| :: Less(x, s[j]) by {
        forall j | 0 < j < |s| ensures Less(x, s[j]) { LessTransitive(x, s[0], s[j]); }
      }
      [x] + s
    else
      var tail := InsertSorted(s[1..], x);
      assert Less(s[0], x) by { LessTotal(x, s[0]); }
      assert forall y | y in tail :: Less(s[0], y);
      [s[0]] + tail
  }

  /** Python's `sorted(list(names))` for a set of strings. */
  method SortedList(names: set<string>) returns (r: seq<string>)
    ensures StrictlySorted(r)
    ensures forall x :: x in r <==> x in names
  {
    r := [];
    var left := names;
    while left != {}
      invariant left <= names
      invariant StrictlySorted(r)
      invariant forall x :: x in r <==> x in names && x !in left
      decreases |left|
    {
      var x :| x in left;
      r := InsertSorted(r, x);
      left := left - {x};
    }
  }

  lemma SameElementsEmpty(a: seq<string>, b: seq<string>)
    requires forall x :: x in a <==> x in b
    ensures a == [] <==> b == []
  {
    if a != [] {
      assert a[0] in a;
    }
    if b != [] {
      assert b[0] in b;
    }
  }

  /** A strictly sorted list is determined by its elements, so `sorted` has one answer. */
  lemma {:induction false} SortedUnique(a: seq<string>, b: seq<string>)
    requires StrictlySorted(a) && StrictlySorted(b)
    requires forall x :: x in a <==> x in b
    ensures a == b
    decreases |a|
  {
    SameElementsEmpty(a, b);
    if a != [] {
      assert a[0] in b && b[0] in a;
      var i :| 0 <= i < |b| && b[i] == a[0];
      var j :| 0 <= j < |a| && a[j] == b[0];
      if i > 0 && j > 0 {
        LessAsymmetric(b[0], a[0]);
      }
      assert a[0] == b[0];
      LessIrreflexive(a[0]);
      forall x | x in a[1..] ensures x in b[1..] {
        var k :| 1 <= k < |a| && a[k] == x;
        assert x in b;
        var m :| 0 <= m < |b| && b[m] == x;
        assert b[1..][m - 1] == x;
      }
      forall x | x in b[1..] ensures x in a[1..] {
        var k :| 1 <= k < |b| && b[k] == x;
        assert x in a;
        var m :| 0 <= m < |a| && a[m] == x;
        assert a[1..][m - 1] == x;
      }
      SortedUnique(a[1..], b[1..]);
      assert a == [a[0]] + a[1..] && b == [b[0]] + b[1..];
    }
  }
}
