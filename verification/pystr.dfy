/** The three Python `str` operations the deployment script relies on:
    `split` with a one-character separator, `strip()` without arguments and
    `replace(old, new)`, over strings as sequences of Unicode scalar values. */
module PyStr {

  /** `c.isspace()` in CPython: the ASCII whitespace characters (including the
      four information separators 0x1C..0x1F) and the Unicode space separators,
      line and paragraph separators. */
  predicate IsSpace(c: char) {
    || c == ' '
    || ('\t' <= c <= '\r')
    || ('\U{1C}' <= c <= '\U{1F}')
    || c == '\U{85}' || c == '\U{A0}' || c == '\U{1680}'
    || ('\U{2000}' <= c <= '\U{200A}')
    || c == '\U{2028}' || c == '\U{2029}' || c == '\U{202F}'
    || c == '\U{205F}' || c == '\U{3000}'
  }

  predicate AllSpace(s: string) {
    forall k :: 0 <= k < |s| ==> IsSpace(s[k])
  }

  /* ---------------------------------------------------------------------
     str.split(sep) for a one-character separator
     --------------------------------------------------------------------- */

  /** Index of the first `c` in `s`. */
  function IndexOf(s: string, c: char): (i: nat)
    requires c in s
    ensures i < |s| && s[i] == c
    ensures c !in s[..i]
  {
    if s[0] == c then 0 else 1 + IndexOf(s[1..], c)
  }

  /** `s.split(sep)`: the pieces between consecutive separators. There is a
      single piece exactly when `s` has no separator, and no piece holds the
      separator. */
  function Split(s: string, sep: char): (parts: seq<string>)
    ensures |parts| >= 1
    ensures |parts| == 1 <==> sep !in s
    ensures forall i :: 0 <= i < |parts| ==> sep !in parts[i]
    decreases |s|
  {
    if sep !in s then
      [s]
    else
      var i := IndexOf(s, sep);
      [s[..i]] + Split(s[i + 1..], sep)
  }

  /** A split gives one more piece than there are separators. */
  lemma {:induction false} SplitCount(s: string, sep: char)
    ensures |Split(s, sep)| == multiset(s)[sep] + 1
    decreases |s|
  {
    if sep !in s {
      assert multiset(s)[sep] == 0;
    } else {
      var i := IndexOf(s, sep);
      SplitCount(s[i + 1..], sep);
      assert s == s[..i] + [sep] + s[i + 1..];
      assert multiset(s[..i])[sep] == 0;
    }
  }

  /** A string is the text before index `i`, the character there, and the
      text after it. */
  lemma Around(s: string, i: nat)
    requires i < |s|
    ensures s == s[..i] + [s[i]] + s[i + 1..]
  {
  }

  /** `sep.join([a] + tail)` for a non-empty tail. */
  lemma JoinCons(a: string, tail: seq<string>, sep: string)
    requires |tail| > 0
    ensures Join([a] + tail, sep) == a + sep + Join(tail, sep)
  {
    assert ([a] + tail)[1..] == tail;
  }

  /** `sep.join(parts)`. */
  function Join(parts: seq<string>, sep: string): string {
    if |parts| == 0 then ""
    else if |parts| == 1 then parts[0]
    else parts[0] + sep + Join(parts[1..], sep)
  }

  /** Joining the pieces of a split with the separator gives back the string. */
  lemma {:induction false} JoinSplit(s: string, sep: char)
    ensures Join(Split(s, sep), [sep]) == s
    decreases |s|
  {
    if sep in s {
      var i := IndexOf(s, sep);
      var rest := s[i + 1..];
      var tail := Split(rest, sep);
      assert Split(s, sep) == [s[..i]] + tail;
      JoinSplit(rest, sep);
      JoinCons(s[..i], tail, [sep]);
      Around(s, i);
    }
  }

  /** Splitting a separator-free prefix off: `(a + sep + b).split(sep)` is
      `[a] + b.split(sep)`. */
  lemma SplitCons(a: string, sep: char, b: string)
    requires sep !in a
    ensures Split(a + [sep] + b, sep) == [a] + Split(b, sep)
  {
    var s := a + [sep] + b;
    assert s[|a|] == sep;
    assert s[..|a|] == a;
    var i := IndexOf(s, sep);
    assert i == |a| by {
      assert s[i] !in s[..|a|] || i >= |a|;
      assert sep !in s[..i];
    }
    assert s[i + 1..] == b;
    assert s[..i] == a;
  }

  /** The inverse direction of `JoinSplit`: a non-empty list of separator-free
      pieces is recovered by splitting its join. */
  lemma {:induction false} SplitJoin(parts: seq<string>, sep: char)
    requires |parts| >= 1
    requires forall i :: 0 <= i < |parts| ==> sep !in parts[i]
    ensures Split(Join(parts, [sep]), sep) == parts
    decreases |parts|
  {
    if |parts| == 1 {
      assert Join(parts, [sep]) == parts[0];
    } else {
      var tail := Join(parts[1..], [sep]);
      assert Join(parts, [sep]) == parts[0] + [sep] + tail;
      SplitCons(parts[0], sep, tail);
      SplitJoin(parts[1..], sep);
      assert parts == [parts[0]] + parts[1..];
    }
  }

  /** The first `|parts[0]|` characters of a join are the first part. */
  lemma JoinStarts(parts: seq<string>, sep: string)
    requires |parts| > 0
    ensures parts[0] <= Join(parts, sep)
  {
  }

  /** The last characters of a join are the last part. */
  lemma {:induction false} JoinEnds(parts: seq<string>, sep: string)
    requires |parts| > 0
    ensures var j, last := Join(parts, sep), parts[|parts| - 1];
      |last| <= |j| && j[|j| - |last|..] == last
    decreases |parts|
  {
    if |parts| > 1 {
      JoinEnds(parts[1..], sep);
    }
  }

  /** A character in neither the separator nor any part is not in the join. */
  lemma {:induction false} JoinAvoids(parts: seq<string>, sep: string, c: char)
    requires c !in sep
    requires forall i :: 0 <= i < |parts| ==> c !in parts[i]
    ensures c !in Join(parts, sep)
    decreases |parts|
  {
    if |parts| > 1 {
      JoinAvoids(parts[1..], sep, c);
    }
  }

  /* ---------------------------------------------------------------------
     str.strip()
     --------------------------------------------------------------------- */

  /** `r` is `s` with the whitespace runs `s[..a]` and `s[a + |r|..]` removed. */
  predicate Padded(s: string, r: string, a: nat) {
    && a + |r| <= |s|
    && s[a..a + |r|] == r
    && (forall k :: 0 <= k < a ==> IsSpace(s[k]))
    && (forall k :: a + |r| <= k < |s| ==> IsSpace(s[k]))
  }

  /** CPython's left scan: the first index at or after `i` that does not hold
      whitespace, or `|s|`. */
  function SkipSpace(s: string, i: nat): (a: nat)
    requires i <= |s|
    ensures i <= a <= |s|
    ensures forall k :: i <= k < a ==> IsSpace(s[k])
    ensures a < |s| ==> !IsSpace(s[a])
    decreases |s| - i
  {
    if i < |s| && IsSpace(s[i]) then SkipSpace(s, i + 1) else i
  }

  /** CPython's right scan: moving `b` down while `b > a` and `s[b - 1]` is
      whitespace. */
  function TrimEnd(s: string, a: nat, b: nat): (e: nat)
    requires a <= b <= |s|
    ensures a <= e <= b
    ensures forall k :: e <= k < b ==> IsSpace(s[k])
    ensures e > a ==> !IsSpace(s[e - 1])
    decreases b
  {
    if b > a && IsSpace(s[b - 1]) then TrimEnd(s, a, b - 1) else b
  }

  /** `s.strip()`: the largest slice of `s` that neither starts nor ends with
      whitespace, once only whitespace has been cut from both ends. */
  function Strip(s: string): (r: string)
    ensures exists a :: Padded(s, r, a)
    ensures |r| > 0 ==> !IsSpace(r[0]) && !IsSpace(r[|r| - 1])
    ensures forall c :: c in r ==> c in s
  {
    var a := SkipSpace(s, 0);
    var b := TrimEnd(s, a, |s|);
    SliceChars(s, a, b);
    assert Padded(s, s[a..b], a);
    s[a..b]
  }

  /** A slice holds only characters of the whole. */
  lemma SliceChars(s: string, a: nat, b: nat)
    requires a <= b <= |s|
    ensures forall c :: c in s[a..b] ==> c in s
  {
    forall c | c in s[a..b] ensures c in s {
      var k :| a <= k < b && s[k] == c;
    }
  }

  /** Any way of writing `s` as whitespace, a core that neither starts nor ends
      with whitespace, and whitespace, has that core as `s.strip()`. */
  lemma StripUnique(w1: string, x: string, w2: string)
    requires AllSpace(w1) && AllSpace(w2)
    requires |x| > 0 ==> !IsSpace(x[0]) && !IsSpace(x[|x| - 1])
    ensures Strip(w1 + x + w2) == x
  {
    var s := w1 + x + w2;
    var a := SkipSpace(s, 0);
    var b := TrimEnd(s, a, |s|);
    if |x| == 0 {
      assert forall k :: 0 <= k < |s| ==> IsSpace(s[k]) by {
        forall k | 0 <= k < |s| ensures IsSpace(s[k]) {
          if k < |w1| {
            assert s[k] == w1[k];
          } else {
            assert s[k] == w2[k - |w1|];
          }
        }
      }
      assert a == |s|;
    } else {
      forall k | 0 <= k < |w1| ensures IsSpace(s[k]) {
        assert s[k] == w1[k];
      }
      assert s[|w1|] == x[0];
      assert a == |w1|;
      forall k | |w1| + |x| <= k < |s| ensures IsSpace(s[k]) {
        assert s[k] == w2[k - |w1| - |x|];
      }
      assert s[|w1| + |x| - 1] == x[|x| - 1];
      assert b == |w1| + |x|;
      assert s[a..b] == x;
    }
  }

  /** Stripping twice is stripping once. */
  lemma StripIdempotent(s: string)
    ensures Strip(Strip(s)) == Strip(s)
  {
    var r := Strip(s);
    assert AllSpace("");
    StripUnique("", r, "");
    assert "" + r + "" == r;
  }

  /* ---------------------------------------------------------------------
     str.replace(old, new)
     --------------------------------------------------------------------- */

  /** `pat` occurs in `s` starting at index `i`. */
  predicate OccursAt(s: string, pat: string, i: nat) {
    i + |pat| <= |s| && s[i..i + |pat|] == pat
  }

  /** A string starts with `pat` exactly when `pat` occurs at index 0. */
  lemma PrefixOccurs(s: string, pat: string)
    ensures pat <= s <==> OccursAt(s, pat, 0)
  {
    if pat <= s {
      assert s[0..|pat|] == pat;
    }
  }

  /** `pat` occurs nowhere in `s`: `pat not in s` for a non-empty `pat`. */
  ghost predicate Absent(s: string, pat: string) {
    forall j: nat :: !OccursAt(s, pat, j)
  }

  /** `i` is the leftmost index where `pat` occurs, `s.find(pat)`. */
  ghost predicate FirstOccurrence(s: string, pat: string, i: nat) {
    OccursAt(s, pat, i) && forall j: nat :: j < i ==> !OccursAt(s, pat, j)
  }

  /** `new` inserted before every character of `s` and at its end: what
      Python's `s.replace('', new)` produces. */
  function Interleave(s: string, x: string): string {
    if |s| == 0 then x else x + [s[0]] + Interleave(s[1..], x)
  }

  /** CPython's scan for a non-empty `pat`, from index `k` of `s` on: at an
      occurrence the replacement is emitted and the scan resumes after the
      occurrence, otherwise one character is copied. */
  function ReplaceFrom(s: string, pat: string, repl: string, k: nat): string
    requires |pat| > 0 && k <= |s|
    decreases |s| - k
  {
    if k == |s| then ""
    else if OccursAt(s, pat, k) then repl + ReplaceFrom(s, pat, repl, k + |pat|)
    else [s[k]] + ReplaceFrom(s, pat, repl, k + 1)
  }

  /** `s.replace(pat, repl)`: scanning left to right, each occurrence of a
      non-empty `pat` is replaced and scanning resumes after it, so the
      replaced occurrences never overlap and the replacement text is never
      rescanned. A replacement no longer than the pattern, the empty one
      included, never lengthens the string. */
  function Replace(s: string, pat: string, repl: string): (r: string)
    ensures |pat| > 0 && |repl| <= |pat| ==> |r| <= |s|
  {
    if |pat| == 0 then Interleave(s, repl)
    else
      ReplaceFromShrinks(s, pat, repl, 0);
      ReplaceFrom(s, pat, repl, 0)
  }

  /** The scan from `k` depends only on the text from `d <= k` on. */
  lemma {:induction false} ReplaceFromShift(s: string, pat: string, repl: string, d: nat, k: nat)
    requires |pat| > 0 && d <= k <= |s|
    ensures ReplaceFrom(s, pat, repl, k) == ReplaceFrom(s[d..], pat, repl, k - d)
    decreases |s| - k
  {
    if k < |s| {
      if OccursAt(s, pat, k) {
        ReplaceFromShift(s, pat, repl, d, k + |pat|);
        ShiftAtOccurrence(s, pat, repl, d, k);
      } else {
        ReplaceFromShift(s, pat, repl, d, k + 1);
        ShiftAtCopy(s, pat, repl, d, k);
      }
    }
  }

  /** The step of `ReplaceFromShift` at an occurrence. */
  lemma ShiftAtOccurrence(s: string, pat: string, repl: string, d: nat, k: nat)
    requires |pat| > 0 && d <= k && OccursAt(s, pat, k)
    requires ReplaceFrom(s, pat, repl, k + |pat|) == ReplaceFrom(s[d..], pat, repl, k + |pat| - d)
    ensures ReplaceFrom(s, pat, repl, k) == ReplaceFrom(s[d..], pat, repl, k - d)
  {
    var t, j := s[d..], k - d;
    OccursShift(s, pat, d, k);
    ReplaceFromAt(s, pat, repl, k);
    ReplaceFromAt(t, pat, repl, j);
    assert j + |pat| == k + |pat| - d;
  }

  /** The step of `ReplaceFromShift` away from an occurrence. */
  lemma ShiftAtCopy(s: string, pat: string, repl: string, d: nat, k: nat)
    requires |pat| > 0 && d <= k < |s| && !OccursAt(s, pat, k)
    requires ReplaceFrom(s, pat, repl, k + 1) == ReplaceFrom(s[d..], pat, repl, k + 1 - d)
    ensures ReplaceFrom(s, pat, repl, k) == ReplaceFrom(s[d..], pat, repl, k - d)
  {
    var t, j := s[d..], k - d;
    OccursShift(s, pat, d, k);
    ReplaceFromCopy(s, pat, repl, k);
    ReplaceFromCopy(t, pat, repl, j);
    assert j + 1 == k + 1 - d;
  }

  /** Occurrences and characters keep their place relative to a cut at `d`. */
  lemma OccursShift(s: string, pat: string, d: nat, k: nat)
    requires d <= k < |s|
    ensures OccursAt(s, pat, k) <==> OccursAt(s[d..], pat, k - d)
    ensures s[d..][k - d] == s[k]
  {
    if k + |pat| <= |s| {
      assert s[d..][k - d..k - d + |pat|] == s[k..k + |pat|];
    }
  }

  /** The scan from `k` is `replace` on the suffix from `k`. */
  lemma ReplaceSuffix(s: string, pat: string, repl: string, k: nat)
    requires |pat| > 0 && k <= |s|
    ensures ReplaceFrom(s, pat, repl, k) == Replace(s[k..], pat, repl)
  {
    ReplaceFromShift(s, pat, repl, k, k);
  }

  /** The empty string has nothing to replace. */
  lemma ReplaceEmpty(pat: string, repl: string)
    requires |pat| > 0
    ensures Replace("", pat, repl) == ""
  {
  }

  /** At a leading occurrence, the replacement is emitted and scanning
      resumes after the occurrence. */
  lemma ReplaceAt(t: string, pat: string, repl: string)
    requires |pat| > 0 && pat <= t
    ensures Replace(t, pat, repl) == repl + Replace(t[|pat|..], pat, repl)
  {
    PrefixOccurs(t, pat);
    ReplaceSuffix(t, pat, repl, |pat|);
  }

  /** Where `pat` does not start the string, its first character passes
      through and scanning resumes at the next one. */
  lemma ReplaceStep(s: string, pat: string, repl: string)
    requires |pat| > 0 && |s| > 0 && !(pat <= s)
    ensures Replace(s, pat, repl) == [s[0]] + Replace(s[1..], pat, repl)
  {
    PrefixOccurs(s, pat);
    ReplaceSuffix(s, pat, repl, 1);
  }

  /** Every character of the result comes from the input or from the
      replacement text. */
  lemma ReplaceChars(s: string, pat: string, repl: string)
    ensures forall c :: c in Replace(s, pat, repl) ==> c in s || c in repl
  {
    if |pat| == 0 {
      InterleaveChars(s, repl);
    } else {
      ReplaceFromChars(s, pat, repl, 0);
    }
  }

  lemma {:induction false} ReplaceFromChars(s: string, pat: string, repl: string, k: nat)
    requires |pat| > 0 && k <= |s|
    ensures forall c :: c in ReplaceFrom(s, pat, repl, k) ==> c in s || c in repl
    decreases |s| - k
  {
    if k < |s| {
      if OccursAt(s, pat, k) {
        ReplaceFromChars(s, pat, repl, k + |pat|);
      } else {
        ReplaceFromChars(s, pat, repl, k + 1);
      }
    }
  }

  lemma {:induction false} InterleaveChars(s: string, x: string)
    ensures forall c :: c in Interleave(s, x) ==> c in s || c in x
    decreases |s|
  {
    if |s| > 0 {
      InterleaveChars(s[1..], x);
    }
  }

  /** From `k` on, a replacement no longer than the pattern emits at most
      as many characters as it scans. */
  lemma {:induction false} ReplaceFromShrinks(s: string, pat: string, repl: string, k: nat)
    requires |pat| > 0 && k <= |s|
    ensures |repl| <= |pat| ==> |ReplaceFrom(s, pat, repl, k)| <= |s| - k
    decreases |s| - k
  {
    if k < |s| {
      if OccursAt(s, pat, k) {
        ReplaceFromShrinks(s, pat, repl, k + |pat|);
        ReplaceFromAt(s, pat, repl, k);
      } else {
        ReplaceFromShrinks(s, pat, repl, k + 1);
        ReplaceFromCopy(s, pat, repl, k);
      }
    }
  }

  /** Text in which no occurrence starts is copied by the scan. */
  lemma {:induction false} ReplaceFromSkips(s: string, pat: string, repl: string, k: nat, i: nat)
    requires |pat| > 0 && k <= i <= |s|
    requires forall j: nat :: k <= j < i ==> !OccursAt(s, pat, j)
    ensures ReplaceFrom(s, pat, repl, k) == s[k..i] + ReplaceFrom(s, pat, repl, i)
    decreases i - k
  {
    if k < i {
      ReplaceFromSkips(s, pat, repl, k + 1, i);
      ConsSlice(s, k, i, ReplaceFrom(s, pat, repl, i));
    } else {
      assert s[k..i] == [];
    }
  }

  /** Splitting the first character off a slice. */
  lemma ConsSlice(s: string, k: nat, i: nat, rest: string)
    requires k < i <= |s|
    ensures s[k..i] + rest == [s[k]] + (s[k + 1..i] + rest)
  {
    assert s[k..i] == [s[k]] + s[k + 1..i];
  }

  /** A string in which `pat` does not occur is left unchanged. */
  lemma ReplaceNoMatch(s: string, pat: string, repl: string)
    requires |pat| > 0
    requires Absent(s, pat)
    ensures Replace(s, pat, repl) == s
  {
    ReplaceFromSkips(s, pat, repl, 0, |s|);
    assert s[0..|s|] == s;
  }

  /** The text before the first occurrence passes through unchanged. */
  lemma ReplaceSkips(s: string, pat: string, repl: string, i: nat)
    requires |pat| > 0
    requires i <= |s|
    requires forall j: nat :: j < i ==> !OccursAt(s, pat, j)
    ensures Replace(s, pat, repl) == s[..i] + Replace(s[i..], pat, repl)
  {
    ReplaceFromSkips(s, pat, repl, 0, i);
    ReplaceSuffix(s, pat, repl, i);
    assert s[0..i] == s[..i];
  }

  /** `replace` as CPython computes it with `find`: the text before the
      leftmost occurrence, the replacement, then the replacement applied to
      what follows the occurrence. */
  lemma ReplaceAtFirst(s: string, pat: string, repl: string, i: nat)
    requires |pat| > 0
    requires FirstOccurrence(s, pat, i)
    ensures Replace(s, pat, repl) == s[..i] + repl + Replace(s[i + |pat|..], pat, repl)
  {
    ReplaceSkips(s, pat, repl, i);
    ReplaceAtIndex(s, pat, repl, i);
    var rest := Replace(s[i + |pat|..], pat, repl);
    assert s[..i] + (repl + rest) == s[..i] + repl + rest;
  }

  /** The suffix starting at an occurrence is the replacement followed by
      the replaced remainder. */
  lemma ReplaceAtIndex(s: string, pat: string, repl: string, i: nat)
    requires |pat| > 0 && OccursAt(s, pat, i)
    ensures Replace(s[i..], pat, repl) == repl + Replace(s[i + |pat|..], pat, repl)
  {
    ReplaceSuffix(s, pat, repl, i);
    ReplaceFromAt(s, pat, repl, i);
    ReplaceSuffix(s, pat, repl, i + |pat|);
  }

  /** At an occurrence the scan emits the replacement and jumps past it. */
  lemma ReplaceFromAt(s: string, pat: string, repl: string, k: nat)
    requires |pat| > 0 && OccursAt(s, pat, k)
    ensures ReplaceFrom(s, pat, repl, k) == repl + ReplaceFrom(s, pat, repl, k + |pat|)
  {
  }

  /** Away from an occurrence the scan copies one character. */
  lemma ReplaceFromCopy(s: string, pat: string, repl: string, k: nat)
    requires |pat| > 0 && k < |s| && !OccursAt(s, pat, k)
    ensures ReplaceFrom(s, pat, repl, k) == [s[k]] + ReplaceFrom(s, pat, repl, k + 1)
  {
  }
}
