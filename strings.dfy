/** The handful of Kotlin `String` operations the three components are built
    from, written out over `seq<char>`: `trim()`, `replace(old, new)`,
    `split("=")`, `lowercase()` and `contains`. */
module Strings {

  /** Kotlin's `Char.isWhitespace()`: Java's `Character.isWhitespace` or
      `Character.isSpaceChar`, written out as code points. */
  predicate IsWhitespace(c: char) {
    || ('\U{0009}' <= c <= '\U{000D}')
    || ('\U{001C}' <= c <= '\U{0020}')
    || c == '\U{00A0}' || c == '\U{1680}'
    || ('\U{2000}' <= c <= '\U{200A}')
    || c == '\U{2028}' || c == '\U{2029}' || c == '\U{202F}' || c == '\U{205F}' || c == '\U{3000}'
  }

  predicate IsAsciiDigit(c: char) { '0' <= c <= '9' }

  predicate IsAsciiLetter(c: char) { 'a' <= c <= 'z' || 'A' <= c <= 'Z' }

  /** `\w` in a Java pattern: `[a-zA-Z_0-9]`. */
  predicate IsWordChar(c: char) { IsAsciiLetter(c) || IsAsciiDigit(c) || c == '_' }

  /** `\s` in a Java pattern: `[ \t\n\x0B\f\r]`. */
  predicate IsPatternSpace(c: char)
  {
    c == ' ' || c == '\t' || c == '\n' || c == '\U{000B}' || c == '\U{000C}' || c == '\r'
  }

  /** The first index at or after `from` holding `c`, or `|s|` when there is none. */
  function NextIndex(s: string, c: char, from: nat): (k: nat)
    requires from <= |s|
    ensures from <= k <= |s|
    ensures k < |s| ==> s[k] == c
    ensures forall j :: from <= j < k ==> s[j] != c
    decreases |s| - from
  {
    if from == |s| then |s| else if s[from] == c then from else NextIndex(s, c, from + 1)
  }

  // ---------------------------------------------------------------- trim

  /** Drops leading whitespace. */
  function TrimStart(s: string): (r: string)
    ensures |r| <= |s| && r == s[|s| - |r|..]
    ensures r == [] || !IsWhitespace(r[0])
    ensures forall k :: 0 <= k < |s| - |r| ==> IsWhitespace(s[k])
  {
    if s == [] || !IsWhitespace(s[0]) then s else TrimStart(s[1..])
  }

  /** Drops trailing whitespace. */
  function TrimEnd(s: string): (r: string)
    ensures |r| <= |s| && r == s[..|r|]
    ensures r == [] || !IsWhitespace(r[|r| - 1])
    ensures forall k :: |r| <= k < |s| ==> IsWhitespace(s[k])
  {
    if s == [] || !IsWhitespace(s[|s| - 1]) then s else TrimEnd(s[..|s| - 1])
  }

  /** Kotlin's `String.trim()`: the longest infix of `s` that neither starts
      nor ends with whitespace, everything cut off being whitespace. */
  function Trim(s: string): (r: string)
    ensures |r| <= |s|
    ensures r == [] || (!IsWhitespace(r[0]) && !IsWhitespace(r[|r| - 1]))
    ensures exists i :: 0 <= i <= |s| - |r| && IsTrimCut(s, r, i)
  {
    var t := TrimStart(s);
    var r := TrimEnd(t);
    assert IsTrimCut(s, r, |s| - |t|);
    r
  }

  /** Neither end of `s` is whitespace. */
  predicate Trimmed(s: string)
  {
    s == [] || (!IsWhitespace(s[0]) && !IsWhitespace(s[|s| - 1]))
  }

  /** `r` sits in `s` at offset `i` and everything around it is whitespace. */
  ghost predicate IsTrimCut(s: string, r: string, i: int)
  {
    && 0 <= i <= |s| - |r|
    && r == s[i..i + |r|]
    && (forall k :: 0 <= k < i ==> IsWhitespace(s[k]))
    && (forall k :: i + |r| <= k < |s| ==> IsWhitespace(s[k]))
  }

  lemma TrimNoOp(s: string)
    requires Trimmed(s)
    ensures Trim(s) == s
  {
  }

  lemma TrimKeepsAbsent(s: string, c: char)
    requires c !in s
    ensures c !in Trim(s)
  {
    var i :| 0 <= i <= |s| - |Trim(s)| && IsTrimCut(s, Trim(s), i);
  }

  /** Trimming never removes a character that is not whitespace. */
  lemma TrimKeepsCount(s: string, c: char)
    requires !IsWhitespace(c)
    ensures Count(Trim(s), c) == Count(s, c)
  {
    var r := Trim(s);
    var i :| 0 <= i <= |s| - |r| && IsTrimCut(s, r, i);
    var a, b := s[..i], s[i + |r|..];
    SliceAround(s, i, i + |r|);
    forall k | 0 <= k < |a| ensures a[k] != c {
      assert IsWhitespace(s[k]);
    }
    forall k | 0 <= k < |b| ensures b[k] != c {
      assert IsWhitespace(s[i + |r| + k]);
    }
    CountAbsent(a, c);
    CountAbsent(b, c);
    CountAround(a, r, b, c);
  }

  // --------------------------------------------------------------- count

  /** Occurrences of `c` in `s`. */
  function Count(s: string, c: char): (n: nat)
    ensures n <= |s|
    ensures n == 0 <==> c !in s
  {
    if s == [] then 0 else (if s[0] == c then 1 else 0) + Count(s[1..], c)
  }

  lemma CountAppend(a: string, b: string, c: char)
    ensures Count(a + b, c) == Count(a, c) + Count(b, c)
  {
    if a == [] {
      assert a + b == b;
    } else {
      assert (a + b)[1..] == a[1..] + b;
      CountAppend(a[1..], b, c);
    }
  }

  lemma SliceAround(s: string, i: int, j: int)
    requires 0 <= i <= j <= |s|
    ensures s == s[..i] + s[i..j] + s[j..]
  {
    assert s[..j] == s[..i] + s[i..j];
  }

  lemma CountAround(a: string, r: string, b: string, c: char)
    requires Count(a, c) == 0 && Count(b, c) == 0
    ensures Count(a + r + b, c) == Count(r, c)
  {
    CountAppend(a, r, c);
    CountAppend(a + r, b, c);
  }

  lemma CountAbsent(s: string, c: char)
    requires forall k :: 0 <= k < |s| ==> s[k] != c
    ensures Count(s, c) == 0
  {
  }

  // ------------------------------------------------------------- replace

  /** `pat` occurs in `s` at index `i`. */
  predicate OccursAt(pat: string, s: string, i: nat)
  {
    i + |pat| <= |s| && s[i..i + |pat|] == pat
  }

  predicate Occurs(pat: string, s: string)
  {
    exists i :: 0 <= i <= |s| && OccursAt(pat, s, i)
  }

  /** Kotlin's `String.replace(oldValue, newValue)`: every occurrence of
      `pat`, found left to right without overlap, becomes `rep`. */
  function ReplaceAll(s: string, pat: string, rep: string): string
    requires |pat| > 0
    decreases |s|
  {
    if |s| < |pat| then s
    else if s[..|pat|] == pat then rep + ReplaceAll(s[|pat|..], pat, rep)
    else [s[0]] + ReplaceAll(s[1..], pat, rep)
  }

  /** A pattern that does not occur leaves the text alone. */
  lemma {:induction false} ReplaceAllNoOccurrence(s: string, pat: string, rep: string)
    requires |pat| > 0 && !Occurs(pat, s)
    ensures ReplaceAll(s, pat, rep) == s
    decreases |s|
  {
    if |s| >= |pat| {
      assert !OccursAt(pat, s, 0);
      forall i | 0 <= i <= |s[1..]| && OccursAt(pat, s[1..], i)
        ensures false
      {
        assert s[1..][i..i + |pat|] == s[i + 1..i + 1 + |pat|];
        assert OccursAt(pat, s, i + 1);
      }
      ReplaceAllNoOccurrence(s[1..], pat, rep);
    }
  }

  lemma OccursChar(c: char, s: string)
    ensures Occurs([c], s) <==> c in s
  {
    if c in s {
      var i :| 0 <= i < |s| && s[i] == c;
      assert OccursAt([c], s, i);
    }
    if Occurs([c], s) {
      var i :| 0 <= i <= |s| && OccursAt([c], s, i);
      assert s[i] == s[i..i + 1][0] == c;
    }
  }

  /** Some character of `s` falls outside the alphabet `member`. */
  predicate Outside(s: string, member: char -> bool)
    decreases |s|
  {
    |s| > 0 && (!member(s[0]) || Outside(s[1..], member))
  }

  lemma {:induction false} OutsideWitness(s: string, member: char -> bool)
    requires Outside(s, member)
    ensures exists k :: 0 <= k < |s| && !member(s[k])
    decreases |s|
  {
    if member(s[0]) {
      OutsideWitness(s[1..], member);
      var k :| 0 <= k < |s[1..]| && !member(s[1..][k]);
      assert s[k + 1] == s[1..][k];
    }
  }

  /** A pattern with a character the text never uses does not occur in it. */
  lemma OutsideNotOccurs(pat: string, s: string, member: char -> bool)
    requires Outside(pat, member)
    requires forall k :: 0 <= k < |s| ==> member(s[k])
    ensures !Occurs(pat, s)
  {
    OutsideWitness(pat, member);
    var k :| 0 <= k < |pat| && !member(pat[k]);
    forall i | 0 <= i <= |s|
      ensures !OccursAt(pat, s, i)
    {
      if i + |pat| <= |s| {
        assert s[i..i + |pat|][k] == s[i + k] && member(s[i + k]);
      }
    }
  }

  /** Every character of the output comes from the input or the replacement. */
  lemma {:induction false} ReplaceAllChars(s: string, pat: string, rep: string, c: char)
    requires |pat| > 0 && c in ReplaceAll(s, pat, rep)
    ensures c in s || c in rep
    decreases |s|
  {
    if |s| >= |pat| {
      if s[..|pat|] == pat {
        if c !in rep {
          ReplaceAllChars(s[|pat|..], pat, rep, c);
        }
      } else if c != s[0] {
        ReplaceAllChars(s[1..], pat, rep, c);
      }
    }
  }

  /** A character absent from both the input and the replacement stays absent. */
  lemma ReplaceAllKeepsAbsent(s: string, pat: string, rep: string, c: char)
    requires |pat| > 0 && c !in s && c !in rep
    ensures c !in ReplaceAll(s, pat, rep)
  {
    if c in ReplaceAll(s, pat, rep) {
      ReplaceAllChars(s, pat, rep, c);
    }
  }

  /** Replacing a single character by text without it removes it entirely. */
  lemma {:induction false} ReplaceAllErases(s: string, c: char, rep: string)
    requires c !in rep
    ensures c !in ReplaceAll(s, [c], rep)
    decreases |s|
  {
    if s != [] {
      ReplaceAllErases(s[1..], c, rep);
    }
  }

  /** A single-character replacement works character by character, so it
      distributes over concatenation. */
  lemma {:induction false} ReplaceCharAppend(a: string, b: string, c: char, rep: string)
    ensures ReplaceAll(a + b, [c], rep) == ReplaceAll(a, [c], rep) + ReplaceAll(b, [c], rep)
    decreases |a|
  {
    if a == [] {
      assert a + b == b;
    } else {
      assert (a + b)[1..] == a[1..] + b;
      assert (a + b)[..1] == a[..1];
      ReplaceCharAppend(a[1..], b, c, rep);
    }
  }

  /** The single-character replacement of `s` extended by one character. */
  lemma ReplaceCharSnoc(s: string, d: char, c: char, rep: string)
    ensures ReplaceAll(s + [d], [c], rep) == ReplaceAll(s, [c], rep) + (if d == c then rep else [d])
  {
    ReplaceCharAppend(s, [d], c, rep);
  }

  // -------------------------------------------------------- guarded chars

  /** Every occurrence of `c` in `s` is immediately preceded by `g`. */
  ghost predicate Guarded(s: string, c: char, g: string)
  {
    forall i :: 0 <= i < |s| && s[i] == c ==> |g| <= i && s[i - |g|..i] == g
  }

  /** Replacing `c` by `g + [c]` leaves every `c` preceded by `g`. */
  lemma {:induction false} ReplaceGuards(s: string, c: char, g: string)
    requires c !in g
    ensures Guarded(ReplaceAll(s, [c], g + [c]), c, g)
    decreases |s|
  {
    if s != [] {
      var p, d := s[..|s| - 1], s[|s| - 1];
      assert s == p + [d];
      ReplaceGuards(p, c, g);
      ReplaceCharSnoc(p, d, c, g + [c]);
      var x := ReplaceAll(p, [c], g + [c]);
      var r := ReplaceAll(s, [c], g + [c]);
      forall i | 0 <= i < |r| && r[i] == c
        ensures |g| <= i && r[i - |g|..i] == g
      {
        if i < |x| {
          assert r[i - |g|..i] == x[i - |g|..i];
        } else {
          assert d == c && i == |x| + |g|;
          assert r[i - |g|..i] == g;
        }
      }
    }
  }

  /** Replacing some other character `d` by text free of `c` keeps every `c`
      preceded by `g`, provided `g` itself does not contain `d`. */
  lemma {:induction false} ReplaceKeepsGuard(s: string, c: char, g: string, d: char, rep: string)
    requires Guarded(s, c, g) && d != c && d !in g && c !in rep
    ensures Guarded(ReplaceAll(s, [d], rep), c, g)
    decreases |s|
  {
    if s != [] {
      var p, e := s[..|s| - 1], s[|s| - 1];
      assert s == p + [e];
      assert Guarded(p, c, g) by {
        forall i | 0 <= i < |p| && p[i] == c ensures |g| <= i && p[i - |g|..i] == g {
          assert s[i] == c;
        }
      }
      ReplaceKeepsGuard(p, c, g, d, rep);
      ReplaceCharSnoc(p, e, d, rep);
      var x := ReplaceAll(p, [d], rep);
      var r := ReplaceAll(s, [d], rep);
      forall i | 0 <= i < |r| && r[i] == c
        ensures |g| <= i && r[i - |g|..i] == g
      {
        if i < |x| {
          assert r[i - |g|..i] == x[i - |g|..i];
        } else {
          assert e != d && e == c && i == |x|;
          var n := |s| - 1;
          assert s[n] == c;
          var q := p[..n - |g|];
          assert p == q + g;
          ReplaceCharAppend(q, g, d, rep);
          ReplaceAllNoOccurrence(g, [d], rep) by { OccursChar(d, g); }
          assert x == ReplaceAll(q, [d], rep) + g;
          assert r[i - |g|..i] == g;
        }
      }
    }
  }

  // ---------------------------------------------------------------- split

  /** Kotlin's `split(sep)` for a one-character separator: the pieces
      between separators, always one more than there are separators. */
  function Split(s: string, sep: char): (parts: seq<string>)
    ensures |parts| == Count(s, sep) + 1
    ensures forall k :: 0 <= k < |parts| ==> sep !in parts[k]
  {
    if s == [] then [""]
    else
      var rest := Split(s[1..], sep);
      if s[0] == sep then [""] + rest
      else [[s[0]] + rest[0]] + rest[1..]
  }

  /** The pieces joined back with the separator. */
  function Join(parts: seq<string>, sep: char): string
    requires |parts| > 0
  {
    if |parts| == 1 then parts[0] else parts[0] + [sep] + Join(parts[1..], sep)
  }

  /** Splitting loses nothing: joining the pieces gives the text back. */
  lemma {:induction false} SplitJoin(s: string, sep: char)
    ensures Join(Split(s, sep), sep) == s
  {
    if s != [] {
      SplitJoin(s[1..], sep);
      var rest := Split(s[1..], sep);
      if s[0] != sep {
        if |rest| == 1 {
          assert Join(Split(s, sep), sep) == [s[0]] + rest[0];
        } else {
          assert Split(s, sep)[1..] == rest[1..];
          assert Join(Split(s, sep), sep) == [s[0]] + rest[0] + [sep] + Join(rest[1..], sep);
        }
      }
    }
  }

  /** Two pieces: the text is the first piece, the separator, the second. */
  lemma SplitTwo(s: string, sep: char)
    requires |Split(s, sep)| == 2
    ensures var parts := Split(s, sep); var i := |parts[0]|;
      i < |s| && s[i] == sep && s[..i] == parts[0] && s[i + 1..] == parts[1]
  {
    var parts := Split(s, sep);
    SplitJoin(s, sep);
    assert parts[1..] == [parts[1]];
    assert s == parts[0] + [sep] + parts[1];
    ConcatAround(parts[0], sep, parts[1]);
  }

  lemma ConcatAround(a: string, c: char, b: string)
    ensures var s := a + [c] + b; s[..|a|] == a && s[|a|] == c && s[|a| + 1..] == b
  {
  }

  // ------------------------------------------------------------ lowercase

  /** `lowercase()` on one character, for the ASCII range. */
  function LowerChar(c: char): (r: char)
    ensures IsAsciiLetter(c) ==> 'a' <= r <= 'z'
    ensures !('A' <= c <= 'Z') ==> r == c
  {
    if 'A' <= c <= 'Z' then (c as int - 'A' as int + 'a' as int) as char else c
  }

  /** Kotlin's `lowercase()`, restricted to ASCII letters. */
  function Lower(s: string): (r: string)
    ensures |r| == |s|
    ensures forall k :: 0 <= k < |s| ==> r[k] == LowerChar(s[k])
  {
    if s == [] then [] else [LowerChar(s[0])] + Lower(s[1..])
  }
}
