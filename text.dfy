/**
 * ASCII models of the Python `str` built-ins the service relies on:
 * `lower`, `isspace`/`strip`, `split`, `isalnum`, `replace(x, '')`,
 * `count`, `startswith` and `endswith`.  Python's versions are
 * Unicode-aware; here only the ASCII behaviour is modelled.
 */
module Text {

  /** `c.isspace()` for ASCII: tab, line feed, vertical tab, form feed,
      carriage return, the four separators 0x1C-0x1F, and space. */
  predicate IsSpace(c: char) {
    9 <= c as int <= 13 || 28 <= c as int <= 32
  }

  predicate IsUpper(c: char) { 'A' <= c <= 'Z' }

  predicate IsAlnum(c: char) {
    'A' <= c <= 'Z' || 'a' <= c <= 'z' || '0' <= c <= '9'
  }

  /** `s.isalnum()`: true iff `s` is non-empty and every character is alphanumeric. */
  predicate IsAlnumString(s: string) {
    |s| > 0 && forall i :: 0 <= i < |s| ==> IsAlnum(s[i])
  }

  predicate AllSpace(s: string) {
    forall i :: 0 <= i < |s| ==> IsSpace(s[i])
  }

  function LowerChar(c: char): (r: char)
    ensures !IsUpper(r)
    ensures IsUpper(c) ==> r as int == c as int + 32
    ensures !IsUpper(c) ==> r == c
  {
    if IsUpper(c) then (c as int + 32) as char else c
  }

  /** `s.lower()`: the string lower-cased character by character. */
  function Lower(s: string): (r: string)
    ensures |r| == |s|
    ensures forall i :: 0 <= i < |s| ==> r[i] == LowerChar(s[i])
  {
    if s == [] then [] else [LowerChar(s[0])] + Lower(s[1..])
  }

  /** A string with no upper-case ASCII letter. */
  predicate NoUpper(s: string) {
    forall i :: 0 <= i < |s| ==> !IsUpper(s[i])
  }

  /** Two strings that differ at most in the case of their letters. */
  predicate SameUpToCase(a: string, b: string) {
    |a| == |b| && forall i :: 0 <= i < |a| ==> LowerChar(a[i]) == LowerChar(b[i])
  }

  /** Lower-casing is idempotent. */
  lemma {:induction false} LowerIdempotent(s: string)
    ensures Lower(Lower(s)) == Lower(s)
  {
  }

  /** The result of lower-casing has no upper-case letter. */
  lemma {:induction false} LowerHasNoUpper(s: string)
    ensures NoUpper(Lower(s))
  {
  }

  /** A string with no upper-case letter is its own lower-cased form. */
  lemma LowerOfNoUpper(s: string)
    requires NoUpper(s)
    ensures Lower(s) == s
  {
  }

  /** Strings that differ only in letter case lower-case to the same string. */
  lemma {:induction false} LowerCaseInsensitive(a: string, b: string)
    requires SameUpToCase(a, b)
    ensures Lower(a) == Lower(b)
  {
  }

  /** Every string is the same up to case as its lower-cased form. */
  lemma {:induction false} SameUpToCaseAsLower(s: string)
    ensures SameUpToCase(s, Lower(s))
  {
  }

  // ---------------------------------------------------------------- strip

  function LStrip(s: string): string {
    if s != [] && IsSpace(s[0]) then LStrip(s[1..]) else s
  }

  function RStrip(s: string): string {
    if s != [] && IsSpace(s[|s| - 1]) then RStrip(s[..|s| - 1]) else s
  }

  /** `s.strip()` with no argument: drop leading and trailing whitespace.
      The result has no whitespace at either end, holds only characters of
      `s`, and is empty exactly when `s` is all whitespace. */
  function Strip(s: string): (r: string)
    ensures IsStripped(r)
    ensures forall c :: c in r ==> c in s
    ensures r == [] <==> AllSpace(s)
  {
    StripFacts(s);
    RStrip(LStrip(s))
  }

  /** A string with no leading or trailing whitespace. */
  predicate IsStripped(s: string) {
    s != [] ==> !IsSpace(s[0]) && !IsSpace(s[|s| - 1])
  }

  lemma {:induction false} LStripSuffix(s: string) returns (i: nat)
    ensures i <= |s| && LStrip(s) == s[i..] && AllSpace(s[..i])
    ensures LStrip(s) != [] ==> !IsSpace(LStrip(s)[0])
  {
    if s != [] && IsSpace(s[0]) {
      var k := LStripSuffix(s[1..]);
      i := k + 1;
      assert s[1..][k..] == s[i..];
      forall m | 0 <= m < i ensures IsSpace(s[m]) {
        if m > 0 { assert s[m] == s[1..][..k][m - 1]; }
      }
    } else {
      i := 0;
    }
  }

  lemma {:induction false} RStripPrefix(s: string) returns (j: nat)
    ensures j <= |s| && RStrip(s) == s[..j] && AllSpace(s[j..])
    ensures RStrip(s) != [] ==> !IsSpace(RStrip(s)[|RStrip(s)| - 1])
  {
    if s != [] && IsSpace(s[|s| - 1]) {
      var t := s[..|s| - 1];
      j := RStripPrefix(t);
      assert t[..j] == s[..j];
      forall m | j <= m < |s| ensures IsSpace(s[m]) {
        if m < |t| { assert s[m] == t[j..][m - j]; }
      }
    } else {
      j := |s|;
    }
  }

  /** `Strip(s)` is the infix `s[i..j]` between a whitespace prefix and a
      whitespace suffix, and has no whitespace at either end. */
  lemma StripInfix(s: string) returns (i: nat, j: nat)
    ensures i <= j <= |s| && RStrip(LStrip(s)) == s[i..j]
    ensures AllSpace(s[..i]) && AllSpace(s[j..])
    ensures IsStripped(RStrip(LStrip(s)))
  {
    i := LStripSuffix(s);
    var u := s[i..];
    var k := RStripPrefix(u);
    j := i + k;
    assert u[..k] == s[i..j];
    assert u[k..] == s[j..];
    if RStrip(u) != [] {
      assert RStrip(u)[0] == LStrip(s)[0];
    }
  }

  lemma StripFacts(s: string)
    ensures IsStripped(RStrip(LStrip(s)))
    ensures forall c :: c in RStrip(LStrip(s)) ==> c in s
    ensures RStrip(LStrip(s)) == [] <==> AllSpace(s)
  {
    var i, j := StripInfix(s);
    var t := RStrip(LStrip(s));
    forall c | c in t ensures c in s {
      var k :| 0 <= k < |s[i..j]| && s[i..j][k] == c;
      assert s[i + k] == c;
    }
    if t == [] {
      forall k | 0 <= k < |s| ensures IsSpace(s[k]) {
        if k < i { assert s[k] == s[..i][k]; } else { assert s[k] == s[j..][k - j]; }
      }
    } else {
      assert !IsSpace(s[i]);
    }
  }

  /** A leading whitespace character does not change the stripped string. */
  lemma StripDropsLeadingSpace(c: char, s: string)
    requires IsSpace(c)
    ensures Strip([c] + s) == Strip(s)
  {
    assert ([c] + s)[1..] == s;
  }

  lemma {:induction false} LStripAppend(s: string, c: char)
    ensures LStrip(s + [c]) == if AllSpace(s) then LStrip([c]) else LStrip(s) + [c]
  {
    if s == [] {
      assert s + [c] == [c];
    } else {
      assert (s + [c])[0] == s[0];
      assert (s + [c])[1..] == s[1..] + [c];
      LStripAppend(s[1..], c);
      if IsSpace(s[0]) {
        assert AllSpace(s) <==> AllSpace(s[1..]) by {
          if AllSpace(s[1..]) {
            forall k | 0 <= k < |s| ensures IsSpace(s[k]) {
              if k > 0 { assert s[k] == s[1..][k - 1]; }
            }
          }
        }
      } else {
        assert !AllSpace(s);
      }
    }
  }

  /** A trailing whitespace character does not change the stripped string. */
  lemma StripDropsTrailingSpace(s: string, c: char)
    requires IsSpace(c)
    ensures Strip(s + [c]) == Strip(s)
  {
    LStripAppend(s, c);
    if AllSpace(s) {
      assert LStrip([c]) == LStrip([c][1..]);
      assert [c][1..] == [];
    } else {
      var t := LStrip(s);
      assert (t + [c])[..|t + [c]| - 1] == t;
    }
  }

  /** Stripping is idempotent. */
  lemma StripIdempotent(s: string)
    ensures Strip(Strip(s)) == Strip(s)
  {
    var _, _ := StripInfix(s);
    var t := Strip(s);
    if t != [] {
      assert LStrip(t) == t;
      assert RStrip(t) == t;
    }
  }

  // ---------------------------------------------------------------- split / join

  /** `s.split(d)`: the pieces between occurrences of `d`; never empty,
      `""` gives `[""]`. */
  function Split(s: string, d: char): (parts: seq<string>)
    ensures |parts| >= 1
  {
    if s == [] then [[]]
    else
      var rest := Split(s[1..], d);
      if s[0] == d then [[]] + rest
      else [[s[0]] + rest[0]] + rest[1..]
  }

  /** `d.join(parts)`, the inverse of `Split`. */
  function Join(parts: seq<string>, d: char): string {
    if |parts| == 0 then []
    else if |parts| == 1 then parts[0]
    else parts[0] + [d] + Join(parts[1..], d)
  }

  /** No piece produced by `Split` contains the separator. */
  lemma {:induction false} SplitPiecesFree(s: string, d: char)
    ensures forall k :: 0 <= k < |Split(s, d)| ==> d !in Split(s, d)[k]
  {
    if s != [] {
      SplitPiecesFree(s[1..], d);
    }
  }

  /** Joining the pieces back with the separator gives the original string. */
  lemma {:induction false} SplitJoin(s: string, d: char)
    ensures Join(Split(s, d), d) == s
  {
    if s != [] {
      var rest := Split(s[1..], d);
      SplitJoin(s[1..], d);
      if s[0] == d {
        assert Split(s, d)[1..] == rest;
      } else {
        var parts := Split(s, d);
        assert parts[1..] == rest[1..];
        if |rest| == 1 {
          assert Join(parts, d) == [s[0]] + rest[0];
        } else {
          assert Join(parts, d) == [s[0]] + rest[0] + [d] + Join(rest[1..], d);
        }
      }
    }
  }

  /** A string that starts with a character other than the separator has a
      first piece that starts with that character. */
  lemma SplitFirstPiece(s: string, d: char)
    requires s != [] && s[0] != d
    ensures Split(s, d)[0] != [] && Split(s, d)[0][0] == s[0]
  {
  }

  /** Appending the separator starts a new, empty last piece. */
  lemma {:induction false} SplitAppendSeparator(s: string, d: char)
    ensures Split(s + [d], d) == Split(s, d) + [[]]
  {
    if s == [] {
      assert s + [d] == [d];
      assert [d][1..] == [];
    } else {
      assert (s + [d])[0] == s[0];
      assert (s + [d])[1..] == s[1..] + [d];
      SplitAppendSeparator(s[1..], d);
      var r := Split(s[1..], d);
      if s[0] != d {
        assert (r + [[]])[0] == r[0];
        assert (r + [[]])[1..] == r[1..] + [[]];
      }
    }
  }

  /** `q` is `p` with `c` appended to its last piece. */
  predicate ExtendsLast(p: seq<string>, q: seq<string>, c: char) {
    && |p| > 0 && |q| == |p|
    && (forall k :: 0 <= k < |p| - 1 ==> q[k] == p[k])
    && q[|p| - 1] == p[|p| - 1] + [c]
  }

  /** The same, as an equation between sequences. */
  lemma ExtendsLastEquation(p: seq<string>, q: seq<string>, c: char)
    requires ExtendsLast(p, q, c)
    ensures p == p[..|p| - 1] + [p[|p| - 1]]
    ensures q == p[..|p| - 1] + [p[|p| - 1] + [c]]
  {
    var init := p[..|p| - 1];
    assert |q| == |init + [p[|p| - 1] + [c]]|;
    forall k | 0 <= k < |q| ensures q[k] == (init + [p[|p| - 1] + [c]])[k] {
    }
  }

  lemma ExtendsLastPrepend(p: seq<string>, q: seq<string>, c: char)
    requires ExtendsLast(p, q, c)
    ensures ExtendsLast([[]] + p, [[]] + q, c)
  {
    var p', q' := [[]] + p, [[]] + q;
    forall k | 0 <= k < |p'| - 1 ensures q'[k] == p'[k] {
      if k > 0 { assert q'[k] == q[k - 1] && p'[k] == p[k - 1]; }
    }
    assert q'[|p'| - 1] == q[|p| - 1] && p'[|p'| - 1] == p[|p| - 1];
  }

  lemma ExtendsLastFirstPiece(x: char, p: seq<string>, q: seq<string>, c: char)
    requires ExtendsLast(p, q, c)
    ensures ExtendsLast([[x] + p[0]] + p[1..], [[x] + q[0]] + q[1..], c)
  {
    var p', q' := [[x] + p[0]] + p[1..], [[x] + q[0]] + q[1..];
    forall k | 0 <= k < |p'| - 1 ensures q'[k] == p'[k] {
      if k > 0 { assert q'[k] == q[k] && p'[k] == p[k]; }
    }
    if |p| == 1 {
      assert q'[0] == [x] + (p[0] + [c]);
    } else {
      assert q'[|p'| - 1] == q[|p| - 1] && p'[|p'| - 1] == p[|p| - 1];
    }
  }

  /** Appending any other character extends the last piece and keeps the others. */
  lemma {:induction false} SplitAppendOther(s: string, c: char, d: char)
    requires c != d
    ensures ExtendsLast(Split(s, d), Split(s + [c], d), c)
  {
    var t := s + [c];
    if s == [] {
      assert t == [c];
      assert t[1..] == [];
    } else {
      assert t[0] == s[0];
      assert t[1..] == s[1..] + [c];
      SplitAppendOther(s[1..], c, d);
      var r, r' := Split(s[1..], d), Split(t[1..], d);
      if s[0] == d {
        ExtendsLastPrepend(r, r', c);
      } else {
        ExtendsLastFirstPiece(s[0], r, r', c);
      }
    }
  }

  // ---------------------------------------------------------------- other helpers

  /** `s.startswith(p)` */
  predicate StartsWith(s: string, p: string) {
    |p| <= |s| && s[..|p|] == p
  }

  /** `s.endswith(p)` */
  predicate EndsWith(s: string, p: string) {
    |p| <= |s| && s[|s| - |p|..] == p
  }

  /** `s.replace(c, '')`: `s` with every occurrence of `c` removed. */
  function RemoveAll(s: string, c: char): (r: string)
    ensures forall x :: x in r <==> x in s && x != c
  {
    if s == [] then []
    else if s[0] == c then RemoveAll(s[1..], c)
    else [s[0]] + RemoveAll(s[1..], c)
  }

  /** `p` occurs in `s` at position `i`. */
  predicate OccursAt(s: string, p: string, i: int) {
    0 <= i && i + |p| <= |s| && s[i..i + |p|] == p
  }

  /** `s.count(p)` for non-empty `p`: non-overlapping occurrences, scanned
      from the left, so the counted occurrences fit in `s` side by side. */
  function Count(s: string, p: string): (n: nat)
    requires |p| > 0
    ensures n * |p| <= |s|
    decreases |s|
  {
    if |s| < |p| then 0
    else if s[..|p|] == p then 1 + Count(s[|p|..], p)
    else Count(s[1..], p)
  }

  /** The count is zero exactly when the pattern occurs nowhere. */
  lemma {:induction false} CountZeroIff(s: string, p: string)
    requires |p| > 0
    ensures Count(s, p) == 0 <==> forall i :: !OccursAt(s, p, i)
    decreases |s|
  {
    if |s| < |p| {
    } else if s[..|p|] == p {
      assert OccursAt(s, p, 0);
    } else {
      CountZeroIff(s[1..], p);
      assert !OccursAt(s, p, 0);
      forall i ensures OccursAt(s, p, i) ==> OccursAt(s[1..], p, i - 1) {
        if OccursAt(s, p, i) && i > 0 {
          assert s[1..][i - 1..i - 1 + |p|] == s[i..i + |p|];
        }
      }
      forall i ensures OccursAt(s[1..], p, i) ==> OccursAt(s, p, i + 1) {
        if OccursAt(s[1..], p, i) {
          assert s[1..][i..i + |p|] == s[i + 1..i + 1 + |p|];
        }
      }
    }
  }

  /** The number of positions at which `p` occurs in `s`, overlapping or not. */
  function Occurrences(s: string, p: string): nat
    decreases |s|
  {
    if |s| < |p| || s == [] then 0
    else (if s[..|p|] == p then 1 else 0) + Occurrences(s[1..], p)
  }

  /** No proper suffix of `p` is also a prefix of `p`, so two occurrences of
      `p` can never overlap. */
  predicate NoSelfOverlap(p: string) {
    forall k :: 0 < k < |p| ==> p[k..] != p[..|p| - k]
  }

  /** Inside an occurrence of a pattern that does not overlap itself, no
      other occurrence starts. */
  lemma NoOccurrenceInside(s: string, p: string, k: nat)
    requires NoSelfOverlap(p) && OccursAt(s, p, 0) && 0 < k < |p|
    ensures !OccursAt(s, p, k)
  {
    assert p[k..] == s[k..|p|];
    if k + |p| <= |s| {
      assert s[k..k + |p|][..|p| - k] == s[k..|p|];
    }
  }

  /** After an occurrence at the start, skipping one character or the whole
      occurrence leaves the same number of occurrences. */
  lemma {:induction false} OccurrencesSkip(s: string, p: string, k: nat)
    requires NoSelfOverlap(p) && OccursAt(s, p, 0) && 1 <= k <= |p|
    ensures Occurrences(s[1..], p) == Occurrences(s[k..], p)
    decreases k
  {
    if k > 1 {
      OccurrencesSkip(s, p, k - 1);
      NoOccurrenceInside(s, p, k - 1);
      var t := s[k - 1..];
      assert t[1..] == s[k..];
      if |t| >= |p| {
        assert t[..|p|] == s[k - 1..k - 1 + |p|];
        assert Occurrences(t, p) == Occurrences(t[1..], p);
      } else {
        assert Occurrences(t, p) == 0;
        assert Occurrences(t[1..], p) == 0;
      }
    }
  }

  /** For a pattern that does not overlap itself, `count` is the number of
      positions at which the pattern occurs. */
  lemma {:induction false} CountIsOccurrences(s: string, p: string)
    requires |p| > 0 && NoSelfOverlap(p)
    ensures Count(s, p) == Occurrences(s, p)
    decreases |s|
  {
    if |s| < |p| {
    } else if s[..|p|] == p {
      CountIsOccurrences(s[|p|..], p);
      OccurrencesSkip(s, p, |p|);
    } else {
      CountIsOccurrences(s[1..], p);
    }
  }
}
