/**
 * The JavaScript string operations the pages rely on, over `seq<char>`:
 * `trim`, `toLowerCase` (ASCII letters only), `includes`, `indexOf`,
 * `startsWith`, `split` on one character, `join`, and the two global
 * `replace` calls that remove HTML tags.
 */
module Text {

  /** What ECMAScript counts as white space or a line terminator: the class
      `\s` of a regular expression and what `String.prototype.trim` strips. */
  predicate IsSpace(c: char) {
    || c == ' ' || c == '\t' || c == '\n' || c == '\U{000B}' || c == '\U{000C}' || c == '\r'
    || c == '\U{00A0}' || c == '\U{1680}' || ('\U{2000}' <= c <= '\U{200A}')
    || c == '\U{2028}' || c == '\U{2029}' || c == '\U{202F}' || c == '\U{205F}'
    || c == '\U{3000}' || c == '\U{FEFF}'
  }

  /** A string made of white space only (the empty string included). */
  predicate IsBlank(s: string) {
    forall i :: 0 <= i < |s| ==> IsSpace(s[i])
  }

  /** Neither its first nor its last character is white space. */
  predicate IsTrimmed(s: string) {
    s == [] || (!IsSpace(s[0]) && !IsSpace(s[|s| - 1]))
  }

  /** The end of the run of white space that starts at `i`. */
  function SpaceRunEnd(s: string, i: nat): (j: nat)
    requires i <= |s|
    ensures i <= j <= |s|
    ensures forall k :: i <= k < j ==> IsSpace(s[k])
    ensures j < |s| ==> !IsSpace(s[j])
    decreases |s| - i
  {
    if i < |s| && IsSpace(s[i]) then SpaceRunEnd(s, i + 1) else i
  }

  /** The start of the run of white space that ends at `j`. */
  function SpaceRunStart(s: string, j: nat): (i: nat)
    requires j <= |s|
    ensures i <= j
    ensures forall k :: i <= k < j ==> IsSpace(s[k])
    ensures i > 0 ==> !IsSpace(s[i - 1])
    decreases j
  {
    if j > 0 && IsSpace(s[j - 1]) then SpaceRunStart(s, j - 1) else j
  }

  /** Drops the leading white space: the result is the suffix of `s` that
      starts at its first non-space character. */
  function TrimStart(s: string): (r: string)
    ensures |r| <= |s| && r == s[|s| - |r|..]
    ensures IsBlank(s[..|s| - |r|])
    ensures r == [] || !IsSpace(r[0])
  {
    var i := SpaceRunEnd(s, 0);
    assert forall k :: 0 <= k < i ==> s[..i][k] == s[k];
    s[i..]
  }

  /** Drops the trailing white space: the result is the prefix of `s` that
      ends at its last non-space character. */
  function TrimEnd(s: string): (r: string)
    ensures |r| <= |s| && r == s[..|r|]
    ensures IsBlank(s[|r|..])
    ensures r == [] || !IsSpace(r[|r| - 1])
  {
    var j := SpaceRunStart(s, |s|);
    assert forall k :: 0 <= k < |s| - j ==> s[j..][k] == s[j + k];
    s[..j]
  }

  /** `String.prototype.trim`. */
  function Trim(s: string): string {
    TrimEnd(TrimStart(s))
  }

  /** The trimmed string has no white space at either end. */
  lemma TrimIsTrimmed(s: string)
    ensures IsTrimmed(Trim(s))
  {
    var t := TrimStart(s);
    var r := TrimEnd(t);
    if r != [] {
      assert r[0] == t[0];
    }
  }

  /** A blank string trims to the empty string, and only a blank one does. */
  lemma TrimEmptyIffBlank(s: string)
    ensures Trim(s) == [] <==> IsBlank(s)
  {
    var t := TrimStart(s);
    assert t != [] ==> t[0] == s[|s| - |t|];
    if Trim(s) == [] {
      assert t == [] by { assert t == t[0..]; }
      forall i | 0 <= i < |s| ensures IsSpace(s[i]) {
        assert s[i] == s[..|s| - |t|][i];
      }
    }
  }

  /** Trimming a string with no white space at either end changes nothing. */
  lemma TrimOfTrimmed(s: string)
    requires IsTrimmed(s)
    ensures Trim(s) == s
  {
  }

  /** `trim` is idempotent. */
  lemma TrimIdempotent(s: string)
    ensures Trim(Trim(s)) == Trim(s)
  {
    TrimIsTrimmed(s);
    TrimOfTrimmed(Trim(s));
  }

  /** `toLowerCase` on the ASCII letters; every other character is kept. */
  function LowerChar(c: char): char {
    if 'A' <= c <= 'Z' then (c as int + 32) as char else c
  }

  function ToLower(s: string): (r: string)
    ensures |r| == |s|
    ensures forall i :: 0 <= i < |s| ==> r[i] == LowerChar(s[i])
  {
    seq(|s|, i requires 0 <= i < |s| => LowerChar(s[i]))
  }

  /** Lower-casing twice is lower-casing once. */
  lemma ToLowerIdempotent(s: string)
    ensures ToLower(ToLower(s)) == ToLower(s)
  {
  }

  /** Lower-casing commutes with taking a slice. */
  lemma ToLowerSlice(s: string, i: nat, j: nat)
    requires i <= j <= |s|
    ensures ToLower(s)[i..j] == ToLower(s[i..j])
  {
  }

  /** The substring `sub` starts at position `i` of `s`. */
  predicate OccursAt(s: string, sub: string, i: int) {
    0 <= i && i + |sub| <= |s| && s[i..i + |sub|] == sub
  }

  /** `indexOf` searching from position `from`: the first occurrence at or
      after `from`, or -1 when there is none. */
  function IndexFrom(s: string, sub: string, from: nat): (r: int)
    requires from <= |s|
    ensures r == -1 || (from <= r && OccursAt(s, sub, r))
    ensures r == -1 ==> forall k :: from <= k <= |s| ==> !OccursAt(s, sub, k)
    ensures r != -1 ==> forall k :: from <= k < r ==> !OccursAt(s, sub, k)
    decreases |s| - from
  {
    if OccursAt(s, sub, from) then from
    else if from == |s| then -1
    else IndexFrom(s, sub, from + 1)
  }

  /** `String.prototype.indexOf`: the first position at which `sub` occurs in
      `s`, or -1 when it does not occur. */
  function IndexOf(s: string, sub: string): (r: int)
    ensures r == -1 || OccursAt(s, sub, r)
    ensures r == -1 <==> forall k :: 0 <= k <= |s| ==> !OccursAt(s, sub, k)
    ensures r != -1 ==> forall k :: 0 <= k < r ==> !OccursAt(s, sub, k)
  {
    IndexFrom(s, sub, 0)
  }

  /** `String.prototype.includes`. */
  predicate Includes(s: string, sub: string) {
    IndexOf(s, sub) != -1
  }

  /** `includes` holds exactly when `sub` occurs somewhere in `s`. */
  lemma IncludesIffOccurs(s: string, sub: string)
    ensures Includes(s, sub) <==> exists k :: OccursAt(s, sub, k)
  {
  }

  /** Every string includes the empty string. */
  lemma IncludesEmpty(s: string)
    ensures Includes(s, [])
  {
    assert OccursAt(s, [], 0);
  }

  /** A string includes every substring that occurs in it. */
  lemma IncludesAt(s: string, sub: string, k: int)
    ensures OccursAt(s, sub, k) ==> Includes(s, sub)
  {
  }

  /** An occurrence of `sub` in `s` is an occurrence of the lower-cased
      `sub` in the lower-cased `s`. */
  lemma IncludesLowered(s: string, sub: string)
    ensures Includes(s, sub) ==> Includes(ToLower(s), ToLower(sub))
  {
    var k := IndexOf(s, sub);
    if k != -1 {
      var ls, lsub := ToLower(s), ToLower(sub);
      assert s[k..k + |sub|] == sub;
      ToLowerSlice(s, k, k + |sub|);
      assert ls[k..k + |lsub|] == lsub;
      assert OccursAt(ls, lsub, k);
      IncludesAt(ls, lsub, k);
    }
  }

  /** `sub` starts at position `k` of `s` once both have been lower-cased,
      stated character by character. */
  predicate OccursIgnoringCaseAt(s: string, sub: string, k: int) {
    && 0 <= k && k + |sub| <= |s|
    && forall j :: 0 <= j < |sub| ==> LowerChar(s[k + j]) == LowerChar(sub[j])
  }

  predicate OccursIgnoringCase(s: string, sub: string) {
    exists k :: 0 <= k <= |s| && OccursIgnoringCaseAt(s, sub, k)
  }

  /** An occurrence in the lower-cased strings is a case-blind occurrence in
      the original ones, at the same position. */
  lemma OccursLoweredAt(s: string, sub: string, k: int)
    ensures OccursAt(ToLower(s), ToLower(sub), k) <==> OccursIgnoringCaseAt(s, sub, k)
  {
    var ls, lsub := ToLower(s), ToLower(sub);
    if OccursAt(ls, lsub, k) {
      forall j | 0 <= j < |sub| ensures LowerChar(s[k + j]) == LowerChar(sub[j]) {
        assert ls[k..k + |lsub|][j] == lsub[j];
      }
    }
    if OccursIgnoringCaseAt(s, sub, k) {
      assert ls[k..k + |lsub|] == lsub;
    }
  }

  /** `s.toLowerCase().includes(sub.toLowerCase())` holds exactly when `sub`
      occurs somewhere in `s` up to the case of its letters. */
  lemma IncludesLoweredIff(s: string, sub: string)
    ensures Includes(ToLower(s), ToLower(sub)) <==> OccursIgnoringCase(s, sub)
  {
    var ls, lsub := ToLower(s), ToLower(sub);
    IncludesIffOccurs(ls, lsub);
    if Includes(ls, lsub) {
      var k :| OccursAt(ls, lsub, k);
      OccursLoweredAt(s, sub, k);
    }
    if OccursIgnoringCase(s, sub) {
      var k :| OccursIgnoringCaseAt(s, sub, k);
      OccursLoweredAt(s, sub, k);
    }
  }

  /** `String.prototype.startsWith`. */
  predicate StartsWith(s: string, prefix: string) {
    |prefix| <= |s| && s[..|prefix|] == prefix
  }

  /** `s.substring(0, n) + '...'` when `s` is longer than `n`, else `s`. */
  function Truncate(s: string, n: nat): (r: string)
    ensures |s| <= n ==> r == s
    ensures |s| > n ==> |r| == n + 3 && StartsWith(s, r[..n]) && r[n..] == "..."
    ensures |r| <= n + 3
  {
    if |s| > n then s[..n] + "..." else s
  }

  /** The position of the first `c` in `s`, or -1. */
  function FindChar(s: string, c: char): (i: int)
    ensures -1 <= i < |s|
    ensures i >= 0 ==> s[i] == c && c !in s[..i]
    ensures i == -1 <==> c !in s
  {
    if s == [] then -1
    else if s[0] == c then 0
    else
      var j := FindChar(s[1..], c);
      assert s[1..][..j + 1] == s[1..j + 2] by { }
      if j == -1 then -1 else
        assert s[..j + 1] == [s[0]] + s[1..][..j];
        j + 1
  }

  /** `s.split(c)` for a one-character separator: the pieces between the
      occurrences of `c`, empty pieces included; `''.split(c)` is `['']`. */
  function SplitOn(s: string, c: char): (pieces: seq<string>)
    ensures |pieces| >= 1
    ensures forall k :: 0 <= k < |pieces| ==> c !in pieces[k]
    decreases |s|
  {
    var i := FindChar(s, c);
    if i == -1 then [s] else [s[..i]] + SplitOn(s[i + 1..], c)
  }

  /** `pieces.join(sep)`. */
  function Join(pieces: seq<string>, sep: string): string {
    if pieces == [] then []
    else if |pieces| == 1 then pieces[0]
    else pieces[0] + sep + Join(pieces[1..], sep)
  }

  /** Splitting on `c` and joining with `c` gives back the string. */
  lemma {:induction false} JoinSplit(s: string, c: char)
    ensures Join(SplitOn(s, c), [c]) == s
    decreases |s|
  {
    var i := FindChar(s, c);
    if i != -1 {
      JoinSplit(s[i + 1..], c);
      JoinCons(s[..i], SplitOn(s[i + 1..], c), [c]);
      SplitAround(s, i);
    }
  }

  /** Joining a first piece before a non-empty rest puts the separator
      between them. */
  lemma JoinCons(first: string, rest: seq<string>, sep: string)
    requires rest != []
    ensures Join([first] + rest, sep) == first + sep + Join(rest, sep)
  {
    assert ([first] + rest)[1..] == rest;
  }

  lemma SplitAround(s: string, i: nat)
    requires i < |s|
    ensures s == s[..i] + [s[i]] + s[i + 1..]
  {
  }

  /** The concatenation of a list of strings (`join('')`). */
  function Concat(pieces: seq<string>): string {
    if pieces == [] then [] else pieces[0] + Concat(pieces[1..])
  }

  /** The global replacement of the regular expression `<[^>]*>` (when
      `minInner` is 0) or `<[^>]+>` (when it is 1) by `rep`. A match starts
      at a `<` and ends at the first `>` after it, provided at least
      `minInner` characters lie between the two; a `<` that starts no match
      is kept. */
  function ReplaceTags(s: string, rep: string, minInner: nat): string
    decreases |s|
  {
    if s == [] then []
    else
      var j := FindChar(s[1..], '>');
      if s[0] == '<' && j >= minInner then rep + ReplaceTags(s[j + 2..], rep, minInner)
      else [s[0]] + ReplaceTags(s[1..], rep, minInner)
  }

  /** No substring of `s` matches a tag pattern with at least `minInner`
      characters inside: after every `<`, the first `>` (if any) comes
      within fewer than `minInner` characters. */
  predicate NoTags(s: string, minInner: nat) {
    forall i :: 0 <= i < |s| && s[i] == '<' ==> FindChar(s[i + 1..], '>') < minInner
  }

  /** Replacing tags adds no `>` of its own when `rep` holds none. */
  lemma {:induction false} ReplaceTagsNoClose(s: string, rep: string, minInner: nat)
    requires '>' !in s && '>' !in rep
    ensures '>' !in ReplaceTags(s, rep, minInner)
    decreases |s|
  {
    if s != [] {
      assert '>' !in s[1..] by { assert forall k :: 0 <= k < |s| - 1 ==> s[1..][k] == s[k + 1]; }
      ReplaceTagsNoClose(s[1..], rep, minInner);
    }
  }

  /** The result of the replacement holds no further match, when `rep` holds
      neither `<` nor `>` and `minInner` is 0 or 1 (the two patterns used). */
  lemma {:induction false} ReplaceTagsLeavesNone(s: string, rep: string, minInner: nat)
    requires '<' !in rep && '>' !in rep && minInner <= 1
    ensures NoTags(ReplaceTags(s, rep, minInner), minInner)
    decreases |s|
  {
    if s != [] {
      var j := FindChar(s[1..], '>');
      if s[0] == '<' && j >= minInner {
        ReplaceTagsLeavesNone(s[j + 2..], rep, minInner);
        NoTagsAfter(rep, ReplaceTags(s[j + 2..], rep, minInner), minInner);
      } else {
        var tail := ReplaceTags(s[1..], rep, minInner);
        ReplaceTagsLeavesNone(s[1..], rep, minInner);
        if s[0] == '<' {
          if j == -1 {
            ReplaceTagsNoClose(s[1..], rep, minInner);
          } else {
            assert j == 0 && s[1..][0] == '>';
            assert tail == ['>'] + ReplaceTags(s[1..][1..], rep, minInner);
          }
        }
        NoTagsCons(s[0], tail, minInner);
      }
    }
  }

  /** A prefix without `<` adds no match. */
  lemma NoTagsAfter(prefix: string, tail: string, minInner: nat)
    requires '<' !in prefix && NoTags(tail, minInner)
    ensures NoTags(prefix + tail, minInner)
  {
    var r := prefix + tail;
    forall i | 0 <= i < |r| && r[i] == '<' ensures FindChar(r[i + 1..], '>') < minInner {
      assert r[i] == tail[i - |prefix|];
      assert r[i + 1..] == tail[i - |prefix| + 1..];
    }
  }

  /** One character before a string without matches adds none, unless it is
      a `<` whose first following `>` comes too late. */
  lemma NoTagsCons(c: char, tail: string, minInner: nat)
    requires NoTags(tail, minInner)
    requires c == '<' ==> FindChar(tail, '>') < minInner
    ensures NoTags([c] + tail, minInner)
  {
    var r := [c] + tail;
    forall i | 0 <= i < |r| && r[i] == '<' ensures FindChar(r[i + 1..], '>') < minInner {
      if i == 0 {
        assert r[1..] == tail;
      } else {
        assert r[i] == tail[i - 1];
        assert r[i + 1..] == tail[i..];
      }
    }
  }

  /** A string with no `<` is left as it is. */
  lemma {:induction false} ReplaceTagsNoOpen(s: string, rep: string, minInner: nat)
    requires '<' !in s
    ensures ReplaceTags(s, rep, minInner) == s
    decreases |s|
  {
    if s != [] {
      assert '<' !in s[1..] by { assert forall k :: 0 <= k < |s| - 1 ==> s[1..][k] == s[k + 1]; }
      ReplaceTagsNoOpen(s[1..], rep, minInner);
      assert s == [s[0]] + s[1..];
    }
  }
}
