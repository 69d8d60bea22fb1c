/**
 * Character classes and scanning helpers shared by the classifier.
 *
 * The classes are those of JavaScript regular expressions and of
 * String.prototype.trim: `\s` and trim both use the WhiteSpace and
 * LineTerminator code points, `\d` is the ASCII digits, and `.` matches
 * everything except a LineTerminator. Letter case is folded on ASCII only.
 */
module JsText {

  /** JavaScript `\s`: WhiteSpace plus LineTerminator (also what trim removes). */
  predicate IsSpace(c: char) {
    || ('\t' <= c <= '\r') || c == ' ' || c == '\U{A0}' || c == '\U{1680}'
    || ('\U{2000}' <= c <= '\U{200A}') || c == '\U{2028}' || c == '\U{2029}'
    || c == '\U{202F}' || c == '\U{205F}' || c == '\U{3000}' || c == '\U{FEFF}'
  }

  /** The code points a regex `.` does not match. */
  predicate IsLineTerminator(c: char) {
    c == '\n' || c == '\r' || c == '\U{2028}' || c == '\U{2029}'
  }

  /** JavaScript `\d`. */
  predicate IsDigit(c: char) {
    '0' <= c <= '9'
  }

  predicate IsUpper(c: char) {
    'A' <= c <= 'Z'
  }

  function LowerChar(c: char): char {
    if IsUpper(c) then (c as int + 32) as char else c
  }

  /** toLowerCase, on the ASCII letters. */
  function Lower(s: string): (r: string)
    ensures |r| == |s|
    ensures forall k :: 0 <= k < |s| ==> r[k] == LowerChar(s[k])
  {
    seq(|s|, k requires 0 <= k < |s| => LowerChar(s[k]))
  }

  /** A character class that cannot tell a letter from its lower-case form. */
  ghost predicate CaseBlind(p: char -> bool) {
    forall c {:trigger p(LowerChar(c))} :: p(LowerChar(c)) == p(c)
  }

  /**
   * The end of the longest run of characters in class `p` that starts at `i`:
   * what a greedy `p*` consumes from `i`.
   */
  function SkipForward(s: string, i: nat, p: char -> bool): (j: nat)
    requires i <= |s|
    ensures i <= j <= |s|
    ensures forall k :: i <= k < j ==> p(s[k])
    ensures j == |s| || !p(s[j])
    decreases |s| - i
  {
    if i == |s| || !p(s[i]) then i else SkipForward(s, i + 1, p)
  }

  /** The start of the longest run of characters in class `p` that ends at `j`. */
  function SkipBack(s: string, j: nat, p: char -> bool): (i: nat)
    requires j <= |s|
    ensures i <= j
    ensures forall k :: i <= k < j ==> p(s[k])
    ensures i == 0 || !p(s[i - 1])
    decreases j
  {
    if j == 0 || !p(s[j - 1]) then j else SkipBack(s, j - 1, p)
  }

  /** A greedy run that ends where the class stops is the run the scanner finds. */
  lemma {:induction false} SkipForwardStopsAt(s: string, i: nat, j: nat, p: char -> bool)
    requires i <= j <= |s|
    requires forall k :: i <= k < j ==> p(s[k])
    requires j == |s| || !p(s[j])
    ensures SkipForward(s, i, p) == j
    decreases j - i
  {
    if i < j {
      SkipForwardStopsAt(s, i + 1, j, p);
    }
  }

  lemma {:induction false} SkipBackStopsAt(s: string, i: nat, j: nat, p: char -> bool)
    requires i <= j <= |s|
    requires forall k :: i <= k < j ==> p(s[k])
    requires i == 0 || !p(s[i - 1])
    ensures SkipBack(s, j, p) == i
    decreases j - i
  {
    if i < j {
      SkipBackStopsAt(s, i, j - 1, p);
    }
  }

  lemma LowerIdempotent(s: string)
    ensures Lower(Lower(s)) == Lower(s)
  {
  }

  lemma LowerSlice(s: string, i: nat, j: nat)
    requires i <= j <= |s|
    ensures Lower(s[i..j]) == Lower(s)[i..j]
  {
  }

  lemma LowerConcat(a: string, b: string)
    ensures Lower(a + b) == Lower(a) + Lower(b)
  {
  }

  /** A scan for a case-blind class stops at the same place in the lower-cased text. */
  lemma {:induction false} SkipForwardLower(s: string, i: nat, p: char -> bool)
    requires i <= |s|
    requires CaseBlind(p)
    ensures SkipForward(Lower(s), i, p) == SkipForward(s, i, p)
    decreases |s| - i
  {
    if i < |s| {
      assert p(Lower(s)[i]) == p(s[i]);
      if p(s[i]) {
        SkipForwardLower(s, i + 1, p);
      }
    }
  }

  lemma {:induction false} SkipBackLower(s: string, j: nat, p: char -> bool)
    requires j <= |s|
    requires CaseBlind(p)
    ensures SkipBack(Lower(s), j, p) == SkipBack(s, j, p)
    decreases j
  {
    if j > 0 {
      assert p(Lower(s)[j - 1]) == p(s[j - 1]);
      if p(s[j - 1]) {
        SkipBackLower(s, j - 1, p);
      }
    }
  }

  /** Lower-casing changes letters only. */
  lemma LowerCharKeeps(c: char)
    ensures IsSpace(LowerChar(c)) == IsSpace(c)
    ensures !IsUpper(c) ==> LowerChar(c) == c
    ensures IsUpper(c) ==> 'a' <= LowerChar(c) <= 'z'
  {
  }

  lemma SpaceIsCaseBlind()
    ensures CaseBlind(IsSpace)
  {
  }

  lemma LineTerminatorIsCaseBlind()
    ensures CaseBlind(IsLineTerminator)
  {
  }
}
