/**
 * The base-name normaliser: the grouping key of a file name.
 *
 * getBaseName is a fixed pipeline of five stages, each a string function
 * below: drop the extension, drop bracketed tags, keep the text before the
 * first '+', drop one trailing sequel numeral from long subtitled titles, then
 * clean up the end, trim and lower-case. Each regular expression is modelled
 * by the scan a backtracking engine performs for it; where the scan is not
 * obviously the regular expression, a lemma relates the two.
 */
module BaseName {
  import opened JsText
  import opened Wrappers

  // ---------------------------------------------------------------------
  // Stage 1: the extension

  /** lastIndexOf: the position of the last `c`, or -1. */
  function LastIndexOf(s: string, c: char): (r: int)
    ensures -1 <= r < |s|
    ensures r >= 0 ==> s[r] == c
    ensures forall k :: r < k < |s| ==> s[k] != c
  {
    if s == [] then -1
    else if s[|s| - 1] == c then |s| - 1
    else LastIndexOf(s[..|s| - 1], c)
  }

  /**
   * Everything from the last '.' on is dropped, but only when that '.' is not
   * the first character.
   */
  function StripExtension(name: string): (r: string)
    ensures (exists k :: 0 < k < |name| && name[k] == '.') ==>
              0 < |r| < |name| && r == name[..|r|] && name[|r|] == '.' &&
              forall k :: |r| < k < |name| ==> name[k] != '.'
    ensures (forall k :: 0 < k < |name| ==> name[k] != '.') ==> r == name
  {
    var dot := LastIndexOf(name, '.');
    if dot > 0 then name[..dot] else name
  }

  // ---------------------------------------------------------------------
  // Stage 2: bracketed tags, `replace(/\s*[\(\[].*?[\)\]]/g, '')`

  predicate IsOpener(c: char) {
    c == '(' || c == '['
  }

  predicate IsCloser(c: char) {
    c == ')' || c == ']'
  }

  /** What the lazy `.*?` steps over before the closer: no closer, no line terminator. */
  predicate InTag(c: char) {
    !IsCloser(c) && !IsLineTerminator(c)
  }

  /**
   * The length of the match of `\s*[\(\[].*?[\)\]]` at the start of `s`, if
   * there is one: all leading whitespace, an opener, then up to and including
   * the nearest closer, provided no line terminator comes first.
   */
  function TagLength(s: string): (r: Option<nat>)
    ensures r.Some? ==> 2 <= r.value <= |s| && IsCloser(s[r.value - 1])
  {
    var q := SkipForward(s, 0, IsSpace);
    if q < |s| && IsOpener(s[q]) then
      var e := SkipForward(s, q + 1, InTag);
      if e < |s| && IsCloser(s[e]) then Some(e + 1) else None
    else None
  }

  /** No opener is followed, anywhere later, by a closer. */
  ghost predicate NoTag(t: string) {
    forall i, j :: 0 <= i < j < |t| && IsOpener(t[i]) ==> !IsCloser(t[j])
  }

  ghost predicate NoLineTerminator(s: string) {
    forall k :: 0 <= k < |s| ==> !IsLineTerminator(s[k])
  }

  /**
   * The global replace: scanning left to right, every match is cut out and
   * the scan resumes after it; where no match starts, one character is kept.
   * The result is never longer, and a name without an opener is left alone.
   */
  function RemoveTags(s: string): (r: string)
    ensures |r| <= |s|
    ensures (forall k :: 0 <= k < |s| ==> !IsOpener(s[k])) ==> r == s
    decreases |s|
  {
    if s == [] then []
    else match TagLength(s)
      case Some(n) => RemoveTags(s[n..])
      case None => [s[0]] + RemoveTags(s[1..])
  }

  /** Every character of the result comes from the input. */
  lemma {:induction false} RemoveTagsKeepsChars(s: string)
    ensures forall c :: c in RemoveTags(s) ==> c in s
    decreases |s|
  {
    if s != [] {
      match TagLength(s)
      case Some(n) =>
        RemoveTagsKeepsChars(s[n..]);
      case None =>
        RemoveTagsKeepsChars(s[1..]);
    }
  }

  /** On a single-line name, no opener survives with a closer after it. */
  lemma {:induction false} RemoveTagsLeavesNoTag(s: string)
    requires NoLineTerminator(s)
    ensures NoTag(RemoveTags(s))
    decreases |s|
  {
    if s != [] {
      match TagLength(s)
      case Some(n) =>
        RemoveTagsLeavesNoTag(s[n..]);
      case None =>
        RemoveTagsLeavesNoTag(s[1..]);
        RemoveTagsKeepsChars(s[1..]);
        if IsOpener(s[0]) {
          assert SkipForward(s, 0, IsSpace) == 0;
          var e := SkipForward(s, 1, InTag);
          assert e == |s|;
          assert forall c :: c in s[1..] ==> !IsCloser(c);
        }
        RemoveTagsKeepsFirst(s);
    }
  }

  // ---------------------------------------------------------------------
  // Stage 3: `split('+')[0]`

  predicate IsNotPlus(c: char) {
    c != '+'
  }

  /** The text before the first '+', or all of it when there is none. */
  function BeforeFirstPlus(s: string): (r: string)
    ensures '+' !in r
    ensures |r| <= |s| && r == s[..|r|]
    ensures |r| < |s| ==> s[|r|] == '+'
  {
    var n := SkipForward(s, 0, IsNotPlus);
    assert forall k :: 0 <= k < n ==> s[..n][k] == s[k];
    s[..n]
  }

  // ---------------------------------------------------------------------
  // Stage 4: `replace(/\s+(?:\d+|I|II|III|IV|V|VI|VII|VIII)$/i, '')`

  const RomanNumerals: seq<string> := ["i", "ii", "iii", "iv", "v", "vi", "vii", "viii"]

  /** `\d+|I|II|III|IV|V|VI|VII|VIII` under the `i` flag; IX and X are not among them. */
  predicate IsSequelNumeral(w: string) {
    || (|w| > 0 && forall k :: 0 <= k < |w| ==> IsDigit(w[k]))
    || Lower(w) in RomanNumerals
  }

  /** The whole of `w` matches `\s+(?:\d+|I|...|VIII)$`. */
  ghost predicate IsSequelSuffix(w: string) {
    exists k :: 0 < k < |w| && (forall m :: 0 <= m < k ==> IsSpace(w[m])) && IsSequelNumeral(w[k..])
  }

  predicate IsNotSpace(c: char) {
    !IsSpace(c)
  }

  /**
   * The (non-global) replace: it removes the leftmost match, if any. The
   * result is a prefix; it is shorter exactly when some suffix matches, the
   * removed suffix matches, and no earlier suffix does.
   */
  function StripSequelNumeral(s: string): (r: string)
    ensures |r| <= |s| && r == s[..|r|]
    ensures |r| < |s| <==> exists p :: 0 <= p < |s| && IsSequelSuffix(s[p..])
    ensures |r| < |s| ==> IsSequelSuffix(s[|r|..]) && forall p :: 0 <= p < |r| ==> !IsSequelSuffix(s[p..])
  {
    var t := SkipBack(s, |s|, IsNotSpace);
    var p := SkipBack(s, t, IsSpace);
    assert forall q :: 0 <= q <= |s| ==> (IsSequelSuffix(s[q..]) <==> p <= q < t && IsSequelNumeral(s[t..])) by {
      forall q | 0 <= q <= |s|
        ensures IsSequelSuffix(s[q..]) <==> p <= q < t && IsSequelNumeral(s[t..])
      {
        SequelSuffixAt(s, q);
      }
    }
    var c := SequelCut(s);
    assert c == (if p < t && IsSequelNumeral(s[t..]) then p else |s|);
    assert c < |s| ==> IsSequelSuffix(s[c..]);
    s[..c]
  }

  /** Where the sequel stage cuts: before the whitespace ahead of a final numeral, else nowhere. */
  function SequelCut(s: string): (c: nat)
    ensures c <= |s|
  {
    var t := SkipBack(s, |s|, IsNotSpace);
    var p := SkipBack(s, t, IsSpace);
    if p < t && IsSequelNumeral(s[t..]) then p else |s|
  }

  lemma SequelNumeralHasNoSpace(w: string)
    requires IsSequelNumeral(w)
    ensures |w| > 0
    ensures forall m :: 0 <= m < |w| ==> !IsSpace(w[m]) && !IsOpener(w[m]) && !IsCloser(w[m]) && w[m] != '+' && w[m] != '.'
  {
    if !(|w| > 0 && forall k :: 0 <= k < |w| ==> IsDigit(w[k])) {
      forall m | 0 <= m < |w|
        ensures !IsSpace(w[m]) && !IsOpener(w[m]) && !IsCloser(w[m]) && w[m] != '+' && w[m] != '.'
      {
        assert Lower(w)[m] == LowerChar(w[m]);
        assert Lower(w)[m] == 'i' || Lower(w)[m] == 'v';
      }
    }
  }

  /**
   * The suffixes that match: those starting inside the whitespace run just
   * before the last word, when that word is a numeral.
   */
  lemma SequelSuffixAt(s: string, q: nat)
    requires q <= |s|
    ensures var t := SkipBack(s, |s|, IsNotSpace);
            var p := SkipBack(s, t, IsSpace);
            IsSequelSuffix(s[q..]) <==> p <= q < t && IsSequelNumeral(s[t..])
  {
    var t := SkipBack(s, |s|, IsNotSpace);
    var p := SkipBack(s, t, IsSpace);
    if IsSequelSuffix(s[q..]) {
      SequelSuffixOnlyAt(s, q, t, p);
    }
    if p <= q < t && IsSequelNumeral(s[t..]) {
      SequelSuffixFrom(s, q, t);
    }
  }

  lemma SequelSuffixOnlyAt(s: string, q: nat, t: nat, p: nat)
    requires q <= |s| && t == SkipBack(s, |s|, IsNotSpace) && p == SkipBack(s, t, IsSpace)
    requires IsSequelSuffix(s[q..])
    ensures p <= q < t && IsSequelNumeral(s[t..])
  {
    var w := s[q..];
    var k :| 0 < k < |w| && (forall m :: 0 <= m < k ==> IsSpace(w[m])) && IsSequelNumeral(w[k..]);
    NumeralTailHasNoSpace(s, q + k, w[k..]);
    SpaceRunIn(s, q, k);
    SkipBackStopsAt(s, q + k, |s|, IsNotSpace);
    assert p <= q;
  }

  /** A numeral that runs to the end of `s` holds no whitespace. */
  lemma NumeralTailHasNoSpace(s: string, b: nat, num: string)
    requires b <= |s| && s[b..] == num && IsSequelNumeral(num)
    ensures b < |s| && IsSequelNumeral(s[b..])
    ensures forall m :: b <= m < |s| ==> IsNotSpace(s[m])
  {
    SequelNumeralHasNoSpace(num);
    forall m | b <= m < |s|
      ensures IsNotSpace(s[m])
    {
      assert s[m] == num[m - b];
    }
  }

  /** A whitespace run at the start of `s[q..]` is one in `s`. */
  lemma SpaceRunIn(s: string, q: nat, k: nat)
    requires q + k <= |s| && forall m :: 0 <= m < k ==> IsSpace(s[q..][m])
    ensures forall m :: q <= m < q + k ==> IsSpace(s[m])
  {
    forall m | q <= m < q + k
      ensures IsSpace(s[m])
    {
      assert s[m] == s[q..][m - q];
    }
  }

  lemma SequelSuffixFrom(s: string, q: nat, t: nat)
    requires q < t <= |s| && IsSequelNumeral(s[t..])
    requires forall m :: q <= m < t ==> IsSpace(s[m])
    ensures IsSequelSuffix(s[q..])
  {
    var w := s[q..];
    var k := t - q;
    assert w[k..] == s[t..];
    assert forall m :: 0 <= m < k ==> IsSpace(w[m]) by {
      forall m | 0 <= m < k
        ensures IsSpace(w[m])
      {
        assert w[m] == s[q + m];
      }
    }
  }

  /** The sequel stage runs only on a title with a separator that is longer than 15. */
  predicate SequelGuard(s: string) {
    ('-' in s || ':' in s) && |s| > 15
  }

  /**
   * The sequel stage: only a title that passes the guard can lose anything,
   * and what it loses is a whitespace-and-numeral suffix.
   */
  function StripSequel(s: string): (r: string)
    ensures |r| <= |s| && r == s[..|r|]
    ensures |r| < |s| ==> SequelGuard(s) && IsSequelSuffix(s[|r|..])
    ensures !SequelGuard(s) ==> r == s
    ensures SequelGuard(s) ==> (|r| < |s| <==> exists p :: 0 <= p < |s| && IsSequelSuffix(s[p..]))
  {
    if SequelGuard(s) then StripSequelNumeral(s) else s
  }

  // ---------------------------------------------------------------------
  // Stage 5: `replace(/[\s-_]+$/, '')`, then `trim()`, then `toLowerCase()`

  /** `[\s-_]`: in this position the '-' is a literal, not a range. */
  predicate IsTrailingJunk(c: char) {
    IsSpace(c) || c == '-' || c == '_'
  }

  ghost predicate AllSpace(s: string) {
    forall k :: 0 <= k < |s| ==> IsSpace(s[k])
  }

  /** The text without its trailing whitespace. */
  function TrimEnd(s: string): (r: string)
    ensures |r| <= |s| && r == s[..|r|]
    ensures r == [] || !IsSpace(r[|r| - 1])
    ensures AllSpace(s[|r|..])
  {
    s[..SkipBack(s, |s|, IsSpace)]
  }

  /** The text without its leading whitespace. */
  function TrimStart(s: string): (r: string)
    ensures |r| <= |s| && r == s[|s| - |r|..]
    ensures r == [] || !IsSpace(r[0])
    ensures AllSpace(s[..|s| - |r|])
  {
    var b := SkipForward(s, 0, IsSpace);
    assert forall k :: 0 <= k < b ==> s[..b][k] == s[k];
    s[b..]
  }

  /** trim: the text between the leading and the trailing whitespace. */
  function Trim(s: string): (r: string)
    ensures |r| <= |s|
    ensures r == [] || (!IsSpace(r[0]) && !IsSpace(r[|r| - 1]))
    ensures forall c :: c in r ==> c in s
    ensures |s| > 0 && !IsSpace(s[|s| - 1]) ==> |r| > 0 && r[|r| - 1] == s[|s| - 1]
  {
    var e := TrimEnd(s);
    var r := TrimStart(e);
    assert forall c :: c in e ==> c in s;
    assert r != [] ==> r[|r| - 1] == e[|e| - 1];
    r
  }

  /** `replace(/[\s-_]+$/, '')`: the longest trailing run of junk goes. */
  function DropTrailingJunk(s: string): (r: string)
    ensures |r| <= |s| && r == s[..|r|]
    ensures r == [] || !IsTrailingJunk(r[|r| - 1])
    ensures forall k :: |r| <= k < |s| ==> IsTrailingJunk(s[k])
  {
    s[..SkipBack(s, |s|, IsTrailingJunk)]
  }

  /**
   * The cleanup stage: no whitespace at either end, no '-' or '_' at the end,
   * no upper-case letter, and every character a lower-cased one of the input.
   */
  function Cleanup(s: string): (r: string)
    ensures |r| <= |s|
    ensures r == [] || (!IsSpace(r[0]) && !IsTrailingJunk(r[|r| - 1]))
    ensures forall k :: 0 <= k < |r| ==> !IsUpper(r[k])
    ensures forall c :: c in r ==> exists d :: d in s && c == LowerChar(d)
  {
    var cut := DropTrailingJunk(s);
    var trimmed := Trim(cut);
    assert forall c :: c in trimmed ==> c in s;
    assert trimmed == [] || (!IsSpace(trimmed[0]) && !IsTrailingJunk(trimmed[|trimmed| - 1]));
    LowerKeepsEnds(trimmed);
    LowerComesFrom(trimmed, s);
    Lower(trimmed)
  }

  /** Lower-casing keeps the ends of a cleaned text clean and leaves no upper case. */
  lemma LowerKeepsEnds(t: string)
    requires t == [] || (!IsSpace(t[0]) && !IsTrailingJunk(t[|t| - 1]))
    ensures var r := Lower(t); r == [] || (!IsSpace(r[0]) && !IsTrailingJunk(r[|r| - 1]))
    ensures forall k :: 0 <= k < |t| ==> !IsUpper(Lower(t)[k])
  {
    if t != [] {
      LowerCharKeeps(t[0]);
      LowerCharKeeps(t[|t| - 1]);
    }
  }

  /** Every character of a lower-cased text is the lower case of one of `s`. */
  lemma LowerComesFrom(t: string, s: string)
    requires forall c :: c in t ==> c in s
    ensures forall c :: c in Lower(t) ==> exists d :: d in s && c == LowerChar(d)
  {
    forall c | c in Lower(t)
      ensures exists d :: d in s && c == LowerChar(d)
    {
      var k :| 0 <= k < |t| && Lower(t)[k] == c;
      assert t[k] in s;
    }
  }

  // ---------------------------------------------------------------------
  // The pipeline

  /**
   * getBaseName. The key has no '+', no whitespace at either end, does not
   * end in '-' or '_', and has no upper-case letter.
   */
  function GetBaseName(filename: string): (r: string)
    ensures '+' !in r
    ensures r != [] ==> !IsSpace(r[0]) && !IsSpace(r[|r| - 1]) && r[|r| - 1] != '-' && r[|r| - 1] != '_'
    ensures forall k :: 0 <= k < |r| ==> !IsUpper(r[k])
  {
    var title := BeforeFirstPlus(RemoveTags(StripExtension(filename)));
    var t := StripSequel(title);
    assert '+' !in t by {
      assert forall k :: 0 <= k < |t| ==> t[k] == title[k];
    }
    Cleanup(t)
  }

  // ---------------------------------------------------------------------
  // Letter case does not matter

  lemma {:induction false} LastDotLower(s: string)
    ensures LastIndexOf(Lower(s), '.') == LastIndexOf(s, '.')
  {
    if s != [] {
      LowerSlice(s, 0, |s| - 1);
      LastDotLower(s[..|s| - 1]);
    }
  }

  lemma StripExtensionLower(s: string)
    ensures StripExtension(Lower(s)) == Lower(StripExtension(s))
  {
    LastDotLower(s);
    var dot := LastIndexOf(s, '.');
    if dot > 0 {
      LowerSlice(s, 0, dot);
    }
  }

  lemma TagClassesAreCaseBlind()
    ensures CaseBlind(IsSpace) && CaseBlind(InTag)
  {
    SpaceIsCaseBlind();
  }

  lemma TagLengthLower(s: string)
    ensures TagLength(Lower(s)) == TagLength(s)
  {
    var ls := Lower(s);
    TagClassesAreCaseBlind();
    SkipForwardLower(s, 0, IsSpace);
    var q := SkipForward(s, 0, IsSpace);
    if q < |s| {
      assert IsOpener(ls[q]) == IsOpener(s[q]);
      SkipForwardLower(s, q + 1, InTag);
      var e := SkipForward(s, q + 1, InTag);
      if e < |s| {
        assert IsCloser(ls[e]) == IsCloser(s[e]);
      }
    }
  }

  lemma {:induction false} RemoveTagsLower(s: string)
    ensures RemoveTags(Lower(s)) == Lower(RemoveTags(s))
    decreases |s|
  {
    if s != [] {
      var k, n := RemoveTagsStep(s);
      LowerSlice(s, n, |s|);
      LowerSlice(s, 0, k);
      RemoveTagsLower(s[n..]);
      LowerConcat(s[..k], RemoveTags(s[n..]));
      assert Lower(s)[..k] == Lower(s[..k]);
      assert Lower(s)[n..] == Lower(s[n..]);
      assert RemoveTags(Lower(s)) == Lower(s[..k]) + RemoveTags(Lower(s[n..]));
      assert RemoveTags(Lower(s)) == Lower(s[..k]) + Lower(RemoveTags(s[n..]));
    }
  }

  /** One step of the scan, taken alike on a name and on its lower-cased spelling. */
  lemma RemoveTagsStep(s: string) returns (k: nat, n: nat)
    requires s != []
    ensures k <= n <= |s| && 0 < n
    ensures RemoveTags(s) == s[..k] + RemoveTags(s[n..])
    ensures RemoveTags(Lower(s)) == Lower(s)[..k] + RemoveTags(Lower(s)[n..])
  {
    var ls := Lower(s);
    assert |ls| == |s|;
    TagLengthLower(s);
    RemoveTagsUnfold(s);
    RemoveTagsUnfold(ls);
    if TagLength(s).Some? {
      k, n := 0, TagLength(s).value;
    } else {
      k, n := 1, 1;
    }
  }

  /** The first step of the scan, either a match cut out or one character kept. */
  lemma RemoveTagsUnfold(t: string)
    requires t != []
    ensures TagLength(t).Some? ==> RemoveTags(t) == t[..0] + RemoveTags(t[TagLength(t).value..])
    ensures TagLength(t).None? ==> RemoveTags(t) == t[..1] + RemoveTags(t[1..])
  {
    assert t[..0] == [];
    assert t[..1] == [t[0]];
  }

  lemma BeforeFirstPlusLower(s: string)
    ensures BeforeFirstPlus(Lower(s)) == Lower(BeforeFirstPlus(s))
  {
    assert CaseBlind(IsNotPlus);
    SkipForwardLower(s, 0, IsNotPlus);
    LowerSlice(s, 0, SkipForward(s, 0, IsNotPlus));
  }

  lemma SequelNumeralLower(w: string)
    ensures IsSequelNumeral(Lower(w)) == IsSequelNumeral(w)
  {
    LowerIdempotent(w);
    assert (forall k :: 0 <= k < |w| ==> IsDigit(Lower(w)[k])) == (forall k :: 0 <= k < |w| ==> IsDigit(w[k]));
  }

  lemma StripSequelNumeralLower(s: string)
    ensures StripSequelNumeral(Lower(s)) == Lower(StripSequelNumeral(s))
  {
    SequelCutLower(s);
    LowerSlice(s, 0, SequelCut(s));
  }

  lemma SequelCutLower(s: string)
    ensures SequelCut(Lower(s)) == SequelCut(s)
  {
    SpaceIsCaseBlind();
    assert CaseBlind(IsNotSpace);
    SkipBackLower(s, |s|, IsNotSpace);
    var t := SkipBack(s, |s|, IsNotSpace);
    SkipBackLower(s, t, IsSpace);
    LowerSlice(s, t, |s|);
    SequelNumeralLower(s[t..]);
    var ls := Lower(s);
    assert SkipBack(ls, |ls|, IsNotSpace) == t;
    assert ls[t..] == Lower(s[t..]) by {
      assert s[t..|s|] == s[t..];
    }
  }

  lemma StripSequelLower(s: string)
    ensures StripSequel(Lower(s)) == Lower(StripSequel(s))
  {
    assert ('-' in Lower(s)) == ('-' in s) by {
      if '-' in Lower(s) {
        var k :| 0 <= k < |s| && Lower(s)[k] == '-';
        assert s[k] == '-';
      }
    }
    assert (':' in Lower(s)) == (':' in s) by {
      if ':' in Lower(s) {
        var k :| 0 <= k < |s| && Lower(s)[k] == ':';
        assert s[k] == ':';
      }
    }
    StripSequelNumeralLower(s);
  }

  lemma DropTrailingJunkLower(s: string)
    ensures DropTrailingJunk(Lower(s)) == Lower(DropTrailingJunk(s))
  {
    SpaceIsCaseBlind();
    assert CaseBlind(IsTrailingJunk);
    SkipBackLower(s, |s|, IsTrailingJunk);
    LowerSlice(s, 0, SkipBack(s, |s|, IsTrailingJunk));
    assert |Lower(s)| == |s|;
  }

  lemma TrimEndLower(s: string)
    ensures TrimEnd(Lower(s)) == Lower(TrimEnd(s))
  {
    SpaceIsCaseBlind();
    SkipBackLower(s, |s|, IsSpace);
    LowerSlice(s, 0, SkipBack(s, |s|, IsSpace));
    assert |Lower(s)| == |s|;
  }

  lemma TrimStartLower(s: string)
    ensures TrimStart(Lower(s)) == Lower(TrimStart(s))
  {
    SpaceIsCaseBlind();
    SkipForwardLower(s, 0, IsSpace);
    var b := SkipForward(s, 0, IsSpace);
    LowerSlice(s, b, |s|);
    assert s[b..|s|] == s[b..];
  }

  lemma CleanupLower(s: string)
    ensures Cleanup(Lower(s)) == Cleanup(s)
  {
    DropTrailingJunkLower(s);
    var cut := DropTrailingJunk(s);
    TrimEndLower(cut);
    TrimStartLower(TrimEnd(cut));
    assert Trim(Lower(cut)) == Lower(Trim(cut));
    LowerIdempotent(Trim(cut));
  }

  /** The key of a name is the key of its lower-cased spelling. */
  lemma BaseNameIgnoresCase(filename: string)
    ensures GetBaseName(Lower(filename)) == GetBaseName(filename)
  {
    StripExtensionLower(filename);
    var name := StripExtension(filename);
    RemoveTagsLower(name);
    var untagged := RemoveTags(name);
    BeforeFirstPlusLower(untagged);
    var title := BeforeFirstPlus(untagged);
    StripSequelLower(title);
    CleanupLower(StripSequel(title));
  }

  /** Names that differ only in the case of ASCII letters get the same key. */
  lemma SameKeyAcrossCase(a: string, b: string)
    requires Lower(a) == Lower(b)
    ensures GetBaseName(a) == GetBaseName(b)
  {
    BaseNameIgnoresCase(a);
    BaseNameIgnoresCase(b);
  }

  // ---------------------------------------------------------------------
  // No bracketed tag survives

  lemma NoTagInFactor(t: string, b: nat, e: nat)
    requires b <= e <= |t| && NoTag(t)
    ensures NoTag(t[b..e])
  {
    assert forall i, j :: 0 <= i < j < e - b ==> t[b..e][i] == t[b + i] && t[b..e][j] == t[b + j];
  }

  lemma NoTagInLower(t: string)
    requires NoTag(t)
    ensures NoTag(Lower(t))
  {
    var r := Lower(t);
    forall i, j | 0 <= i < j < |r| && IsOpener(r[i])
      ensures !IsCloser(r[j])
    {
      LowerCharKeeps(t[i]);
      LowerCharKeeps(t[j]);
    }
  }

  lemma NoTagInCleanup(t: string)
    requires NoTag(t)
    ensures NoTag(Cleanup(t))
  {
    var cut := DropTrailingJunk(t);
    NoTagInFactor(t, 0, |cut|);
    var e := TrimEnd(cut);
    NoTagInFactor(cut, 0, |e|);
    var trimmed := TrimStart(e);
    NoTagInFactor(e, |e| - |trimmed|, |e|);
    NoTagInLower(trimmed);
    assert Cleanup(t) == Lower(trimmed);
  }

  /**
   * On a name without line terminators, no '(' or '[' of the key has a ')'
   * or ']' anywhere after it: every such pair was cut out with its contents.
   */
  lemma NoTagInBaseName(filename: string)
    requires NoLineTerminator(filename)
    ensures NoTag(GetBaseName(filename))
  {
    var name := StripExtension(filename);
    assert NoLineTerminator(name);
    var untagged := RemoveTags(name);
    RemoveTagsLeavesNoTag(name);
    var title := BeforeFirstPlus(untagged);
    NoTagInFactor(untagged, 0, |title|);
    var t := StripSequel(title);
    NoTagInFactor(title, 0, |t|);
    NoTagInCleanup(t);
  }

  // ---------------------------------------------------------------------
  // Worked cases

  /** Where no tag starts, the scan keeps the first character. */
  lemma RemoveTagsKeepsFirst(s: string)
    requires s != [] && TagLength(s).None?
    ensures RemoveTags(s) == [s[0]] + RemoveTags(s[1..])
  {
  }

  /** Without a closer nothing is cut: an unclosed '(' or '[' survives. */
  lemma {:induction false} UnclosedOpenerSurvives(s: string)
    requires forall k :: 0 <= k < |s| ==> !IsCloser(s[k])
    ensures RemoveTags(s) == s
    decreases |s|
  {
    if s != [] {
      assert TagLength(s) == None;
      RemoveTagsKeepsFirst(s);
      UnclosedOpenerSurvives(s[1..]);
      assert s == [s[0]] + s[1..];
    }
  }

  /** Text before the first opener, not ending in whitespace, passes through unchanged. */
  lemma {:induction false} RemoveTagsPlainPrefix(a: string, b: string)
    requires forall k :: 0 <= k < |a| ==> !IsOpener(a[k])
    requires a == [] || !IsSpace(a[|a| - 1])
    ensures RemoveTags(a + b) == a + RemoveTags(b)
    decreases |a|
  {
    if a != [] {
      NoTagBeforePlainText(a, b);
      RemoveTagsPlainPrefix(a[1..], b);
      KeepFirstOfPrefix(a, b);
    } else {
      assert a + b == b;
    }
  }

  lemma NoTagBeforePlainText(a: string, b: string)
    requires a != [] && !IsOpener(a[0]) && !IsSpace(a[|a| - 1])
    requires forall k :: 0 <= k < |a| ==> !IsOpener(a[k])
    ensures TagLength(a + b) == None
  {
    var s := a + b;
    var q := SkipForward(s, 0, IsSpace);
    assert !IsSpace(s[|a| - 1]);
    assert q < |a|;
    assert s[q] == a[q];
  }

  lemma KeepFirstOfPrefix(a: string, b: string)
    requires a != [] && TagLength(a + b) == None
    requires RemoveTags(a[1..] + b) == a[1..] + RemoveTags(b)
    ensures RemoveTags(a + b) == a + RemoveTags(b)
  {
    RemoveTagsKeepsFirst(a + b);
    SplitFirst(a, b);
    ConsAssoc(a, RemoveTags(b), RemoveTags(a + b));
  }

  lemma SplitFirst(a: string, b: string)
    requires a != []
    ensures (a + b)[0] == a[0] && (a + b)[1..] == a[1..] + b
  {
  }

  lemma ConsAssoc(a: string, r: string, x: string)
    requires a != [] && x == [a[0]] + (a[1..] + r)
    ensures x == a + r
  {
    assert a == [a[0]] + a[1..];
  }

  /** The text after the last '.' is the extension, when the stem is not empty. */
  lemma StripExtensionOf(stem: string, ext: string)
    requires stem != [] && '.' !in ext
    ensures StripExtension(stem + "." + ext) == stem
  {
    var s := stem + "." + ext;
    var dot := LastIndexOf(s, '.');
    assert s[|stem|] == '.';
    assert forall k :: |stem| < k < |s| ==> s[k] == ext[k - |stem| - 1];
    assert dot == |stem|;
    assert s[..dot] == stem;
  }

  /** A tag at the front goes, with the whitespace before it. */
  lemma RemoveTagsLeadingTag(spaces: string, open: char, inner: string, close: char, rest: string)
    requires AllSpace(spaces) && IsOpener(open) && IsCloser(close)
    requires forall k :: 0 <= k < |inner| ==> InTag(inner[k])
    ensures RemoveTags(spaces + [open] + inner + [close] + rest) == RemoveTags(rest)
  {
    var s := spaces + [open] + inner + [close] + rest;
    var n := |spaces| + 1 + |inner| + 1;
    assert SkipForward(s, 0, IsSpace) == |spaces| by {
      SkipForwardStopsAt(s, 0, |spaces|, IsSpace);
    }
    assert SkipForward(s, |spaces| + 1, InTag) == n - 1 by {
      SkipForwardStopsAt(s, |spaces| + 1, n - 1, InTag);
    }
    assert TagLength(s) == Some(n);
    assert s[n..] == rest;
  }

  /** Once the earlier stages are done, a title with clean ends is only lower-cased. */
  lemma CleanupOfCleanTitle(s: string)
    requires s != [] && !IsSpace(s[0]) && !IsTrailingJunk(s[|s| - 1])
    ensures Cleanup(s) == Lower(s)
  {
    assert DropTrailingJunk(s) == s;
    assert TrimEnd(s) == s;
    assert TrimStart(s) == s;
  }

  lemma TaggedNameSplit(title: string, tag: string, ext: string)
    ensures title + " (" + tag + ")." + ext == (title + " (" + tag + ")") + "." + ext
    ensures " (" + tag + ")" == " " + ['('] + tag + [')'] + ""
    ensures title + " (" + tag + ")" == title + (" (" + tag + ")")
  {
  }

  /**
   * A title followed by one parenthesised tag and an extension has the
   * lower-cased title as its key.
   */
  lemma TaggedTitleKey(title: string, tag: string, ext: string)
    requires title != [] && !IsSpace(title[0]) && !IsTrailingJunk(title[|title| - 1])
    requires forall k :: 0 <= k < |title| ==> !IsOpener(title[k]) && title[k] != '+'
    requires !SequelGuard(title)
    requires forall k :: 0 <= k < |tag| ==> InTag(tag[k])
    requires '.' !in ext
    ensures GetBaseName(title + " (" + tag + ")." + ext) == Lower(title)
  {
    TaggedNameSplit(title, tag, ext);
    var stem := title + " (" + tag + ")";
    StripExtensionOf(stem, ext);
    RemoveTagsPlainPrefix(title, " (" + tag + ")");
    RemoveTagsLeadingTag(" ", '(', tag, ')', "");
    assert RemoveTags(stem) == title by {
      assert title + [] == title;
    }
    assert BeforeFirstPlus(title) == title;
    CleanupOfCleanTitle(title);
  }

  lemma SequelNameSplit(title: string, n: string)
    ensures (title + " " + n)[..|title|] == title
    ensures (title + " " + n)[|title| + 1..] == n
    ensures (title + " " + n)[|title|] == ' '
    ensures forall k :: 0 <= k < |title| ==> (title + " " + n)[k] == title[k]
  {
  }

  /**
   * On a long title with a separator, a final numeral goes together with the
   * whitespace before it.
   */
  lemma StripSequelDropsNumeral(title: string, n: string)
    requires title != [] && !IsSpace(title[|title| - 1])
    requires IsSequelNumeral(n) && SequelGuard(title + " " + n)
    ensures StripSequel(title + " " + n) == title
  {
    var s := title + " " + n;
    SequelNameSplit(title, n);
    SequelNumeralHasNoSpace(n);
    assert forall k :: |title| < k < |s| ==> !IsSpace(s[k]) by {
      forall k | |title| < k < |s|
        ensures !IsSpace(s[k])
      {
        assert s[k] == s[|title| + 1..][k - |title| - 1];
      }
    }
    SequelCutAtLastSpace(s, |title|);
  }

  /**
   * A single whitespace character after non-whitespace, followed by a
   * numeral that runs to the end, is where the sequel stage cuts.
   */
  lemma SequelCutAtLastSpace(s: string, m: nat)
    requires 0 < m < |s| - 1 && IsSpace(s[m]) && !IsSpace(s[m - 1])
    requires forall k :: m < k < |s| ==> !IsSpace(s[k])
    requires IsSequelNumeral(s[m + 1..])
    ensures SequelCut(s) == m
  {
    SkipBackStopsAt(s, m + 1, |s|, IsNotSpace);
    SkipBackStopsAt(s, m, m + 1, IsSpace);
  }

  /** Every stage keeps or shortens the text, and the extension always goes. */
  lemma DottedNameShrinks(s: string)
    requires exists k :: 0 < k < |s| && s[k] == '.'
    ensures |GetBaseName(s)| < |s|
  {
    var name := StripExtension(s);
    var title := BeforeFirstPlus(RemoveTags(name));
    assert |StripSequel(title)| <= |title|;
  }

  /**
   * getBaseName is not idempotent: a key that still holds a '.' after its
   * first character is shortened again by a second pass.
   */
  lemma KeyWithDotIsNotFixed(filename: string)
    requires exists k :: 0 < k < |GetBaseName(filename)| && GetBaseName(filename)[k] == '.'
    ensures GetBaseName(GetBaseName(filename)) != GetBaseName(filename)
  {
    DottedNameShrinks(GetBaseName(filename));
  }

  /**
   * A title without tags, '+' or a long-title separator, followed by an
   * extension, has the lower-cased title as its key: a numeral at its end stays.
   */
  lemma PlainTitleKey(title: string, ext: string)
    requires title != [] && !IsSpace(title[0]) && !IsTrailingJunk(title[|title| - 1])
    requires forall k :: 0 <= k < |title| ==> !IsOpener(title[k]) && title[k] != '+'
    requires !SequelGuard(title)
    requires '.' !in ext
    ensures GetBaseName(title + "." + ext) == Lower(title)
  {
    StripExtensionOf(title, ext);
    assert RemoveTags(title) == title;
    assert BeforeFirstPlus(title) == title;
    CleanupOfCleanTitle(title);
  }

  /**
   * A long title with a separator, then a numeral and an extension, has the
   * lower-cased title without the numeral as its key.
   */
  lemma SequelTitleKey(title: string, n: string, ext: string)
    requires title != [] && !IsSpace(title[0]) && !IsTrailingJunk(title[|title| - 1])
    requires forall k :: 0 <= k < |title| ==> !IsOpener(title[k]) && title[k] != '+'
    requires IsSequelNumeral(n) && SequelGuard(title + " " + n)
    requires '.' !in ext
    ensures GetBaseName(title + " " + n + "." + ext) == Lower(title)
  {
    var t := title + " " + n;
    SequelNameIsPlain(title, n);
    StripExtensionOf(t, ext);
    StripSequelDropsNumeral(title, n);
    CleanupOfCleanTitle(title);
  }

  /** A title, a space and a numeral hold no bracket or `+`, so the tag and `+` stages keep them. */
  lemma SequelNameIsPlain(title: string, n: string)
    requires forall k :: 0 <= k < |title| ==> !IsOpener(title[k]) && title[k] != '+'
    requires IsSequelNumeral(n)
    ensures RemoveTags(title + " " + n) == title + " " + n
    ensures BeforeFirstPlus(title + " " + n) == title + " " + n
  {
    var t := title + " " + n;
    SequelNameSplit(title, n);
    SequelNumeralHasNoSpace(n);
    forall k | 0 <= k < |t|
      ensures !IsOpener(t[k]) && t[k] != '+'
    {
      if k > |title| {
        assert t[k] == n[k - |title| - 1];
      }
    }
  }


  /** "R-Type II" is clean at both ends, has no bracket or `+`, and is too short for the sequel guard. */
  lemma RTypeIsUnguardedTitle()
    ensures "R-Type II" + "." + "rom" == "R-Type II.rom"
    ensures Lower("R-Type II") == "r-type ii"
    ensures !IsSpace("R-Type II"[0]) && !IsTrailingJunk("R-Type II"[|"R-Type II"| - 1])
    ensures forall k :: 0 <= k < |"R-Type II"| ==> !IsOpener("R-Type II"[k]) && "R-Type II"[k] != '+'
    ensures !SequelGuard("R-Type II")
  {
  }

  /** "Super Game" is a clean, unguarded title and "USA" is plain tag text. */
  lemma SuperGameIsPlainTitle()
    ensures "Super Game" + " (" + "USA" + ")." + "rom" == "Super Game (USA).rom"
    ensures Lower("Super Game") == "super game"
    ensures !IsSpace("Super Game"[0]) && !IsTrailingJunk("Super Game"[|"Super Game"| - 1])
    ensures forall k :: 0 <= k < |"Super Game"| ==> !IsOpener("Super Game"[k]) && "Super Game"[k] != '+'
    ensures !SequelGuard("Super Game")
    ensures forall k :: 0 <= k < |"USA"| ==> InTag("USA"[k])
  {
  }

  /** "Long Title - Subtitle" is clean, and with " II" it passes the sequel guard. */
  lemma LongSubtitleIsGuardedSequel()
    ensures "Long Title - Subtitle" + " " + "II" + "." + "rom" == "Long Title - Subtitle II.rom"
    ensures Lower("Long Title - Subtitle") == "long title - subtitle"
    ensures IsSequelNumeral("II")
    ensures !IsSpace("Long Title - Subtitle"[0]) && !IsTrailingJunk("Long Title - Subtitle"[|"Long Title - Subtitle"| - 1])
    ensures forall k :: 0 <= k < |"Long Title - Subtitle"| ==> !IsOpener("Long Title - Subtitle"[k]) && "Long Title - Subtitle"[k] != '+'
    ensures SequelGuard("Long Title - Subtitle" + " " + "II")
  {
    assert Lower("II") == "ii";
  }

  /** "Super Mario Bros. 3" is a clean title without the separator the guard needs. */
  lemma MarioNameIsPlainTitle()
    ensures "Super Mario Bros. 3" + "." + "nes" == "Super Mario Bros. 3.nes"
    ensures Lower("Super Mario Bros. 3") == "super mario bros. 3"
    ensures !IsSpace("Super Mario Bros. 3"[0]) && !IsTrailingJunk("Super Mario Bros. 3"[|"Super Mario Bros. 3"| - 1])
    ensures forall k :: 0 <= k < |"Super Mario Bros. 3"| ==> !IsOpener("Super Mario Bros. 3"[k]) && "Super Mario Bros. 3"[k] != '+'
    ensures !SequelGuard("Super Mario Bros. 3")
  {
  }

  /** "super mario bros" is a clean title, and ". 3" reads as its extension. */
  lemma MarioKeyIsPlainTitle()
    ensures "super mario bros" + "." + " 3" == "super mario bros. 3"
    ensures Lower("super mario bros") == "super mario bros"
    ensures !IsSpace("super mario bros"[0]) && !IsTrailingJunk("super mario bros"[|"super mario bros"| - 1])
    ensures forall k :: 0 <= k < |"super mario bros"| ==> !IsOpener("super mario bros"[k]) && "super mario bros"[k] != '+'
    ensures !SequelGuard("super mario bros")
  {
  }

  /** "R-Type II" is too short for the sequel stage, so its numeral stays. */
  lemma ShortSequelTitleKept()
    ensures GetBaseName("R-Type II.rom") == "r-type ii"
  {
    RTypeIsUnguardedTitle();
    PlainTitleKey("R-Type II", "rom");
  }

  /** A region tag goes with the space before it. */
  lemma RegionTagDropped()
    ensures GetBaseName("Super Game (USA).rom") == "super game"
  {
    SuperGameIsPlainTitle();
    TaggedTitleKey("Super Game", "USA", "rom");
  }

  /** A long title with a separator loses its final Roman numeral. */
  lemma LongSequelTitleStripped()
    ensures GetBaseName("Long Title - Subtitle II.rom") == "long title - subtitle"
  {
    LongSubtitleIsGuardedSequel();
    SequelTitleKey("Long Title - Subtitle", "II", "rom");
  }

  /**
   * The key "super mario bros. 3" is not a fixed point: a second pass takes
   * ". 3" for an extension.
   */
  lemma SecondPassChangesKey()
    ensures GetBaseName("Super Mario Bros. 3.nes") == "super mario bros. 3"
    ensures GetBaseName("super mario bros. 3") == "super mario bros"
  {
    MarioFirstPass();
    MarioSecondPass();
  }

  /** The first pass keeps "Bros." and the numeral: the title is too short for the guard. */
  lemma MarioFirstPass()
    ensures GetBaseName("Super Mario Bros. 3.nes") == "super mario bros. 3"
  {
    MarioNameIsPlainTitle();
    PlainTitleKey("Super Mario Bros. 3", "nes");
  }

  /** The second pass drops everything from the '.' on. */
  lemma MarioSecondPass()
    ensures GetBaseName("super mario bros. 3") == "super mario bros"
  {
    MarioKeyIsPlainTitle();
    PlainTitleKey("super mario bros", " 3");
  }
}
