/**
 * The multi-part classifier: a file whose name carries a disc, disk, side,
 * part, ... marker belongs to a multi-file release and is never offered as a
 * duplicate.
 *
 * Each regular expression of the pattern table is a case-insensitive search
 * anywhere in the name. It is modelled twice: once as the scanner a
 * backtracking engine amounts to for these patterns (greedy runs, because the
 * classes that follow each other are disjoint), and once as the set of
 * decompositions the regular expression describes. MatchesIffRegex proves the
 * two agree.
 */
module MultiPart {
  import opened JsText

  /** One entry of the pattern table; every rule carries the `i` flag. */
  datatype Rule =
      /** `\(keyword\s*[mark]+\)` */
    | Bracketed(keyword: string, mark: char -> bool)
      /** `\(first\s*second\)` */
    | BracketedPhrase(first: string, second: string)
      /** `(?:k1|k2|...)\s*[\dIVX]+`, anywhere in the name */
    | Loose(keywords: seq<string>)

  /** `[AB\d]` under the `i` flag. */
  predicate IsSideMark(c: char) {
    IsDigit(c) || LowerChar(c) == 'a' || LowerChar(c) == 'b'
  }

  /** `[\dIVX]` under the `i` flag: lower-case i, v and x match too. */
  predicate IsNumeralMark(c: char) {
    IsDigit(c) || LowerChar(c) == 'i' || LowerChar(c) == 'v' || LowerChar(c) == 'x'
  }

  /** The pattern table, in order. */
  const Patterns: seq<Rule> := [
    Bracketed("disc", IsDigit),
    Bracketed("disk", IsDigit),
    Bracketed("side", IsSideMark),
    Bracketed("part", IsDigit),
    Bracketed("cart", IsDigit),
    Bracketed("tape", IsDigit),
    Bracketed("book", IsDigit),
    BracketedPhrase("mission", "disk"),
    Loose(["disc", "disk", "part", "vol", "volume", "side", "scenery disk"])
  ]

  /** The lower-case literal `lit` occurs at `i`, ignoring ASCII case. */
  predicate HasAt(s: string, i: nat, lit: string) {
    i + |lit| <= |s| && Lower(s[i..i + |lit|]) == lit
  }

  /** Every character of s[x..y] is in class `p`. */
  ghost predicate AllIn(s: string, x: nat, y: nat, p: char -> bool)
    requires x <= y <= |s|
  {
    forall k :: x <= k < y ==> p(s[k])
  }

  /** The rule matches the text starting at `i`, scanned greedily. */
  predicate MatchesAt(r: Rule, s: string, i: nat)
    requires i <= |s|
  {
    match r
    case Bracketed(kw, mark) => BracketedAt(s, i, kw, mark)
    case BracketedPhrase(w1, w2) => PhraseAt(s, i, w1, w2)
    case Loose(kws) => exists w :: 0 <= w < |kws| && LooseAt(s, i, kws[w])
  }

  /** `\(kw\s*[mark]+\)` matches starting at `i`. */
  predicate BracketedAt(s: string, i: nat, kw: string, mark: char -> bool)
    requires i <= |s|
  {
    HasAt(s, i, "(" + kw) &&
    var a := SkipForward(s, i + 1 + |kw|, IsSpace);
    var b := SkipForward(s, a, mark);
    a < b < |s| && s[b] == ')'
  }

  /** `\(w1\s*w2\)` matches starting at `i`. */
  predicate PhraseAt(s: string, i: nat, w1: string, w2: string)
    requires i <= |s|
  {
    HasAt(s, i, "(" + w1) &&
    HasAt(s, SkipForward(s, i + 1 + |w1|, IsSpace), w2 + ")")
  }

  /** One keyword of the loose rule, then optional whitespace, then a mark. */
  predicate LooseAt(s: string, i: nat, kw: string)
    requires i <= |s|
  {
    HasAt(s, i, kw) &&
    var a := SkipForward(s, i + |kw|, IsSpace);
    a < |s| && IsNumeralMark(s[a])
  }

  /**
   * The rule matches starting at `i` in the sense of the regular expression:
   * the text there splits into the literal, a (possibly empty) run of
   * whitespace, a non-empty run of marks and whatever the rule ends with.
   */
  ghost predicate RegexMatchAt(r: Rule, s: string, i: nat)
    requires i <= |s|
  {
    match r
    case Bracketed(kw, mark) => BracketedRegexAt(s, i, kw, mark)
    case BracketedPhrase(w1, w2) => PhraseRegexAt(s, i, w1, w2)
    case Loose(kws) =>
      exists w :: 0 <= w < |kws| && LooseRegexAt(s, i, kws[w])
  }

  ghost predicate BracketedRegexAt(s: string, i: nat, kw: string, mark: char -> bool)
    requires i <= |s|
  {
    HasAt(s, i, "(" + kw) &&
    exists a, b :: i + 1 + |kw| <= a < b < |s| && AllIn(s, i + 1 + |kw|, a, IsSpace)
                   && AllIn(s, a, b, mark) && s[b] == ')'
  }

  ghost predicate PhraseRegexAt(s: string, i: nat, w1: string, w2: string)
    requires i <= |s|
  {
    HasAt(s, i, "(" + w1) &&
    exists a :: i + 1 + |w1| <= a <= |s| && AllIn(s, i + 1 + |w1|, a, IsSpace) && HasAt(s, a, w2 + ")")
  }

  /** `kw\s*[\dIVX]+` matches starting at `i`. */
  ghost predicate LooseRegexAt(s: string, i: nat, kw: string)
    requires i <= |s|
  {
    HasAt(s, i, kw) &&
    exists a, b :: i + |kw| <= a < b <= |s| && AllIn(s, i + |kw|, a, IsSpace) && AllIn(s, a, b, IsNumeralMark)
  }

  /** isMultiPart: some rule of the table matches somewhere in the name. */
  predicate IsMultiPart(name: string) {
    exists p, i :: 0 <= p < |Patterns| && 0 <= i <= |name| && MatchesAt(Patterns[p], name, i)
  }

  /**
   * What the scanner relies on: the marks of a rule are case-blind, are not
   * whitespace and do not include the closing parenthesis; a phrase's second
   * word does not start with whitespace.
   */
  ghost predicate WellFormed(r: Rule) {
    match r
    case Bracketed(kw, mark) =>
      CaseBlind(mark) && !mark(')') && forall c :: mark(c) ==> !IsSpace(c)
    case BracketedPhrase(w1, w2) =>
      |w2| > 0 && !IsSpace(w2[0])
    case Loose(kws) =>
      true
  }

  lemma NumeralMarkIsCaseBlind()
    ensures CaseBlind(IsNumeralMark)
  {
  }

  lemma SideMarkIsCaseBlind()
    ensures CaseBlind(IsSideMark)
  {
  }

  lemma DigitIsCaseBlind()
    ensures CaseBlind(IsDigit)
  {
  }

  lemma PatternsWellFormed(p: nat)
    requires p < |Patterns|
    ensures WellFormed(Patterns[p])
  {
    DigitIsCaseBlind();
    SideMarkIsCaseBlind();
    if p == 7 {
      assert Patterns[p] == BracketedPhrase("mission", "disk");
    }
  }

  lemma BracketedIffRegex(kw: string, mark: char -> bool, s: string, i: nat)
    requires WellFormed(Bracketed(kw, mark)) && i <= |s|
    ensures BracketedAt(s, i, kw, mark) <==> BracketedRegexAt(s, i, kw, mark)
  {
    var x := i + 1 + |kw|;
    if BracketedRegexAt(s, i, kw, mark) {
      var a, b :| x <= a < b < |s| && AllIn(s, x, a, IsSpace) && AllIn(s, a, b, mark) && s[b] == ')';
      assert mark(s[a]);
      SkipForwardStopsAt(s, x, a, IsSpace);
      SkipForwardStopsAt(s, a, b, mark);
    }
    if BracketedAt(s, i, kw, mark) {
      var a := SkipForward(s, x, IsSpace);
      var b := SkipForward(s, a, mark);
      assert AllIn(s, x, a, IsSpace) && AllIn(s, a, b, mark);
    }
  }

  lemma PhraseIffRegex(w1: string, w2: string, s: string, i: nat)
    requires WellFormed(BracketedPhrase(w1, w2)) && i <= |s|
    ensures PhraseAt(s, i, w1, w2) <==> PhraseRegexAt(s, i, w1, w2)
  {
    var x := i + 1 + |w1|;
    if PhraseRegexAt(s, i, w1, w2) {
      var a :| x <= a <= |s| && AllIn(s, x, a, IsSpace) && HasAt(s, a, w2 + ")");
      assert Lower(s[a..a + |w2| + 1])[0] == LowerChar(s[a]) == w2[0];
      SkipForwardStopsAt(s, x, a, IsSpace);
    }
    if PhraseAt(s, i, w1, w2) {
      var a := SkipForward(s, x, IsSpace);
      assert AllIn(s, x, a, IsSpace);
    }
  }

  lemma LooseKeywordIffRegex(s: string, i: nat, kw: string)
    requires i <= |s|
    ensures LooseAt(s, i, kw) <==> LooseRegexAt(s, i, kw)
  {
    if LooseRegexAt(s, i, kw) {
      var a, b :| i + |kw| <= a < b <= |s| && AllIn(s, i + |kw|, a, IsSpace) && AllIn(s, a, b, IsNumeralMark);
      assert IsNumeralMark(s[a]);
      SkipForwardStopsAt(s, i + |kw|, a, IsSpace);
    }
    if LooseAt(s, i, kw) {
      var a := SkipForward(s, i + |kw|, IsSpace);
      assert AllIn(s, i + |kw|, a, IsSpace) && AllIn(s, a, a + 1, IsNumeralMark);
    }
  }

  lemma LooseIffRegex(kws: seq<string>, s: string, i: nat)
    requires i <= |s|
    ensures MatchesAt(Loose(kws), s, i) <==> RegexMatchAt(Loose(kws), s, i)
  {
    forall w | 0 <= w < |kws|
      ensures LooseAt(s, i, kws[w]) <==> LooseRegexAt(s, i, kws[w])
    {
      LooseKeywordIffRegex(s, i, kws[w]);
    }
  }

  /** The scanner and the regular expression agree. */
  lemma MatchesIffRegex(r: Rule, s: string, i: nat)
    requires WellFormed(r) && i <= |s|
    ensures MatchesAt(r, s, i) <==> RegexMatchAt(r, s, i)
  {
    match r
    case Bracketed(kw, mark) => BracketedIffRegex(kw, mark, s, i);
    case BracketedPhrase(w1, w2) => PhraseIffRegex(w1, w2, s, i);
    case Loose(kws) => LooseIffRegex(kws, s, i);
  }

  /** isMultiPart holds exactly when one of the table's regular expressions occurs in the name. */
  lemma IsMultiPartIffOccurs(name: string)
    ensures IsMultiPart(name) <==>
            exists p, i :: 0 <= p < |Patterns| && 0 <= i <= |name| && RegexMatchAt(Patterns[p], name, i)
  {
    forall p, i | 0 <= p < |Patterns| && 0 <= i <= |name|
      ensures MatchesAt(Patterns[p], name, i) <==> RegexMatchAt(Patterns[p], name, i)
    {
      PatternsWellFormed(p);
      MatchesIffRegex(Patterns[p], name, i);
    }
  }

  lemma HasAtLower(s: string, i: nat, lit: string)
    ensures HasAt(Lower(s), i, lit) == HasAt(s, i, lit)
  {
    if i + |lit| <= |s| {
      LowerSlice(s, i, i + |lit|);
      LowerIdempotent(s[i..i + |lit|]);
    }
  }

  lemma LooseAtLower(s: string, i: nat, kw: string)
    requires i <= |s|
    ensures LooseAt(Lower(s), i, kw) == LooseAt(s, i, kw)
  {
    SpaceIsCaseBlind();
    NumeralMarkIsCaseBlind();
    HasAtLower(s, i, kw);
    if i + |kw| <= |s| {
      SkipForwardLower(s, i + |kw|, IsSpace);
    }
  }

  lemma BracketedAtLower(kw: string, mark: char -> bool, s: string, i: nat)
    requires WellFormed(Bracketed(kw, mark)) && i <= |s|
    ensures BracketedAt(Lower(s), i, kw, mark) == BracketedAt(s, i, kw, mark)
  {
    SpaceIsCaseBlind();
    HasAtLower(s, i, "(" + kw);
    if i + 1 + |kw| <= |s| {
      SkipForwardLower(s, i + 1 + |kw|, IsSpace);
      SkipForwardLower(s, SkipForward(s, i + 1 + |kw|, IsSpace), mark);
    }
  }

  lemma PhraseAtLower(w1: string, w2: string, s: string, i: nat)
    requires i <= |s|
    ensures PhraseAt(Lower(s), i, w1, w2) == PhraseAt(s, i, w1, w2)
  {
    HasAtLower(s, i, "(" + w1);
    if i + 1 + |w1| <= |s| {
      SpaceIsCaseBlind();
      SkipForwardLower(s, i + 1 + |w1|, IsSpace);
      var a := SkipForward(s, i + 1 + |w1|, IsSpace);
      assert SkipForward(Lower(s), i + 1 + |w1|, IsSpace) == a;
      HasAtLower(s, a, w2 + ")");
    }
  }

  lemma MatchesAtLower(r: Rule, s: string, i: nat)
    requires WellFormed(r) && i <= |s|
    ensures MatchesAt(r, Lower(s), i) == MatchesAt(r, s, i)
  {
    match r
    case Bracketed(kw, mark) => BracketedAtLower(kw, mark, s, i);
    case BracketedPhrase(w1, w2) => PhraseAtLower(w1, w2, s, i);
    case Loose(kws) =>
      forall w | 0 <= w < |kws|
        ensures LooseAt(Lower(s), i, kws[w]) == LooseAt(s, i, kws[w])
      {
        LooseAtLower(s, i, kws[w]);
      }
  }

  /** Upper- or lower-case spellings of a name are classified alike. */
  lemma IsMultiPartIgnoresCase(name: string)
    ensures IsMultiPart(Lower(name)) == IsMultiPart(name)
  {
    forall p, i | 0 <= p < |Patterns| && 0 <= i <= |name|
      ensures MatchesAt(Patterns[p], Lower(name), i) == MatchesAt(Patterns[p], name, i)
    {
      PatternsWellFormed(p);
      MatchesAtLower(Patterns[p], name, i);
    }
  }

  /** A bracketed disc number marks a multi-part release. */
  lemma DiscMarkerIsMultiPart()
    ensures IsMultiPart("Mission Pack (Disc 2).rom")
  {
    var s := "Mission Pack (Disc 2).rom";
    assert s[13..18] == "(Disc" && Lower("(Disc") == "(disc";
    assert SkipForward(s, 18, IsSpace) == 19;
    assert SkipForward(s, 19, IsDigit) == 20;
    assert BracketedAt(s, 13, "disc", IsDigit);
    assert MatchesAt(Patterns[0], s, 13);
  }

  /** The loose rule also fires inside ordinary words: "Part" followed by "i". */
  lemma LooseRuleMatchesInsideWords()
    ensures IsMultiPart("Particle Storm (USA).rom")
  {
    var s := "Particle Storm (USA).rom";
    assert s[0..4] == "Part" && Lower("Part") == "part";
    assert SkipForward(s, 4, IsSpace) == 4;
    assert LooseAt(s, 0, "part");
    assert Patterns[8].keywords[2] == "part";
    assert MatchesAt(Patterns[8], s, 0);
  }

  /** ... and "vol" followed by "v". */
  lemma LooseRuleMatchesVolInsideWords()
    ensures IsMultiPart("Revolver (Europe).rom")
  {
    var s := "Revolver (Europe).rom";
    assert s[2..5] == "vol" && Lower("vol") == "vol";
    assert SkipForward(s, 5, IsSpace) == 5;
    assert LooseAt(s, 2, "vol");
    assert Patterns[8].keywords[3] == "vol";
    assert MatchesAt(Patterns[8], s, 2);
  }

  /** A literal found at `i` starts with the lower-cased character at `i`. */
  lemma HasAtFirst(s: string, i: nat, lit: string)
    requires lit != [] && HasAt(s, i, lit)
    ensures LowerChar(s[i]) == lit[0]
  {
    assert Lower(s[i..i + |lit|])[0] == LowerChar(s[i]);
  }

  /** The eight bracketed rules match only where the name has a `(`. */
  lemma BracketedRuleNeedsOpener(s: string, p: nat, i: nat)
    requires p < 8 && i <= |s| && MatchesAt(Patterns[p], s, i)
    ensures i < |s| && s[i] == '('
  {
    var r := Patterns[p];
    var w := if r.Bracketed? then r.keyword else r.first;
    HasAtFirst(s, i, "(" + w);
  }

  /** The loose rule matches at `i` with keyword `k` only where the name holds the keyword's initial. */
  lemma LooseRuleNeedsInitial(s: string, i: nat, k: nat)
    requires k < |Patterns[8].keywords| && i <= |s| && LooseAt(s, i, Patterns[8].keywords[k])
    ensures i < |s| && LowerChar(s[i]) == Patterns[8].keywords[k][0]
  {
    HasAtFirst(s, i, Patterns[8].keywords[k]);
  }

  /** Where "Game Vol. 1.rom" has a `(` or a keyword initial, and what follows its "Vol". */
  lemma DottedVolumeSpelling()
    ensures var s := "Game Vol. 1.rom";
      && (forall k :: 0 <= k < |s| ==> s[k] != '(')
      && (forall k :: 0 <= k < |s| && k != 5 ==> LowerChar(s[k]) !in "dpsv")
      && !HasAt(s, 5, "volume") && !LooseAt(s, 5, "vol")
  {
    var s := "Game Vol. 1.rom";
    assert s[5..11] == "Vol. 1";
    assert SkipForward(s, 8, IsSpace) == 8;
  }

  /** Only position 5 of the name holds the initial of a loose keyword, and only of "vol" and "volume". */
  lemma DottedVolumeInitial(i: nat, k: nat)
    requires k < |Patterns[8].keywords| && i < |"Game Vol. 1.rom"|
    requires LowerChar("Game Vol. 1.rom"[i]) == Patterns[8].keywords[k][0]
    ensures i == 5 && Patterns[8].keywords[k] in ["vol", "volume"]
  {
    DottedVolumeSpelling();
  }

  /**
   * A dotted "Vol." followed by a number is caught by no rule: the loose
   * rule needs the number (or a roman mark) right after "vol" and its spaces.
   */
  lemma DottedVolumeIsNotMultiPart()
    ensures !IsMultiPart("Game Vol. 1.rom")
  {
    var s := "Game Vol. 1.rom";
    DottedVolumeSpelling();
    forall p, i | 0 <= p < |Patterns| && 0 <= i <= |s|
      ensures !MatchesAt(Patterns[p], s, i)
    {
      if p < 8 {
        if MatchesAt(Patterns[p], s, i) {
          BracketedRuleNeedsOpener(s, p, i);
          assert false;
        }
      } else {
        var kws := Patterns[8].keywords;
        forall k | 0 <= k < |kws|
          ensures !LooseAt(s, i, kws[k])
        {
          if LooseAt(s, i, kws[k]) {
            LooseRuleNeedsInitial(s, i, k);
            DottedVolumeInitial(i, k);
            assert false;
          }
        }
      }
    }
  }
}
