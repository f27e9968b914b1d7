/** The per-utterance classifiers: `narrative_detector` and
    `question_detector` (src/parameterizer.py), their root-level twins
    `narrativeDetector` and `questionDetector` (parameterizer.py), and the
    score-vector filter `maskFilter` (parameterizer.py and analyzer.py). */
module Classifiers {
  import opened Basics

  // ---------------------------------------------------------------------
  // Tokenising: re.split with a capturing one-character separator class

  /** Index of the first separator in `s`, or `|s|` if there is none. */
  function FirstSep(s: string, sep: char -> bool): (p: nat)
    ensures p <= |s|
  {
    if s == [] || sep(s[0]) then 0 else 1 + FirstSep(s[1..], sep)
  }

  lemma {:induction false} FirstSepSpec(s: string, sep: char -> bool)
    ensures forall i | 0 <= i < FirstSep(s, sep) :: !sep(s[i])
    ensures FirstSep(s, sep) < |s| ==> sep(s[FirstSep(s, sep)])
  {
    if s != [] && !sep(s[0]) {
      FirstSepSpec(s[1..], sep);
    }
  }

  /** `re.split(r'(sep)', s)`: the pieces between separators, with each
      separator kept as a one-character string between its two pieces. */
  function SplitKeep(s: string, sep: char -> bool): (r: seq<string>)
    ensures r != []
    decreases |s|
  {
    var p := FirstSep(s, sep);
    if p == |s| then [s] else [s[..p], [s[p]]] + SplitKeep(s[p + 1..], sep)
  }

  function Join(pieces: seq<string>): string {
    if pieces == [] then [] else pieces[0] + Join(pieces[1..])
  }

  predicate SepFree(w: string, sep: char -> bool) {
    forall i | 0 <= i < |w| :: !sep(w[i])
  }

  lemma JoinStep(a: string, b: string, rest: seq<string>)
    ensures Join([a, b] + rest) == a + b + Join(rest)
  {
    assert ([a, b] + rest)[1..] == [b] + rest;
    assert ([b] + rest)[1..] == rest;
  }

  /** The split loses nothing: joining its pieces gives the text back. */
  lemma {:induction false} SplitKeepJoin(s: string, sep: char -> bool)
    ensures Join(SplitKeep(s, sep)) == s
    decreases |s|
  {
    var p := FirstSep(s, sep);
    if p < |s| {
      var rest := SplitKeep(s[p + 1..], sep);
      calc {
        Join(SplitKeep(s, sep));
        Join([s[..p], [s[p]]] + rest);
        { JoinStep(s[..p], [s[p]], rest); }
        s[..p] + [s[p]] + Join(rest);
        { SplitKeepJoin(s[p + 1..], sep); }
        s[..p] + [s[p]] + s[p + 1..];
        { assert s == s[..p] + [s[p]] + s[p + 1..]; }
        s;
      }
    } else {
      assert SplitKeep(s, sep) == [s];
      assert [s][1..] == [];
    }
  }

  /** The pieces at even positions hold no separator; those at odd
      positions are single separators. */
  lemma {:induction false} SplitKeepPieces(s: string, sep: char -> bool)
    ensures forall i | 0 <= i < |SplitKeep(s, sep)| ::
      if i % 2 == 0 then SepFree(SplitKeep(s, sep)[i], sep)
      else |SplitKeep(s, sep)[i]| == 1 && sep(SplitKeep(s, sep)[i][0])
    decreases |s|
  {
    var p := FirstSep(s, sep);
    FirstSepSpec(s, sep);
    if p < |s| {
      var rest := SplitKeep(s[p + 1..], sep);
      SplitKeepPieces(s[p + 1..], sep);
      var r := [s[..p], [s[p]]] + rest;
      assert r == SplitKeep(s, sep);
      forall i | 0 <= i < |r|
        ensures if i % 2 == 0 then SepFree(r[i], sep) else |r[i]| == 1 && sep(r[i][0])
      {
        if i >= 2 {
          assert r[i] == rest[i - 2];
        }
      }
    }
  }

  /** `w` stands in `s` at `i` as a whole word: it is preceded by the start
      or a separator and followed by the end or a separator. */
  predicate WordAt(s: string, i: nat, w: string, sep: char -> bool) {
    && i + |w| <= |s|
    && s[i..i + |w|] == w
    && (i == 0 || sep(s[i - 1]))
    && (i + |w| == |s| || sep(s[i + |w|]))
  }

  predicate HasWord(s: string, w: string, sep: char -> bool) {
    exists i | 0 <= i <= |s| :: WordAt(s, i, w, sep)
  }

  /** In a text without separators the only whole word is the text itself. */
  lemma WordInSepFree(s: string, w: string, sep: char -> bool)
    requires FirstSep(s, sep) == |s|
    ensures HasWord(s, w, sep) <==> w == s
  {
    FirstSepSpec(s, sep);
    if HasWord(s, w, sep) {
      var i :| 0 <= i <= |s| && WordAt(s, i, w, sep);
      assert i == 0;
      assert s[..|w|] == s;
    } else {
      assert !WordAt(s, 0, w, sep);
    }
  }

  /** A whole word at the start of `s` ends at the first separator. */
  lemma WordAtStart(s: string, w: string, sep: char -> bool)
    requires w != [] && SepFree(w, sep) && WordAt(s, 0, w, sep)
    ensures w == s[..FirstSep(s, sep)]
  {
    FirstSepSpec(s, sep);
    assert s[..|w|] == w;
  }

  /** Whole words of a suffix `s[d..]` that follows a separator are whole
      words of `s`, shifted by `d`, and conversely. */
  lemma WordShift(s: string, w: string, sep: char -> bool, d: nat, j: nat)
    requires 0 < d <= |s| && sep(s[d - 1])
    ensures WordAt(s, j + d, w, sep) <==> WordAt(s[d..], j, w, sep)
  {
    var t := s[d..];
    var i := j + d;
    if j + |w| <= |t| {
      assert s[i..i + |w|] == t[j..j + |w|];
      if j + |w| < |t| {
        assert s[i + |w|] == t[j + |w|];
      }
    }
    if 0 < j <= |t| {
      assert s[i - 1] == t[j - 1];
    }
  }

  /** A whole word other than at the start lies past the first separator. */
  lemma WordNotAtStart(s: string, w: string, sep: char -> bool, i: nat)
    requires 0 < i && WordAt(s, i, w, sep)
    ensures FirstSep(s, sep) < i
  {
    FirstSepSpec(s, sep);
    assert sep(s[i - 1]);
  }

  lemma InConcat(w: string, a: string, b: string, rest: seq<string>)
    ensures w in [a, b] + rest <==> w == a || w == b || w in rest
  {
  }

  /** One step of the split: the piece before the first separator, the
      separator, and the split of the rest. */
  lemma SplitKeepStep(s: string, w: string, sep: char -> bool)
    requires FirstSep(s, sep) < |s| && w != [] && SepFree(w, sep)
    ensures var p := FirstSep(s, sep);
      w in SplitKeep(s, sep) <==> w == s[..p] || w in SplitKeep(s[p + 1..], sep)
  {
    var p := FirstSep(s, sep);
    FirstSepSpec(s, sep);
    var rest := SplitKeep(s[p + 1..], sep);
    assert SplitKeep(s, sep) == [s[..p], [s[p]]] + rest;
    assert !sep(w[0]);
    InConcat(w, s[..p], [s[p]], rest);
  }

  /** A whole word of the text after a separator is a whole word of the text. */
  lemma WordAfterSep(s: string, w: string, sep: char -> bool, p: nat)
    requires p < |s| && sep(s[p]) && HasWord(s[p + 1..], w, sep)
    ensures HasWord(s, w, sep)
  {
    var t := s[p + 1..];
    var j :| 0 <= j <= |t| && WordAt(t, j, w, sep);
    WordShift(s, w, sep, p + 1, j);
    assert WordAt(s, j + p + 1, w, sep);
  }

  /** Every piece of the split stands in the text as a whole word. */
  lemma {:induction false} PieceIsWord(s: string, w: string, sep: char -> bool)
    requires w in SplitKeep(s, sep) && w != [] && SepFree(w, sep)
    ensures HasWord(s, w, sep)
    decreases |s|
  {
    var p := FirstSep(s, sep);
    FirstSepSpec(s, sep);
    if p == |s| {
      assert WordAt(s, 0, w, sep);
    } else {
      SplitKeepStep(s, w, sep);
      if w == s[..p] {
        assert WordAt(s, 0, w, sep);
      } else {
        PieceIsWord(s[p + 1..], w, sep);
        WordAfterSep(s, w, sep, p);
      }
    }
  }

  /** A whole word past the start is a whole word of the rest after the
      first separator. */
  lemma WordInRest(s: string, w: string, sep: char -> bool, i: nat)
    requires 0 < i && WordAt(s, i, w, sep)
    ensures FirstSep(s, sep) < i
    ensures WordAt(s[FirstSep(s, sep) + 1..], i - FirstSep(s, sep) - 1, w, sep)
  {
    WordNotAtStart(s, w, sep, i);
    var p := FirstSep(s, sep);
    FirstSepSpec(s, sep);
    WordShift(s, w, sep, p + 1, i - p - 1);
  }

  /** Every non-empty separator-free whole word of the text is a piece of the split. */
  lemma {:induction false} WordIsPiece(s: string, w: string, sep: char -> bool, i: nat)
    requires WordAt(s, i, w, sep) && w != [] && SepFree(w, sep)
    ensures w in SplitKeep(s, sep)
    decreases |s|
  {
    var p := FirstSep(s, sep);
    if p == |s| {
      WordInSepFree(s, w, sep);
    } else {
      SplitKeepStep(s, w, sep);
      if i == 0 {
        WordAtStart(s, w, sep);
      } else {
        WordInRest(s, w, sep, i);
        WordIsPiece(s[p + 1..], w, sep, i - p - 1);
      }
    }
  }

  /** Python's `word_set.intersection(words)` is non-empty. */
  predicate Mentions(tokens: seq<string>, words: set<string>) {
    exists i | 0 <= i < |tokens| :: tokens[i] in words
  }

  /** Non-empty words of lower-case ASCII letters. */
  predicate Keywords(words: set<string>) {
    forall w | w in words :: w != [] && forall i | 0 <= i < |w| :: 'a' <= w[i] <= 'z'
  }

  /** Separator classes that contain no lower-case ASCII letter. */
  predicate LetterFree(sep: char -> bool) {
    forall c: char | 'a' <= c <= 'z' :: !sep(c)
  }

  lemma KeywordSepFree(w: string, words: set<string>, sep: char -> bool)
    requires Keywords(words) && LetterFree(sep) && w in words
    ensures w != [] && SepFree(w, sep)
  {
  }

  /** Splitting and intersecting finds a keyword exactly when one of them
      stands in the text as a whole word. */
  lemma MentionsIffWord(s: string, words: set<string>, sep: char -> bool)
    requires Keywords(words) && LetterFree(sep)
    ensures Mentions(SplitKeep(s, sep), words) <==> exists w | w in words :: HasWord(s, w, sep)
  {
    var tokens := SplitKeep(s, sep);
    if Mentions(tokens, words) {
      var i :| 0 <= i < |tokens| && tokens[i] in words;
      KeywordSepFree(tokens[i], words, sep);
      PieceIsWord(s, tokens[i], sep);
    }
    if exists w | w in words :: HasWord(s, w, sep) {
      var w :| w in words && HasWord(s, w, sep);
      KeywordSepFree(w, words, sep);
      var i :| 0 <= i <= |s| && WordAt(s, i, w, sep);
      WordIsPiece(s, w, sep, i);
      var k :| 0 <= k < |tokens| && tokens[k] == w;
    }
  }

  // ---------------------------------------------------------------------
  // Narrative voice

  const ThirdPerson: set<string> := {
    "he", "him", "his", "she", "her", "hers", "they", "them", "their", "theirs",
    "themself", "themselves", "herself", "himself" }
  const SecondPerson: set<string> := {"you", "your", "yours", "yourself", "yourselves"}
  const FirstPerson: set<string> := {
    "i", "me", "my", "we", "our", "mine", "ours", "us", "myself", "ourselves" }

  /** `(\s|\'|,)`: the separators of the narrative split. */
  predicate NarrativeSep(c: char) {
    IsSpace(c) || c == '\'' || c == ','
  }

  /** The sentence lower-cased, with "you know" and "i'm like" removed. */
  function Cleaned(sentence: string): string {
    SubAlternatives(Lower(sentence), ["you know", "i'm like"], "")
  }

  /** `narrative_detector` / `narrativeDetector`: the narrative voice of a
      sentence, by the first pronoun set its words meet. */
  function Narrative(sentence: string): (r: string)
    ensures r in {"third", "second", "first", "passive", ""}
  {
    var cleaned := Cleaned(sentence);
    var tokens := SplitKeep(cleaned, NarrativeSep);
    if Mentions(tokens, ThirdPerson) then "third"
    else if Mentions(tokens, SecondPerson) then "second"
    else if Mentions(tokens, FirstPerson) then "first"
    else if |cleaned| > 1 then "passive"
    else ""
  }

  predicate Says(s: string, words: set<string>) {
    exists w | w in words :: HasWord(s, w, NarrativeSep)
  }

  lemma NarrativeSepLetterFree()
    ensures LetterFree(NarrativeSep)
  {
  }

  lemma ThirdPersonWords()
    ensures Keywords(ThirdPerson)
  {
  }

  lemma SecondPersonWords()
    ensures Keywords(SecondPerson)
  {
  }

  lemma FirstPersonWords()
    ensures Keywords(FirstPerson)
  {
  }

  /** The priority of the narrative voices, in terms of whole words of the
      cleaned sentence: third person over second, second over first, first
      over none; "" only for a pronoun-free cleaned sentence of at most
      one character. */
  lemma NarrativeSpec(sentence: string)
    ensures var c, r := Cleaned(sentence), Narrative(sentence);
      && (r == "third" <==> Says(c, ThirdPerson))
      && (r == "second" <==> !Says(c, ThirdPerson) && Says(c, SecondPerson))
      && (r == "first" <==> !Says(c, ThirdPerson) && !Says(c, SecondPerson) && Says(c, FirstPerson))
      && (r == "passive" <==> !Says(c, ThirdPerson) && !Says(c, SecondPerson) && !Says(c, FirstPerson) && |c| > 1)
      && (r == "" <==> !Says(c, ThirdPerson) && !Says(c, SecondPerson) && !Says(c, FirstPerson) && |c| <= 1)
  {
    var c := Cleaned(sentence);
    NarrativeSepLetterFree();
    ThirdPersonWords();
    SecondPersonWords();
    FirstPersonWords();
    MentionsIffWord(c, ThirdPerson, NarrativeSep);
    MentionsIffWord(c, SecondPerson, NarrativeSep);
    MentionsIffWord(c, FirstPerson, NarrativeSep);
  }

  lemma LowerIdempotent(s: string)
    ensures Lower(Lower(s)) == Lower(s)
  {
  }

  /** Capitals do not change the voice. */
  lemma NarrativeIgnoresCase(sentence: string)
    ensures Narrative(Lower(sentence)) == Narrative(sentence)
  {
    LowerIdempotent(sentence);
  }

  /** Text without separators is a single piece. */
  lemma {:induction false} SplitSepFree(s: string, sep: char -> bool)
    requires SepFree(s, sep)
    ensures FirstSep(s, sep) == |s| && SplitKeep(s, sep) == [s]
  {
    if s != [] {
      SplitSepFree(s[1..], sep);
    }
  }

  /** A separator-free word followed by a separator is split off. */
  lemma SplitAfterWord(w: string, c: char, rest: string, sep: char -> bool)
    requires SepFree(w, sep) && sep(c)
    ensures SplitKeep(w + [c] + rest, sep) == [w, [c]] + SplitKeep(rest, sep)
  {
    var s := w + [c] + rest;
    FirstSepSpec(s, sep);
    var p := FirstSep(s, sep);
    assert s[|w|] == c;
    assert forall k | 0 <= k < |w| :: s[k] == w[k];
    assert p == |w|;
    assert s[..p] == w && s[p + 1..] == rest;
  }

  /** Printable ASCII characters other than the apostrophe and the comma
      separate nothing. */
  predicate Plain(w: string) {
    forall k | 0 <= k < |w| :: '!' <= w[k] <= '~' && w[k] != '\'' && w[k] != ','
  }

  lemma PlainIsSepFree(w: string)
    requires Plain(w)
    ensures SepFree(w, NarrativeSep) && SepFree(w, QuestionSep)
  {
  }

  lemma YouKnowCleaned()
    ensures Cleaned("You know, sure") == ", sure"
  {
    assert Lower("You know, sure") == "you know, sure";
    assert FirstPrefix("you know, sure", ["you know", "i'm like"]) == Some(0);
    assert "you know, sure"[8..] == ", sure";
    SubUnstarted(", sure", ["you know", "i'm like"], "");
  }

  /** Three separator-free words around two separators split into five pieces. */
  lemma SplitThreeWords(a: string, c: char, b: string, d: char, e: string, sep: char -> bool)
    requires SepFree(a, sep) && sep(c) && SepFree(b, sep) && sep(d) && SepFree(e, sep)
    ensures SplitKeep(a + [c] + (b + [d] + e), sep) == [a, [c], b, [d], e]
  {
    SplitAfterWord(a, c, b + [d] + e, sep);
    SplitTwoWords(b, d, e, sep);
  }

  lemma CommaSureJoin()
    ensures "" + [','] + ("" + [' '] + "sure") == ", sure"
  {
  }

  lemma CommaSureTokens()
    ensures SplitKeep(", sure", NarrativeSep) == ["", ",", "", " ", "sure"]
  {
    CommaSureJoin();
    PlainIsSepFree("");
    PlainIsSepFree("sure");
    SplitThreeWords("", ',', "", ' ', "sure", NarrativeSep);
  }

  lemma LetterlessIsNoKeyword(t: string, words: set<string>)
    requires Keywords(words) && (t == [] || !('a' <= t[0] <= 'z'))
    ensures t !in words
  {
    forall w | w in words
      ensures w != t
    {
      assert w != [] && 'a' <= w[0] <= 'z';
    }
  }

  /** Of the pieces of ", w", only w can be a keyword. */
  lemma CommaWordMentions(w: string, words: set<string>)
    requires Keywords(words) && w !in words
    ensures !Mentions(["", ",", "", " ", w], words)
  {
    LetterlessIsNoKeyword("", words);
    LetterlessIsNoKeyword(",", words);
    LetterlessIsNoKeyword(" ", words);
  }

  lemma SureIsNoPronoun()
    ensures "sure" !in ThirdPerson
    ensures "sure" !in SecondPerson
    ensures "sure" !in FirstPerson
  {
  }

  lemma CommaSureNoPronoun()
    ensures var tokens := ["", ",", "", " ", "sure"];
      !Mentions(tokens, ThirdPerson) && !Mentions(tokens, SecondPerson) && !Mentions(tokens, FirstPerson)
  {
    SureIsNoPronoun();
    ThirdPersonWords();
    CommaWordMentions("sure", ThirdPerson);
    SecondPersonWords();
    CommaWordMentions("sure", SecondPerson);
    FirstPersonWords();
    CommaWordMentions("sure", FirstPerson);
  }

  /** "you know" is removed before splitting, so its "you" does not make
      the sentence second person. */
  lemma YouKnowIsNotSecondPerson()
    ensures Narrative("You know, sure") == "passive"
  {
    YouKnowCleaned();
    CommaSureTokens();
    CommaSureNoPronoun();
  }

  /** "you know" on its own cleans to the empty sentence: no voice at all. */
  lemma YouKnowAloneIsEmpty()
    ensures Narrative("you know") == ""
  {
    assert Lower("you know") == "you know";
    assert FirstPrefix("you know", ["you know", "i'm like"]) == Some(0);
    assert "you know"[8..] == [];
    assert Cleaned("you know") == "";
    SplitSepFree("", NarrativeSep);
  }

  // ---------------------------------------------------------------------
  // Question kind

  /** `(\s|\')`: the separators of the question split (no comma). */
  predicate QuestionSep(c: char) {
    IsSpace(c) || c == '\''
  }

  const OpenWords: set<string> := {"why", "how", "what"}

  /** `question_detector`: `None` for a sentence without '?', otherwise
      "openEnded" when why/how/what is among its words, else "closedEnded". */
  function Question(sentence: string): (r: Option<string>)
  {
    if '?' in sentence then
      if Mentions(SplitKeep(Lower(sentence), QuestionSep), OpenWords) then Some("openEnded")
      else Some("closedEnded")
    else None
  }

  /** `questionDetector`: the same decision, with "NaQ" for no question. */
  function QuestionOrNaQ(sentence: string): (r: string)
  {
    match Question(sentence)
    case Some(kind) => kind
    case None => "NaQ"
  }

  /** The question kind in terms of whole words of the lower-cased
      sentence; the root-level variant differs only by "NaQ". */
  lemma QuestionSpec(sentence: string)
    ensures Question(sentence) == None <==> '?' !in sentence
    ensures Question(sentence) == Some("openEnded") <==>
      '?' in sentence && exists w | w in OpenWords :: HasWord(Lower(sentence), w, QuestionSep)
    ensures Question(sentence) == Some("closedEnded") <==>
      '?' in sentence && !exists w | w in OpenWords :: HasWord(Lower(sentence), w, QuestionSep)
    ensures QuestionOrNaQ(sentence) == "NaQ" <==> '?' !in sentence
    ensures QuestionOrNaQ(sentence) in {"NaQ", "openEnded", "closedEnded"}
  {
    assert Keywords(OpenWords) && LetterFree(QuestionSep);
    MentionsIffWord(Lower(sentence), OpenWords, QuestionSep);
  }

  /** The question mark sticks to the last word: "What?" is not the word
      "what", so it counts as closed-ended. */
  lemma WhatAloneIsClosed()
    ensures Question("What?") == Some("closedEnded")
  {
    assert Lower("What?") == "what?";
    PlainIsSepFree("what?");
    SplitSepFree("what?", QuestionSep);
  }

  lemma OpenWordsAreKeywords()
    ensures Keywords(OpenWords)
  {
  }

  lemma WhyCommaLower()
    ensures Lower("why, really?") == "why, really?"
  {
  }

  /** Two separator-free words around one separator split into three pieces. */
  lemma SplitTwoWords(a: string, c: char, b: string, sep: char -> bool)
    requires SepFree(a, sep) && sep(c) && SepFree(b, sep)
    ensures SplitKeep(a + [c] + b, sep) == [a, [c], b]
  {
    SplitAfterWord(a, c, b, sep);
    SplitSepFree(b, sep);
  }

  lemma WhyCommaJoin()
    ensures "why," + [' '] + "really?" == "why, really?"
  {
  }

  lemma WhyCommaTokens()
    ensures SplitKeep(Lower("why, really?"), QuestionSep) == ["why,", " ", "really?"]
  {
    WhyCommaLower();
    WhyCommaJoin();
    PlainIsSepFree("really?");
    assert SepFree("why,", QuestionSep);
    SplitTwoWords("why,", ' ', "really?", QuestionSep);
  }

  /** A three-piece split around a space mentions a keyword only through
      its outer pieces. */
  lemma SpacedMentions(a: string, b: string, words: set<string>)
    requires Keywords(words) && a !in words && b !in words
    ensures !Mentions([a, " ", b], words)
  {
    LetterlessIsNoKeyword(" ", words);
  }

  lemma WhyCommaNoOpenWord()
    ensures !Mentions(["why,", " ", "really?"], OpenWords)
  {
    OpenWordsAreKeywords();
    assert "why," !in OpenWords && "really?" !in OpenWords;
    SpacedMentions("why,", "really?", OpenWords);
  }

  /** The question split has no comma: "why," is not the word "why". */
  lemma WhyCommaIsClosed()
    ensures Question("why, really?") == Some("closedEnded")
  {
    WhyCommaTokens();
    WhyCommaNoOpenWord();
  }

  // ---------------------------------------------------------------------
  // maskFilter

  /** `torch.nonzero((s > threshold) & (s < upper))`: the indices, in
      ascending order, whose score lies strictly between the bounds. */
  function MaskFilter(s: seq<real>, threshold: real, upper: real): (r: seq<nat>)
    ensures forall k | 0 <= k < |r| :: r[k] < |s|
    ensures forall k, l | 0 <= k < l < |r| :: r[k] < r[l]
    ensures forall i | 0 <= i < |s| :: i in r <==> threshold < s[i] < upper
    decreases |s|
  {
    if s == [] then []
    else
      var init := MaskFilter(s[..|s| - 1], threshold, upper);
      assert forall i | 0 <= i < |s| - 1 :: s[..|s| - 1][i] == s[i];
      if threshold < s[|s| - 1] < upper then init + [|s| - 1] else init
  }

  /** parameterizer.py: scores in (threshold, 0.99); the default threshold is 0.45. */
  function MaskFilterParams(s: seq<real>, threshold: real): (r: seq<nat>)
    ensures forall i | 0 <= i < |s| :: i in r <==> threshold < s[i] < 0.99
  {
    MaskFilter(s, threshold, 0.99)
  }

  /** analyzer.py: scores in (threshold, 0.9). */
  function MaskFilterAnalysis(s: seq<real>, threshold: real): (r: seq<nat>)
    ensures forall i | 0 <= i < |s| :: i in r <==> threshold < s[i] < 0.9
  {
    MaskFilter(s, threshold, 0.9)
  }

  /** A score of 0.95 passes the parameterizer's filter and not the analyzer's. */
  lemma UpperBoundsDiffer()
    ensures MaskFilterParams([0.95], 0.45) == [0] && MaskFilterAnalysis([0.95], 0.45) == []
  {
  }
}
