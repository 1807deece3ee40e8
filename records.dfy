/**
 * One coded response as the structural summary reads it, and the two
 * rewrites the summary applies to it: the card label becomes its Arabic
 * number, and the special scores are re-parsed and receive exactly one GHR or
 * PHR when the response involves human representation.
 */
module ScoringRecords {
  import opened PyText
  import opened Forms
  import CardBase

  /**
   * The coded fields of a response the summary reads. A null text field is
   * held as the empty string: the summary treats both alike.
   */
  datatype Response = Response(
    card: string,
    location: string,
    devQual: string,
    determinants: string,
    pair: string,
    formQual: string,
    content: string,
    popular: string,
    z: string,
    special: string)

  // ---------------------------------------------------------------------------
  // card mapping

  /** `roman_dict.get(card, card)`: a Roman numeral I..X becomes its number, anything else is kept. */
  function MappedCard(card: string): (r: string)
    ensures card in CardBase.RomanToNum ==> r == CardBase.RomanToNum[card]
    ensures card !in CardBase.RomanToNum ==> r == card
  {
    if card in CardBase.RomanToNum then CardBase.RomanToNum[card] else card
  }

  /** Mapping a mapped card changes nothing, since no number is also a numeral. */
  lemma MappedCardIdempotent(card: string)
    ensures MappedCard(MappedCard(card)) == MappedCard(card)
  {
    if card in CardBase.RomanToNum {
      CardBase.RomanTablesInverse();
      var n := CardBase.RomanToNum[card];
      CardBase.CardNumbersAreDigits(n);
      CardBase.DigitsNoNumeral(n);
    }
  }

  function MapCard(r: Response): Response
  {
    r.(card := MappedCard(r.card))
  }

  // ---------------------------------------------------------------------------
  // the token lists of a response

  /** The determinant codes as written, split on runs of `,`/`.` after spaces are removed. */
  function Determinants(r: Response): seq<string>
  {
    Tokens(r.determinants)
  }

  /** The determinant codes case-folded: lower case, except ma, mp, Ma, Mp and Ma-p. */
  function FoldedCodes(r: Response): seq<string>
  {
    FoldEach(Tokens(r.determinants))
  }

  /** The content codes in lower case. */
  function LoweredCodes(r: Response): seq<string>
  {
    LowerEach(Tokens(r.content))
  }

  /** A blend: two or more determinant codes. */
  predicate IsBlend(r: Response)
  {
    |Determinants(r)| >= 2
  }

  /** Some element of `xs` is in `vocabulary`. */
  predicate AnyIn(xs: seq<string>, vocabulary: set<string>)
  {
    exists k :: 0 <= k < |xs| && xs[k] in vocabulary
  }

  // ---------------------------------------------------------------------------
  // special scores

  /** The two human-representation scores. */
  const HumanTags: set<string> := {"GHR", "PHR"}

  /** `[w for w in words if w not in ["GHR", "PHR"]]`. */
  function DropTags(words: seq<string>): (r: seq<string>)
    ensures forall k :: 0 <= k < |r| ==> r[k] !in HumanTags
    ensures forall w :: w in r <==> w in words && w !in HumanTags
    ensures |r| <= |words|
  {
    if words == [] then []
    else if words[|words| - 1] in HumanTags then DropTags(words[..|words| - 1])
    else DropTags(words[..|words| - 1]) + [words[|words| - 1]]
  }

  /** A list without GHR or PHR loses nothing. */
  lemma {:induction false} DropTagsKeeps(words: seq<string>)
    requires forall k :: 0 <= k < |words| ==> words[k] !in HumanTags
    ensures DropTags(words) == words
  {
    if words != [] {
      DropTagsKeeps(words[..|words| - 1]);
      assert words == words[..|words| - 1] + [words[|words| - 1]];
    }
  }

  /**
   * The special scores a response already carries: the field without spaces,
   * split on runs of `,`/`.`, re-joined with blanks and split on whitespace,
   * with any GHR or PHR dropped.
   */
  function PriorSpecials(special: string): (r: seq<string>)
    ensures forall k :: 0 <= k < |r| ==> r[k] != [] && Avoids(r[k], Whitespace)
    ensures forall k :: 0 <= k < |r| ==> r[k] !in HumanTags
  {
    var words := WordsOf(Join(Tokens(special), " "));
    DropTags(words)
  }

  const HumanContents: set<string> := {"h", "(h)", "hd", "(hd)", "hx"}
  const HumanMovement: set<string> := {"Ma", "Mp", "Ma-p"}
  const AnimalMovement: set<string> := {"fma", "fmp", "fma-p"}
  const InanimateMovement: set<string> := {"ma", "mp", "ma-p"}

  /**
   * The response involves human representation: a human content, a human
   * movement, or an animal movement scored together with COP or AG.
   */
  predicate HumanRelevant(contents: seq<string>, codes: seq<string>, specials: seq<string>)
  {
    AnyIn(contents, HumanContents) || AnyIn(codes, HumanMovement)
    || (AnyIn(codes, AnimalMovement) && AnyIn(specials, {"COP", "AG"}))
  }

  const GoodBlockers: set<string> := {"DV2", "DR", "DR2", "INC", "INC2", "FAB", "FAB2", "CON", "ALOG", "AG", "MOR"}
  const Level2Scores: set<string> := {"DV2", "DR2", "INC2", "FAB2", "CON", "ALOG"}
  const PopularGoodCards: set<string> := {"3", "4", "7", "9"}

  /**
   * The seven-step choice between GHR and PHR for a relevant response; the
   * first step that applies decides. `card` is the Arabic card number.
   */
  function HumanTag(card: string, formQual: string, popular: string,
                    contents: seq<string>, specials: seq<string>): (t: string)
    ensures t in HumanTags
    ensures ("h" in contents && formQual in {"+", "o", "u"} && !AnyIn(specials, GoodBlockers)) ==> t == "GHR"
    ensures (!("h" in contents && formQual in {"+", "o", "u"} && !AnyIn(specials, GoodBlockers))
             && (formQual in {"-", "no"} || AnyIn(specials, Level2Scores))) ==> t == "PHR"
  {
    if "h" in contents && formQual in {"+", "o", "u"} && !AnyIn(specials, GoodBlockers) then "GHR"
    else if formQual in {"-", "no"} || AnyIn(specials, Level2Scores) then "PHR"
    else if "COP" in specials && "AG" !in specials then "GHR"
    else if "FAB" in specials || "MOR" in specials || "an" in contents then "PHR"
    else if popular == "P" && card in PopularGoodCards then "GHR"
    else if AnyIn(specials, {"AG", "INC", "DR"}) || "hd" in contents then "PHR"
    else "GHR"
  }

  /** The special scores a response ends with: its prior scores, then GHR or PHR when it is relevant. */
  function FinalSpecials(r: Response): (s: seq<string>)
  {
    var prior := PriorSpecials(r.special);
    var contents := LoweredCodes(r);
    if HumanRelevant(contents, FoldedCodes(r), prior)
    then prior + [HumanTag(r.card, r.formQual, r.popular, contents, prior)]
    else prior
  }

  /** How many elements of `xs` are in `vocabulary`. */
  function CountIn(xs: seq<string>, vocabulary: set<string>): (n: nat)
    ensures n <= |xs|
  {
    if xs == [] then 0
    else CountIn(xs[..|xs| - 1], vocabulary) + (if xs[|xs| - 1] in vocabulary then 1 else 0)
  }

  lemma {:induction false} CountInNone(xs: seq<string>, vocabulary: set<string>)
    requires forall k :: 0 <= k < |xs| ==> xs[k] !in vocabulary
    ensures CountIn(xs, vocabulary) == 0
  {
    if xs != [] {
      CountInNone(xs[..|xs| - 1], vocabulary);
    }
  }

  /**
   * A response ends with its prior scores and exactly one GHR or PHR when it
   * is relevant, and with its prior scores and no GHR or PHR otherwise.
   */
  lemma FinalSpecialsShape(r: Response)
    ensures var prior := PriorSpecials(r.special);
            var s := FinalSpecials(r);
            s[..|prior|] == prior
            && CountIn(s, HumanTags) == (if HumanRelevant(LoweredCodes(r), FoldedCodes(r), prior) then 1 else 0)
  {
    var prior := PriorSpecials(r.special);
    var s := FinalSpecials(r);
    CountInNone(prior, HumanTags);
    if HumanRelevant(LoweredCodes(r), FoldedCodes(r), prior) {
      assert s[..|s| - 1] == prior;
    }
  }

  /** The response as saved: card mapped, special replaced by its final scores joined with commas. */
  function Rewrite(r: Response): Response
  {
    var m := MapCard(r);
    m.(special := Join(FinalSpecials(m), ","))
  }

  // ---------------------------------------------------------------------------
  // a second run reads back what the first one wrote

  /** A special score as it comes out of the parse: non-empty, free of whitespace, commas and periods. */
  predicate CleanWord(w: string)
  {
    w != [] && Avoids(w, Whitespace) && Avoids(w, CodeSeparators)
  }

  /** The words of `str.split()` over text without separators carry none. */
  lemma PriorWordsClean(special: string)
    ensures forall k :: 0 <= k < |PriorSpecials(special)| ==> CleanWord(PriorSpecials(special)[k])
  {
    var tokens := Tokens(special);
    SplitRunsPieces(RemoveChar(special, ' '), CodeSeparators);
    var joined := Join(tokens, " ");
    forall c | c in joined
      ensures c !in CodeSeparators
    {
      JoinChars(tokens, " ", c);
    }
    var words := WordsOf(joined);
    WordsChars(joined);
    assert forall k :: 0 <= k < |words| ==> Avoids(words[k], CodeSeparators);
  }

  /** Re-parsing the saved special of a response gives back its final scores without GHR or PHR. */
  lemma ReparseSaved(scores: seq<string>)
    requires forall k :: 0 <= k < |scores| ==> CleanWord(scores[k])
    ensures PriorSpecials(Join(scores, ",")) == DropTags(scores)
  {
    if scores == [] {
      ReparseEmpty();
    } else {
      ReparseWords(scores);
    }
  }

  lemma ReparseEmpty()
    ensures PriorSpecials([]) == []
  {
    assert Tokens([]) == [[]];
    assert Join([[]], " ") == [];
    assert SplitRuns([], Whitespace) == [[]];
  }

  lemma ReparseWords(scores: seq<string>)
    requires |scores| >= 1
    requires forall k :: 0 <= k < |scores| ==> CleanWord(scores[k])
    ensures Tokens(Join(scores, ",")) == scores
    ensures PriorSpecials(Join(scores, ",")) == DropTags(scores)
  {
    var joined := Join(scores, ",");
    NoBlankInJoin(scores);
    assert RemoveChar(joined, ' ') == joined;
    assert Within(",", CodeSeparators);
    SplitRunsJoin(scores, ",", CodeSeparators);
    WordsOfJoin(scores);
  }

  lemma NoBlankInJoin(scores: seq<string>)
    requires forall k :: 0 <= k < |scores| ==> CleanWord(scores[k])
    ensures ' ' !in Join(scores, ",")
  {
    if ' ' in Join(scores, ",") {
      JoinChars(scores, ",", ' ');
      assert false;
    }
  }

  /** GHR and PHR are clean words. */
  lemma TagsClean(t: string)
    requires t in HumanTags
    ensures CleanWord(t)
  {
  }

  /** The saved scores of a response are clean words. */
  lemma FinalWordsClean(r: Response)
    ensures forall k :: 0 <= k < |FinalSpecials(r)| ==> CleanWord(FinalSpecials(r)[k])
  {
    PriorWordsClean(r.special);
    var prior := PriorSpecials(r.special);
    var s := FinalSpecials(r);
    if s != prior {
      TagsClean(s[|s| - 1]);
      assert forall k :: 0 <= k < |prior| ==> s[k] == prior[k];
    }
  }

  /** Dropping the tags of the final scores gives the prior scores back. */
  lemma FinalDropsToPrior(r: Response)
    ensures DropTags(FinalSpecials(r)) == PriorSpecials(r.special)
  {
    var prior := PriorSpecials(r.special);
    DropTagsKeeps(prior);
    var s := FinalSpecials(r);
    if s != prior {
      assert s[..|s| - 1] == prior;
    }
  }

  /**
   * Rewriting a rewritten response changes nothing: the card is already a
   * number, and the saved special re-parses to the same prior scores, so the
   * same tag is chosen again and the same text is written.
   */
  lemma RewriteIdempotent(r: Response)
    ensures MapCard(Rewrite(r)) == Rewrite(r)
    ensures FinalSpecials(Rewrite(r)) == FinalSpecials(MapCard(r))
    ensures Rewrite(Rewrite(r)) == Rewrite(r)
  {
    var m := MapCard(r);
    var w := Rewrite(r);
    MappedCardIdempotent(r.card);
    FinalWordsClean(m);
    ReparseSaved(FinalSpecials(m));
    FinalDropsToPrior(m);
    assert PriorSpecials(w.special) == PriorSpecials(m.special);
  }
}
