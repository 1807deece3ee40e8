/**
 * The shared helpers of the view layer: the group-level gate in front of the
 * pages, and the normalisation of a card label ("Ⅲ", "iii", "Card 3", "3")
 * to its Arabic number and back to a Roman numeral.
 */
module CardBase {
  import opened PyText

  // ---------------------------------------------------------------------------
  // group levels

  /** The training groups and their ranks; any other group ranks 0. */
  const GroupLevel: map<string, nat> := map["beginner" := 1, "intermediate" := 2, "advanced" := 3]

  /** `GROUP_LEVEL.get(group, 0)`. */
  function UserLevel(group: Option<string>): nat
  {
    if group.Some? && group.value in GroupLevel then GroupLevel[group.value] else 0
  }

  /** What the gate in front of a view does with a request. */
  datatype Access = LoginRedirect | Forbidden | Allowed

  /**
   * The gate of a view that requires at least `minGroup`: an anonymous user
   * is sent to the login page, a user whose group ranks lower is refused.
   */
  function Gate(authenticated: bool, group: Option<string>, minGroup: string): (r: Access)
    requires minGroup in GroupLevel
    ensures !authenticated <==> r == LoginRedirect
    ensures authenticated ==> (r == Allowed <==> UserLevel(group) >= GroupLevel[minGroup])
  {
    if !authenticated then LoginRedirect
    else if UserLevel(group) >= GroupLevel[minGroup] then Allowed
    else Forbidden
  }

  /** A user admitted to a page is admitted to every page that requires a lower or equal group. */
  lemma GateMonotone(group: Option<string>, lower: string, higher: string)
    requires lower in GroupLevel && higher in GroupLevel
    requires GroupLevel[lower] <= GroupLevel[higher]
    ensures Gate(true, group, higher) == Allowed ==> Gate(true, group, lower) == Allowed
  {
  }

  /** A signed-in user without one of the three groups is refused everywhere; an advanced user is admitted everywhere. */
  lemma GateExtremes(group: Option<string>, minGroup: string)
    requires minGroup in GroupLevel
    ensures (group.None? || group.value !in GroupLevel) ==> Gate(true, group, minGroup) == Forbidden
    ensures Gate(true, Some("advanced"), minGroup) == Allowed
  {
  }

  // ---------------------------------------------------------------------------
  // card labels

  /** The Unicode Roman numeral glyphs U+2160..U+2169 and their ASCII spellings, in replacement order. */
  const UnicodeRoman: seq<(char, string)> := [
    ('\U{2160}', "I"), ('\U{2161}', "II"), ('\U{2162}', "III"), ('\U{2163}', "IV"), ('\U{2164}', "V"),
    ('\U{2165}', "VI"), ('\U{2166}', "VII"), ('\U{2167}', "VIII"), ('\U{2168}', "IX"), ('\U{2169}', "X")
  ]

  const RomanToNum: map<string, string> := map[
    "I" := "1", "II" := "2", "III" := "3", "IV" := "4", "V" := "5",
    "VI" := "6", "VII" := "7", "VIII" := "8", "IX" := "9", "X" := "10"
  ]

  const NumToRoman: map<string, string> := map[
    "1" := "I", "2" := "II", "3" := "III", "4" := "IV", "5" := "V",
    "6" := "VI", "7" := "VII", "8" := "VIII", "9" := "IX", "10" := "X"
  ]

  /** The card numbers "1".."10". */
  const CardNumbers: set<string> := {"1", "2", "3", "4", "5", "6", "7", "8", "9", "10"}

  /** The two tables are inverse to each other, and the numbers are exactly "1".."10". */
  lemma RomanTablesInverse()
    ensures RomanToNum.Values == CardNumbers && NumToRoman.Keys == CardNumbers
    ensures forall r :: r in RomanToNum ==> RomanToNum[r] in NumToRoman && NumToRoman[RomanToNum[r]] == r
    ensures forall n :: n in NumToRoman ==> NumToRoman[n] in RomanToNum && RomanToNum[NumToRoman[n]] == n
  {
    RomanTableValues();
    forall r | r in RomanToNum
      ensures RomanToNum[r] in NumToRoman && NumToRoman[RomanToNum[r]] == r
    {
      NumeralInverse(r);
    }
    forall n | n in NumToRoman
      ensures NumToRoman[n] in RomanToNum && RomanToNum[NumToRoman[n]] == n
    {
      NumberInverse(n);
    }
  }

  lemma RomanTableValues()
    ensures RomanToNum.Values == CardNumbers && NumToRoman.Keys == CardNumbers
  {
    assert RomanToNum["I"] == "1" && RomanToNum["II"] == "2" && RomanToNum["III"] == "3";
    assert RomanToNum["IV"] == "4" && RomanToNum["V"] == "5" && RomanToNum["VI"] == "6";
    assert RomanToNum["VII"] == "7" && RomanToNum["VIII"] == "8" && RomanToNum["IX"] == "9";
    assert RomanToNum["X"] == "10";
  }

  lemma NumeralInverse(r: string)
    requires r in RomanToNum
    ensures RomanToNum[r] in NumToRoman && NumToRoman[RomanToNum[r]] == r
  {
    if r == "I" {
    } else if r == "II" {
    } else if r == "III" {
    } else if r == "IV" {
    } else if r == "V" {
    } else if r == "VI" {
    } else if r == "VII" {
    } else if r == "VIII" {
    } else if r == "IX" {
    } else {
      assert r == "X";
    }
  }

  lemma NumberInverse(n: string)
    requires n in NumToRoman
    ensures NumToRoman[n] in RomanToNum && RomanToNum[NumToRoman[n]] == n
  {
    if n == "1" {
    } else if n == "2" {
    } else if n == "3" {
    } else if n == "4" {
    } else if n == "5" {
    } else if n == "6" {
    } else if n == "7" {
    } else if n == "8" {
    } else if n == "9" {
    } else {
      assert n == "10";
    }
  }

  /** The glyph replacements of entries `i..` applied in table order. */
  function ReplaceGlyphsFrom(s: string, i: nat): string
    decreases |UnicodeRoman| - i
  {
    if i >= |UnicodeRoman| then s
    else ReplaceGlyphsFrom(ReplaceChar(s, UnicodeRoman[i].0, UnicodeRoman[i].1), i + 1)
  }

  /** The characters a card label keeps after the non-numeral characters are dropped. */
  const CardChars: set<char> := {'I', 'V', 'X', '0', '1', '2', '3', '4', '5', '6', '7', '8', '9'}

  /** `re.sub(r'[^IVX0-9]', '', s)`. */
  function KeepCardChars(s: string): (r: string)
    ensures Within(r, CardChars)
    ensures Within(s, CardChars) ==> r == s
  {
    if s == [] then []
    else (if s[0] in CardChars then [s[0]] else []) + KeepCardChars(s[1..])
  }

  /** A label trimmed and with its glyphs spelt in ASCII. */
  function CardStem(card: string): string
  {
    ReplaceGlyphsFrom(Strip(card), 0)
  }

  /**
   * The card number a stem stands for once upper-cased: a Roman numeral gives
   * its number; failing that, everything but I, V, X and digits is dropped
   * and a Roman numeral or a number 1..10 is looked for again; a stem that
   * names no card comes back as it was, not upper-cased.
   */
  function StemToNum(s: string): (r: string)
    ensures r in CardNumbers || r == s
  {
    var su := Upper(s);
    if su in RomanToNum then RomanToNum[su]
    else
      var kept := KeepCardChars(su);
      if kept in RomanToNum then RomanToNum[kept]
      else if kept in CardNumbers then kept
      else s
  }

  /** The card number a label stands for; a null label gives the empty string. */
  function NormalizeCardToNum(card: Option<string>): (r: string)
    ensures card.None? ==> r == []
    ensures card.Some? ==> r in CardNumbers || r == CardStem(card.value)
  {
    if card.None? then [] else StemToNum(CardStem(card.value))
  }

  /** The Roman numeral of a card label, or the trimmed label when it names no card; a null label gives "None". */
  function ToRoman(card: Option<string>): (r: string)
    ensures NormalizeCardToNum(card) in NumToRoman ==> r == NumToRoman[NormalizeCardToNum(card)]
    ensures NormalizeCardToNum(card) !in NumToRoman ==> r == (if card.None? then "None" else Strip(card.value))
  {
    var n := NormalizeCardToNum(card);
    if n in NumToRoman then NumToRoman[n]
    else if card.None? then "None"
    else Strip(card.value)
  }

  // ---------------------------------------------------------------------------
  // what the normaliser does

  /** No glyph of the table occurs in `s`. */
  predicate GlyphFree(s: string)
  {
    forall i :: 0 <= i < |UnicodeRoman| ==> UnicodeRoman[i].0 !in s
  }

  lemma {:induction false} GlyphFreeFixed(s: string, i: nat)
    requires GlyphFree(s)
    ensures ReplaceGlyphsFrom(s, i) == s
    decreases |UnicodeRoman| - i
  {
    if i < |UnicodeRoman| {
      GlyphFreeFixed(s, i + 1);
    }
  }

  /** A label made of ASCII letters and digits, with no surrounding whitespace, is only upper-cased and filtered. */
  predicate AsciiLabel(s: string)
  {
    forall i :: 0 <= i < |s| ==> ('a' <= s[i] <= 'z' || 'A' <= s[i] <= 'Z' || '0' <= s[i] <= '9')
  }

  lemma AsciiLabelPlain(s: string)
    requires AsciiLabel(s)
    ensures Strip(s) == s && CardStem(s) == s
  {
    assert s == [] || (s[0] !in Whitespace && s[|s| - 1] !in Whitespace);
    StripTrimmed(s);
    assert GlyphFree(s) by {
      forall i | 0 <= i < |UnicodeRoman| ensures UnicodeRoman[i].0 !in s {
        assert UnicodeRoman[i].0 as int >= 0x2160;
      }
    }
    GlyphFreeFixed(s, 0);
  }

  /** A Roman numeral I..X, typed in any mix of cases, is read as its card number. */
  lemma RomanAnyCase(s: string)
    requires AsciiLabel(s) && Upper(s) in RomanToNum
    ensures NormalizeCardToNum(Some(s)) == RomanToNum[Upper(s)]
  {
    AsciiLabelPlain(s);
  }

  /** A string of decimal digits. */
  predicate Digits(s: string)
  {
    forall i :: 0 <= i < |s| ==> '0' <= s[i] <= '9'
  }

  lemma CardNumbersAreDigits(n: string)
    requires n in CardNumbers
    ensures |n| >= 1 && Digits(n)
  {
  }

  lemma RomanKeysAreLetters(k: string)
    requires k in RomanToNum
    ensures |k| >= 1 && k[0] in {'I', 'V', 'X'}
  {
  }

  /** Digits are untouched by the numeral filter. */
  lemma DigitsKept(s: string)
    requires Digits(s)
    ensures KeepCardChars(s) == s
  {
    assert Within(s, CardChars) by {
      forall i | 0 <= i < |s| ensures s[i] in CardChars {
        assert '0' <= s[i] <= '9';
      }
    }
  }

  /** No string of digits is a Roman numeral. */
  lemma DigitsNoNumeral(s: string)
    requires |s| >= 1 && Digits(s)
    ensures s !in RomanToNum
  {
    if s in RomanToNum {
      RomanKeysAreLetters(s);
      assert false;
    }
  }

  /** Digits are untouched by upper-casing. */
  lemma DigitsUpper(s: string)
    requires Digits(s)
    ensures AsciiLabel(s) && Upper(s) == s
  {
    var u := Upper(s);
    assert forall i | 0 <= i < |s| :: u[i] == s[i];
  }

  /** A card number "1".."10" is read as itself. */
  lemma NumberFixed(n: string)
    requires n in CardNumbers
    ensures NormalizeCardToNum(Some(n)) == n
  {
    CardNumbersAreDigits(n);
    DigitsUpper(n);
    DigitsKept(n);
    DigitsNoNumeral(n);
    AsciiLabelPlain(n);
  }

  /** A numeral spelt in upper-case I, V and X is untouched by upper-casing. */
  lemma UpperRomanPlain(r: string)
    requires r in RomanToNum
    ensures AsciiLabel(r) && Upper(r) == r
  {
    RomanKeysSpelt(r);
    assert forall i | 0 <= i < |r| :: 'A' <= r[i] <= 'Z';
    UpperFixed(r);
  }

  /** The numerals I..X are spelt with the letters I, V and X only. */
  lemma RomanKeysSpelt(r: string)
    requires r in RomanToNum
    ensures Within(r, {'I', 'V', 'X'})
  {
    if r == "I" {
    } else if r == "II" {
    } else if r == "III" {
    } else if r == "IV" {
    } else if r == "V" {
    } else if r == "VI" {
    } else if r == "VII" {
    } else if r == "VIII" {
    } else if r == "IX" {
    } else if r == "X" {
    } else {
      assert false;
    }
  }

  /** Every card number converts to its numeral and back: `normalize_card_to_num(to_roman(k)) == k`. */
  lemma RoundTrip(n: string)
    requires n in CardNumbers
    ensures ToRoman(Some(n)) == NumToRoman[n]
    ensures NormalizeCardToNum(Some(ToRoman(Some(n)))) == n
  {
    NumberFixed(n);
    RomanTablesInverse();
    var r := NumToRoman[n];
    UpperRomanPlain(r);
    RomanAnyCase(r);
  }

  /** Converting an already converted label changes nothing: `to_roman(to_roman(x)) == to_roman(x)`. */
  lemma ToRomanIdempotent(card: Option<string>)
    ensures ToRoman(Some(ToRoman(card))) == ToRoman(card)
  {
    var n := NormalizeCardToNum(card);
    if n in NumToRoman {
      NumeralRoundTrip(n);
    } else if card.None? {
      NoneLabel();
    } else {
      TrimmedSameCard(card.value);
    }
  }

  lemma NumeralRoundTrip(n: string)
    requires n in NumToRoman
    ensures ToRoman(Some(NumToRoman[n])) == NumToRoman[n]
  {
    RomanTablesInverse();
    RoundTrip(n);
  }

  /** Trimming a label first does not change which card it names. */
  lemma TrimmedSameCard(v: string)
    ensures NormalizeCardToNum(Some(Strip(v))) == NormalizeCardToNum(Some(v))
    ensures NormalizeCardToNum(Some(v)) !in NumToRoman ==> ToRoman(Some(Strip(v))) == Strip(v)
  {
    StripIdempotent(v);
  }

  /** A label whose letters, upper-cased, include no I, V, X or digit names no card and is kept as typed. */
  lemma NoNumeralLabel(s: string)
    requires AsciiLabel(s) && Avoids(Upper(s), CardChars)
    ensures NormalizeCardToNum(Some(s)) == s
  {
    AsciiLabelPlain(s);
    var su := Upper(s);
    NoNumeralChars(su);
    NotANumeral(su);
    EmptyNamesNoCard();
    assert StemToNum(s) == s;
  }

  /** The empty string is neither a numeral nor a card number. */
  lemma EmptyNamesNoCard()
    ensures [] !in RomanToNum && [] !in CardNumbers
  {
    if [] in RomanToNum {
      RomanKeysAreLetters([]);
      assert false;
    }
  }

  lemma NotANumeral(u: string)
    requires Avoids(u, CardChars)
    ensures u !in RomanToNum
  {
    if u in RomanToNum {
      RomanKeysAreLetters(u);
      assert false;
    }
  }

  /** The text "None", which a null label turns into, names no card. */
  lemma NoneLabel()
    ensures NormalizeCardToNum(Some("None")) == "None"
    ensures ToRoman(Some("None")) == "None"
  {
    var s := "None";
    assert AsciiLabel(s);
    var u := Upper(s);
    assert Avoids(u, CardChars) by {
      forall i | 0 <= i < |u| ensures u[i] !in CardChars {
        assert u[i] == UpperChar(s[i]);
      }
    }
    NoNumeralLabel(s);
    AsciiLabelPlain(s);
    NoneNotANumber();
    KeptLabel(s);
  }

  lemma NoneNotANumber()
    ensures "None" !in NumToRoman
  {
  }

  /** A trimmed label that names no card converts to itself. */
  lemma KeptLabel(s: string)
    requires NormalizeCardToNum(Some(s)) == s && s !in NumToRoman && Strip(s) == s
    ensures ToRoman(Some(s)) == s
  {
  }

  /** A string none of whose characters is I, V, X or a digit keeps nothing under the filter. */
  lemma {:induction false} NoNumeralChars(s: string)
    requires Avoids(s, CardChars)
    ensures KeepCardChars(s) == []
  {
    if s != [] {
      NoNumeralChars(s[1..]);
    }
  }

  /** Each Unicode glyph Ⅰ..Ⅹ is read as its card number. */
  lemma GlyphRead(k: nat)
    requires k < |UnicodeRoman|
    ensures NormalizeCardToNum(Some([UnicodeRoman[k].0])) == RomanToNum[UnicodeRoman[k].1]
  {
    var g := [UnicodeRoman[k].0];
    StripTrimmed(g);
    GlyphSteps(k, 0);
    var r := UnicodeRoman[k].1;
    assert r in RomanToNum;
    UpperRomanPlain(r);
    assert CardStem(g) == r;
  }

  /** Entry `k` of the glyph table is the glyph U+2160 + k, spelt as a numeral of the card table. */
  lemma GlyphEntry(k: nat)
    requires k < |UnicodeRoman|
    ensures UnicodeRoman[k].0 as int == 0x2160 + k && UnicodeRoman[k].1 in RomanToNum
  {
    if k == 0 {
    } else if k == 1 {
    } else if k == 2 {
    } else if k == 3 {
    } else if k == 4 {
    } else if k == 5 {
    } else if k == 6 {
    } else if k == 7 {
    } else if k == 8 {
    } else {
      assert k == 9;
    }
  }

  /** Replacing the table from entry `i` turns a lone glyph `k` into its spelling. */
  lemma {:induction false} GlyphSteps(k: nat, i: nat)
    requires k < |UnicodeRoman| && i <= k
    ensures ReplaceGlyphsFrom([UnicodeRoman[k].0], i) == UnicodeRoman[k].1
    decreases k - i
  {
    if i < k {
      GlyphSkipped(k, i);
      GlyphSteps(k, i + 1);
    } else {
      GlyphReplaced(k);
    }
  }

  /** An entry before `k` leaves the lone glyph `k` alone. */
  lemma GlyphSkipped(k: nat, i: nat)
    requires k < |UnicodeRoman| && i < k
    ensures ReplaceGlyphsFrom([UnicodeRoman[k].0], i) == ReplaceGlyphsFrom([UnicodeRoman[k].0], i + 1)
  {
    var g := [UnicodeRoman[k].0];
    GlyphEntry(k);
    GlyphEntry(i);
    var c := UnicodeRoman[i].0;
    assert c !in g;
    assert ReplaceChar(g, c, UnicodeRoman[i].1) == g;
  }

  /** Entry `k` spells the lone glyph `k`, and no later entry changes the spelling. */
  lemma GlyphReplaced(k: nat)
    requires k < |UnicodeRoman|
    ensures ReplaceGlyphsFrom([UnicodeRoman[k].0], k) == UnicodeRoman[k].1
  {
    var c := UnicodeRoman[k].0;
    var r := UnicodeRoman[k].1;
    ReplaceLone(c, r);
    assert ReplaceGlyphsFrom([c], k) == ReplaceGlyphsFrom(r, k + 1);
    SpellingGlyphFree(k);
    GlyphFreeFixed(r, k + 1);
  }

  lemma ReplaceLone(c: char, t: string)
    ensures ReplaceChar([c], c, t) == t
  {
    assert [c][1..] == [];
    assert t + [] == t;
  }

  /** The ASCII spelling of a glyph holds no glyph. */
  lemma SpellingGlyphFree(k: nat)
    requires k < |UnicodeRoman|
    ensures GlyphFree(UnicodeRoman[k].1)
  {
    var r := UnicodeRoman[k].1;
    GlyphEntry(k);
    UpperRomanPlain(r);
    forall j | 0 <= j < |UnicodeRoman| ensures UnicodeRoman[j].0 !in r {
      GlyphEntry(j);
    }
  }
}
