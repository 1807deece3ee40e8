/**
 * The symbol validators of the response-coding form, the form-level rule that
 * asks for a Z score, and the client form's date check.
 *
 * A Django `CharField` strips its value and runs its validators only on a
 * non-empty value, so the functions below receive the stripped, non-empty
 * text of one field.
 */
module Forms {
  import opened PyText

  /** The error a field or the form reports. */
  datatype FormError =
    | BadSymbol        // a value outside the field's vocabulary
    | OnlyP            // popular holds something other than P
    | PairMustBeTwo    // pair holds something other than 2
    | ZRequired        // a Z score is needed
    | HigherZ          // a higher Z score than ZW applies on this card
    | TestBeforeBirth  // the test date precedes the birth date

  /** What a validator does with a value: hands it back unchanged, or rejects it. */
  datatype Checked = Accept(value: string) | Reject(error: FormError)

  // ---------------------------------------------------------------------------
  // vocabularies

  const CardSymbols: set<string> :=
    {"I", "II", "III", "IV", "V", "VI", "VII", "VIII", "IX", "X",
     "1", "2", "3", "4", "5", "6", "7", "8", "9", "10"}

  const LocationSymbols: set<string> := {"W", "WS", "D", "DS", "Dd", "DdS"}

  const DevQualSymbols: set<string> := {"+", "o", "v/+", "v"}

  /** The determinant codes, in the case the validator compares them after folding. */
  const DeterminantSymbols: set<string> :=
    {"Ma", "Mp", "Ma-p", "fma", "fmp", "fma-p", "ma", "mp", "ma-p",
     "fc", "cf", "c", "cn", "fc'", "c'f", "c'", "ft", "tf", "t",
     "fv", "vf", "v", "fy", "yf", "y", "fr", "rf", "fd", "f"}

  /** The spellings left as typed by the case folding: they tell human movement (M) from inanimate movement (m). */
  const CaseKept: set<string> := {"ma", "mp", "Ma", "Mp", "Ma-p"}

  const SpecialSymbols: set<string> :=
    {"DV", "DV2", "DR", "DR2", "INC", "INC2", "FAB", "FAB2", "CON", "ALOG", "PSV",
     "AB", "AG", "COP", "MOR", "PER", "CP", "GHR", "PHR"}

  const ContentSymbols: set<string> :=
    {"h", "(h)", "hd", "(hd)", "hx", "a", "(a)", "(ad)", "ad", "an", "art", "ay", "bl", "bt",
     "cg", "cl", "ex", "fi", "fd", "ge", "hh", "ls", "na", "sc", "sx", "xy"}

  const FormQualitySymbols: set<string> := {"+", "o", "u", "-", "no"}

  const ZSymbols: set<string> := {"ZA", "ZW", "ZD", "ZS"}

  /** The separators of a multi-code field: runs of commas and periods. */
  const CodeSeparators: set<char> := {',', '.'}

  // ---------------------------------------------------------------------------
  // tokenising a multi-code field

  /** The raw codes of a multi-code field: `re.split(r'[.,]+', value.replace(' ', ''))`. */
  function Tokens(value: string): (r: seq<string>)
    ensures |r| >= 1
  {
    SplitRuns(RemoveChar(value, ' '), CodeSeparators)
  }

  /** The codes of a multi-code field as the validators see them: the raw codes, each stripped. */
  function CodePieces(value: string): (r: seq<string>)
    ensures |r| >= 1
  {
    StripEach(Tokens(value))
  }

  /** Every piece stripped. */
  function StripEach(pieces: seq<string>): (r: seq<string>)
    ensures |r| == |pieces|
    ensures forall k :: 0 <= k < |pieces| ==> r[k] == Strip(pieces[k])
  {
    if pieces == [] then [] else [Strip(pieces[0])] + StripEach(pieces[1..])
  }

  /** The case folding applied to a determinant code: lower-cased unless it is one of the kept spellings. */
  function FoldDeterminant(code: string): (r: string)
    ensures code in CaseKept ==> r == code
    ensures code !in CaseKept ==> r == Lower(code)
  {
    if code in CaseKept then code else Lower(code)
  }

  // ---------------------------------------------------------------------------
  // the validators

  function ValidateCard(value: string): (r: Checked)
    ensures r.Accept? <==> value in CardSymbols
    ensures r.Accept? ==> r.value == value
    ensures r.Reject? ==> r.error == BadSymbol
  {
    if value in CardSymbols then Accept(value) else Reject(BadSymbol)
  }

  function ValidateLocation(value: string): (r: Checked)
    ensures r.Accept? <==> value in LocationSymbols
    ensures r.Accept? ==> r.value == value
  {
    if value in LocationSymbols then Accept(value) else Reject(BadSymbol)
  }

  function ValidateDevQual(value: string): (r: Checked)
    ensures r.Accept? <==> value in DevQualSymbols
    ensures r.Accept? ==> r.value == value
  {
    if value in DevQualSymbols then Accept(value) else Reject(BadSymbol)
  }

  /** The determinant codes of a field, case-folded as the validator compares them. */
  function FoldedDeterminants(value: string): seq<string>
  {
    FoldEach(CodePieces(value))
  }

  function FoldEach(codes: seq<string>): (r: seq<string>)
    ensures |r| == |codes|
    ensures forall k :: 0 <= k < |codes| ==> r[k] == FoldDeterminant(codes[k])
  {
    if codes == [] then [] else [FoldDeterminant(codes[0])] + FoldEach(codes[1..])
  }

  /** The content codes of a field, lower-cased as the validator compares them. */
  function LoweredContents(value: string): seq<string>
  {
    LowerEach(CodePieces(value))
  }

  function LowerEach(codes: seq<string>): (r: seq<string>)
    ensures |r| == |codes|
    ensures forall k :: 0 <= k < |codes| ==> r[k] == Lower(codes[k])
  {
    if codes == [] then [] else [Lower(codes[0])] + LowerEach(codes[1..])
  }

  /** Every element of `codes` is in `vocabulary`. */
  predicate AllIn(codes: seq<string>, vocabulary: set<string>)
  {
    forall k :: 0 <= k < |codes| ==> codes[k] in vocabulary
  }

  /** Every code, after case folding, must be a determinant symbol. */
  function ValidateDeterminants(value: string): (r: Checked)
    ensures r.Accept? <==> AllIn(FoldedDeterminants(value), DeterminantSymbols)
    ensures r.Accept? ==> r.value == value
  {
    if AllIn(FoldedDeterminants(value), DeterminantSymbols) then Accept(value) else Reject(BadSymbol)
  }

  /** Every code must be a special score, compared case-sensitively. */
  function ValidateSpecial(value: string): (r: Checked)
    ensures r.Accept? <==> AllIn(CodePieces(value), SpecialSymbols)
    ensures r.Accept? ==> r.value == value
  {
    if AllIn(CodePieces(value), SpecialSymbols) then Accept(value) else Reject(BadSymbol)
  }

  /**
   * Every code, lower-cased, must be a content code. The form attaches this
   * validator to no field, so content is accepted as typed.
   */
  function ValidateContents(value: string): (r: Checked)
    ensures r.Accept? <==> AllIn(LoweredContents(value), ContentSymbols)
    ensures r.Accept? ==> r.value == value
  {
    if AllIn(LoweredContents(value), ContentSymbols) then Accept(value) else Reject(BadSymbol)
  }

  function ValidateFormQuality(value: string): (r: Checked)
    ensures r.Accept? <==> value in FormQualitySymbols
    ensures r.Accept? ==> r.value == value
  {
    if value in FormQualitySymbols then Accept(value) else Reject(BadSymbol)
  }

  function ValidatePopular(value: string): (r: Checked)
    ensures r.Accept? <==> value == "P" || value == ""
    ensures r.Reject? ==> r.error == OnlyP
  {
    if value == "P" || value == "" then Accept(value) else Reject(OnlyP)
  }

  function ValidateZ(value: string): (r: Checked)
    ensures r.Accept? <==> value in ZSymbols
    ensures r.Accept? ==> r.value == value
  {
    if value in ZSymbols then Accept(value) else Reject(BadSymbol)
  }

  function ValidatePair(value: string): (r: Checked)
    ensures r.Accept? <==> value == "2"
    ensures r.Reject? ==> r.error == PairMustBeTwo
  {
    if value == "2" then Accept(value) else Reject(PairMustBeTwo)
  }

  // ---------------------------------------------------------------------------
  // what the multi-code validators accept

  /** A split whose input ends with a separator ends with an empty piece. */
  lemma {:induction false} SplitRunsTrailing(s: string, seps: set<char>)
    requires s != [] && s[|s| - 1] in seps
    ensures |SplitRuns(s, seps)| >= 2 && SplitRuns(s, seps)[|SplitRuns(s, seps)| - 1] == []
    decreases |s|
  {
    if s[0] in seps {
      var d := SkipLeading(s, seps);
      if d != [] {
        SplitRunsTrailing(d, seps);
      }
    } else {
      var t := s[1..];
      assert t != [] && t[|t| - 1] == s[|s| - 1];
      SplitRunsTrailing(t, seps);
      var rest := SplitRuns(t, seps);
      assert SplitRuns(s, seps) == [[s[0]] + rest[0]] + rest[1..];
    }
  }

  /**
   * Dropping a leading run of separators keeps a trailing separator, and the
   * split gains one empty piece in front.
   */
  lemma SkipLeading(s: string, seps: set<char>) returns (d: string)
    requires s != [] && s[0] in seps && s[|s| - 1] in seps
    ensures |d| < |s| && (d == [] || d[|d| - 1] in seps)
    ensures var r, rest := SplitRuns(s, seps), SplitRuns(d, seps);
      |r| == |rest| + 1 && r[|r| - 1] == rest[|rest| - 1]
    ensures d == [] ==> |SplitRuns(s, seps)| == 2 && SplitRuns(s, seps)[1] == []
  {
    d := DropSeps(s, seps);
    DropSepsKeepsLast(s, seps);
    SplitRunsAfterDrop(s, d, seps);
  }

  /** What is left after the leading separators is a suffix, so it ends as the input does. */
  lemma DropSepsKeepsLast(s: string, seps: set<char>)
    requires s != []
    ensures var d := DropSeps(s, seps); d == [] || d[|d| - 1] == s[|s| - 1]
  {
    var d := DropSeps(s, seps);
    if d != [] {
      assert d == s[|s| - |d|..];
    }
  }

  /** A leading run of separators adds one empty piece in front of the split of the rest. */
  lemma SplitRunsAfterDrop(s: string, d: string, seps: set<char>)
    requires s != [] && s[0] in seps && d == DropSeps(s, seps)
    ensures var r, rest := SplitRuns(s, seps), SplitRuns(d, seps);
      |r| == |rest| + 1 && r[|r| - 1] == rest[|rest| - 1]
    ensures d == [] ==> |SplitRuns(s, seps)| == 2 && SplitRuns(s, seps)[1] == []
  {
  }

  /** A code field whose text (spaces aside) starts or ends with a separator yields an empty code. */
  lemma EmptyCodeAtEdge(value: string)
    requires var t := RemoveChar(value, ' '); t != [] && (t[0] in CodeSeparators || t[|t| - 1] in CodeSeparators)
    ensures [] in CodePieces(value)
  {
    var t := RemoveChar(value, ' ');
    var pieces := SplitRuns(t, CodeSeparators);
    if t[0] in CodeSeparators {
      assert pieces[0] == [];
      assert CodePieces(value)[0] == Strip([]);
    } else {
      SplitRunsTrailing(t, CodeSeparators);
      assert CodePieces(value)[|pieces| - 1] == Strip([]);
    }
  }

  /** A dangling separator makes all three multi-code validators reject the value. */
  lemma DanglingSeparatorRejected(value: string)
    requires var t := RemoveChar(value, ' '); t != [] && (t[0] in CodeSeparators || t[|t| - 1] in CodeSeparators)
    ensures ValidateDeterminants(value).Reject?
    ensures ValidateSpecial(value).Reject?
    ensures ValidateContents(value).Reject?
  {
    EmptyCodeAtEdge(value);
    var codes := CodePieces(value);
    var k :| 0 <= k < |codes| && codes[k] == [];
    EmptyIsNoCode();
    assert FoldedDeterminants(value)[k] == [];
    assert LoweredContents(value)[k] == [];
  }

  lemma EmptyIsNoCode()
    ensures [] !in DeterminantSymbols && [] !in SpecialSymbols && [] !in ContentSymbols
  {
  }

  /** A code as a user types it between separators: non-empty, no space, no separator, no surrounding whitespace. */
  predicate PlainCode(code: string)
  {
    code != [] && ' ' !in code && Avoids(code, CodeSeparators)
    && code[0] !in Whitespace && code[|code| - 1] !in Whitespace
  }

  lemma StripEachTrimmed(codes: seq<string>)
    requires forall k :: 0 <= k < |codes| ==> PlainCode(codes[k])
    ensures StripEach(codes) == codes
  {
    forall k | 0 <= k < |codes| ensures StripEach(codes)[k] == codes[k] {
      PlainCodeStripped(codes[k]);
    }
  }

  /** A plain code is its own `strip()`. */
  lemma PlainCodeStripped(code: string)
    requires PlainCode(code)
    ensures Strip(code) == code
  {
    StripTrimmed(code);
  }

  /** Plain codes joined by one separator are read back as exactly those codes. */
  lemma CodePiecesOfJoin(codes: seq<string>, sep: string)
    requires |codes| >= 1
    requires forall k :: 0 <= k < |codes| ==> PlainCode(codes[k])
    requires sep == "." || sep == ","
    ensures CodePieces(Join(codes, sep)) == codes
  {
    var joined := Join(codes, sep);
    if ' ' in joined {
      JoinChars(codes, sep, ' ');
      assert false;
    }
    assert RemoveChar(joined, ' ') == joined;
    SplitRunsJoin(codes, sep, CodeSeparators);
    StripEachTrimmed(codes);
  }

  /**
   * Determinant codes are compared without regard to case, except for the five
   * kept spellings: "MA" and "FC" pass as "ma" and "fc", while "M" fails.
   */
  lemma DeterminantCodesAccepted(codes: seq<string>, sep: string)
    requires |codes| >= 1
    requires forall k :: 0 <= k < |codes| ==> PlainCode(codes[k])
    requires sep == "." || sep == ","
    ensures ValidateDeterminants(Join(codes, sep)).Accept? <==>
      forall k :: 0 <= k < |codes| ==> codes[k] in CaseKept || Lower(codes[k]) in DeterminantSymbols
  {
    CodePiecesOfJoin(codes, sep);
    var folded := FoldedDeterminants(Join(codes, sep));
    assert forall k :: 0 <= k < |codes| ==> folded[k] == FoldDeterminant(codes[k]);
  }

  /** Special scores are compared case-sensitively: a code passes only as spelled in the vocabulary. */
  lemma SpecialCodesAccepted(codes: seq<string>, sep: string)
    requires |codes| >= 1
    requires forall k :: 0 <= k < |codes| ==> PlainCode(codes[k])
    requires sep == "." || sep == ","
    ensures ValidateSpecial(Join(codes, sep)).Accept? <==> forall k :: 0 <= k < |codes| ==> codes[k] in SpecialSymbols
  {
    CodePiecesOfJoin(codes, sep);
  }

  // ---------------------------------------------------------------------------
  // the response-coding form's clean()

  /** A cleaned form value: text, a whole number, or nothing. */
  datatype FieldValue = Text(text: string) | Number(n: int) | Absent

  /** Python truthiness of a cleaned value. */
  predicate Truthy(v: FieldValue)
  {
    match v
    case Text(t) => t != []
    case Number(n) => n != 0
    case Absent => false
  }

  /** `cleaned_data.get(key, '')` for a text field. */
  function TextField(data: map<string, FieldValue>, key: string): string
  {
    if key in data && data[key].Text? then data[key].text else ""
  }

  /** Cards on which ZW is too low a Z score for a developed whole response. */
  const HigherZCards: set<string> := {"1", "4", "5", "I", "II", "III"}

  /**
   * The Z-score rule of the form's clean(): the first matching case adds one
   * error to the Z field. A W location needs a Z score unless the development
   * quality is v; a development quality containing + needs one; on the cards
   * spelt 1, 4, 5, I, II or III a developed W must not be scored ZW.
   */
  function ZRule(location: string, z: string, devQual: string, card: string): (r: Option<FormError>)
    ensures r == Some(ZRequired) <==>
      z == [] && ((HasSubstring(location, "W") && devQual != "v") || '+' in devQual)
    ensures r == Some(HigherZ) <==>
      z == "ZW" && card in HigherZCards && HasSubstring(location, "W") && '+' in devQual
    ensures r == None || r == Some(ZRequired) || r == Some(HigherZ)
  {
    if HasSubstring(location, "W") && z == [] && devQual != "v" then Some(ZRequired)
    else if '+' in devQual && z == [] then Some(ZRequired)
    else if card in HigherZCards && HasSubstring(location, "W") && '+' in devQual && z == "ZW" then Some(HigherZ)
    else None
  }

  /** The result of clean(): the truthy entries of the cleaned data, and the error added to Z, if any. */
  datatype Cleaned = Cleaned(data: map<string, FieldValue>, zError: Option<FormError>)

  function CleanResponse(cleanedData: map<string, FieldValue>): (r: Cleaned)
    ensures forall k :: k in r.data <==> k in cleanedData && Truthy(cleanedData[k])
    ensures forall k :: k in r.data ==> r.data[k] == cleanedData[k]
    ensures r.zError == ZRule(TextField(cleanedData, "location"), TextField(cleanedData, "Z"),
                              TextField(cleanedData, "dev_qual"), TextField(cleanedData, "card"))
  {
    var kept := map k | k in cleanedData && Truthy(cleanedData[k]) :: cleanedData[k];
    assert TextField(kept, "location") == TextField(cleanedData, "location");
    assert TextField(kept, "Z") == TextField(cleanedData, "Z");
    assert TextField(kept, "dev_qual") == TextField(cleanedData, "dev_qual");
    assert TextField(kept, "card") == TextField(cleanedData, "card");
    Cleaned(kept,
            ZRule(TextField(kept, "location"), TextField(kept, "Z"),
                  TextField(kept, "dev_qual"), TextField(kept, "card")))
  }

  // ---------------------------------------------------------------------------
  // the client form

  /** A calendar date; compared as Python compares `datetime.date` values. */
  datatype Date = Date(year: int, month: int, day: int)

  predicate Before(a: Date, b: Date)
  {
    a.year < b.year
    || (a.year == b.year && (a.month < b.month || (a.month == b.month && a.day < b.day)))
  }

  /** The client form's clean(): a test date before the birth date is an error; a missing date is left to the field. */
  function CleanClient(birthdate: Option<Date>, testDate: Option<Date>): (r: Option<FormError>)
    ensures r.Some? <==> birthdate.Some? && testDate.Some? && Before(testDate.value, birthdate.value)
    ensures r.Some? ==> r.value == TestBeforeBirth
  {
    if birthdate.Some? && testDate.Some? && Before(testDate.value, birthdate.value)
    then Some(TestBeforeBirth) else None
  }
}
