# Rorschach scoring core, modelled in Dafny

This project models the scoring core of a Django application that scores the
Rorschach test in the Exner Comprehensive System, and proves properties of
that model. It covers five parts.

- **The structural summary** (`models.dfy`, `engine.dfy`, `sections.dfy`,
  `tables.dfy`, `records.dfy`, `indices.dfy`).
  - `StructuralSummary.calculate_values` is modelled as a class whose methods
    assign its sections field by field.
  - A run maps every card to its Arabic number and rewrites each response's
    special scores, so that each response carries exactly one GHR or PHR when
    it involves human representation.
  - It then counts locations, qualities, determinants and contents; builds
    the approach lists and the core, affect, interpersonal, ideation,
    mediation, processing and self-perception sections; and sets the six
    special indices.
  - A run stops at the first step that raises: a card outside I..X, the
    EBper division, an empty record, or WDA% without a denominator. The
    fields assigned before that step keep their new values.
  - `Client.calculate_age` and both `save` methods are modelled too.
- **The form validators** (`forms.dfy`): the symbol vocabularies of the
  response-coding form, its Z-score rule, and the client form's date check.
- **The shared view helpers** (`cards.dfy`): the group-level gate, the card
  label normaliser (`normalize_card_to_num`) and `to_roman`.
- **The intermediate and advanced response pages** (`upload.dfy`,
  `intermediate.dfy`, `advanced.dfy`):
  - spreadsheet header aliases, text clean-up and the determinant typo fix;
  - the special-token normaliser and the row post-processing;
  - the preview and upload loops with their row caps;
  - the save-time Z advisory and the export's missing-card check;
  - the integer token and symbol scores.
- **The older views module** (`legacy.dfy`): its card conversions, header
  aliases, 70-row preview, upload cast, save advisory and export checks.
- **Python's string operations** (`text.dfy`): those the code relies on.

Loops in the source are methods with loop invariants, each proved against a
recursive specification function. Each function's properties are proved as
lemmas: round trips, idempotence, counts, orderings, and agreement between
the old and new views.

The summary and the upload pages compute what the source computes, including
four behaviours that look unintended (see "## Findings"):

- `fqx_none` and `mq_none` count the form quality "none", which the form
  never stores, while `wd_none` counts "no";
- `blends_r` reports 1 blend when a record has none;
- DEPI3 reads the age's pair of egocentricity bounds the wrong way round;
- the determinant typo fix matches case-insensitively, so it rewrites the
  human-movement code `Mp` to `mp`.

For each of these, the corrected definition and the property it was evidently
meant to have are proved beside the as-written one. The run does not use the
corrected definitions.

## Model

| member | source | states |
|---|---|---|
| PyText.Strip | scoring/forms.py:34 | `strip()` never lengthens its input |
| PyText.StripSlice | scoring/forms.py:34 | `strip()` keeps one slice of its input and removes only whitespace before and after it |
| PyText.StripEdges | scoring/forms.py:34 | `strip()` leaves no whitespace at either end |
| PyText.LStripSuffix | scoring/forms.py:34 | `lstrip()` removes a run of whitespace from the front and keeps the rest as it is |
| PyText.RStripPrefix | scoring/forms.py:34 | `rstrip()` removes a run of whitespace from the end and keeps the rest as it is |
| PyText.LStripEdge | scoring/forms.py:34 | what `lstrip()` leaves does not start with whitespace |
| PyText.RStripEdges | scoring/forms.py:34 | `rstrip()` of a text that does not start with whitespace neither starts nor ends with it |
| PyText.StripTrimmed | scoring/forms.py:34 | a string that neither starts nor ends with whitespace is its own `strip()` |
| PyText.StripIdempotent | scoring/forms.py:34 | stripping twice is stripping once |
| PyText.StripChars | scoring/forms.py:34 | `strip()` keeps only characters of its input |
| PyText.RStripChar | scoring/models.py:636 | `rstrip(',')` is the longest prefix that does not end in a comma, and only commas are removed |
| PyText.Lower | scoring/legacy/views.py:121-126 | `lower()` maps each ASCII capital to its small letter and keeps every other character, length unchanged |
| PyText.Upper | scoring/legacy/views.py:96-98 | `upper()` maps each ASCII small letter to its capital and keeps every other character, length unchanged |
| PyText.UpperFixed | scoring/legacy/views.py:96-98 | a string with no small ASCII letter is its own `upper()` |
| PyText.UpperIdempotent | scoring/legacy/views.py:96-98 | upper-casing twice is upper-casing once |
| PyText.RemoveChar | scoring/forms.py:34 | `replace(' ', '')` leaves no space, keeps only input characters and changes nothing without a space |
| PyText.ReplaceChar | scoring/views/_base.py:41-42 | `replace(c, t)` changes nothing when `c` does not occur |
| PyText.ReplaceCharGone | scoring/views/_base.py:41-42 | `replace(c, t)` leaves no `c` behind when `t` holds none |
| PyText.SplitRuns | scoring/models.py:435 | `re.split('[.,]+', s)` gives at least one piece |
| PyText.SplitRunsPieces | scoring/models.py:435 | the pieces of such a split hold no separator and only input characters |
| PyText.SplitRunsWhole | scoring/models.py:435 | a string without separators splits into itself alone |
| PyText.SplitRunsSeparator | scoring/models.py:435 | a leading run of separators gives one empty piece before the rest |
| PyText.SplitRunsJoin | scoring/models.py:458-459 | non-empty separator-free pieces joined by separators split back into the same pieces |
| PyText.WordsOf | scoring/models.py:459 | `split()` gives non-empty words without whitespace |
| PyText.WordsChars | scoring/models.py:459 | every character of a word is a character of the input |
| PyText.NonEmpty | scoring/views/advanced.py:437 | the filter `if s.strip()` keeps non-empty pieces of the input, in order |
| PyText.WordsOfJoin | scoring/models.py:459 | whitespace-free words joined by spaces split back into the same words |
| PyText.SplitOn | scoring/models.py:637 | `split(',')` gives at least one piece, no piece holds a comma, and the pieces joined by commas give the text back |
| PyText.SplitOnPieces | scoring/models.py:637 | `split(',')` has one piece more than the text has commas |
| PyText.Dedupe | scoring/views/intermediate.py:112 | `dict.fromkeys` keeps exactly the input's elements, each once, in the order of their first occurrence |
| PyText.DedupeDistinct | scoring/views/intermediate.py:112 | a sequence without repeats is its own de-duplication |
| CardBase.Gate | scoring/views/_base.py:11-23 | an anonymous user is sent to login; a signed-in user is admitted exactly when the level of their group (0 when it has none) reaches the level the page requires |
| CardBase.GateMonotone | scoring/views/_base.py:7-19 | a user admitted to a page is admitted to every page that requires a lower or equal group |
| CardBase.GateExtremes | scoring/views/_base.py:7-21 | a user with no group or an unknown one is refused everywhere; an advanced user is admitted everywhere |
| CardBase.RomanTablesInverse | scoring/views/_base.py:31-33 | ROMAN_TO_NUM and NUM_TO_ROMAN are inverse, and the card numbers are exactly "1".."10" |
| CardBase.RomanTableValues | scoring/views/_base.py:31-33 | the numbers ROMAN_TO_NUM gives and the numbers NUM_TO_ROMAN knows are exactly the card numbers "1".."10" |
| CardBase.NumeralInverse | scoring/views/_base.py:31-33 | each numeral I..X maps to a number that maps back to it |
| CardBase.NumberInverse | scoring/views/_base.py:31-33 | each number "1".."10" maps to a numeral that maps back to it |
| CardBase.KeepCardChars | scoring/views/_base.py:48 | the filter keeps only I, V, X and digits, and leaves a string already made of them unchanged |
| CardBase.StemToNum | scoring/views/_base.py:44-56 | the upper-cased, filtered stem gives a card number "1".."10", or the stem unchanged |
| CardBase.NormalizeCardToNum | scoring/views/_base.py:36-56 | a null label gives the empty string; any other label gives a card number or its own trimmed, glyph-replaced text |
| CardBase.ToRoman | scoring/views/_base.py:59-61 | a label that names a card gives that card's numeral; otherwise the trimmed label ("None" for a null one) |
| CardBase.AsciiLabelPlain | scoring/views/_base.py:39-42 | a trimmed ASCII label is unchanged by trimming and by the glyph replacement |
| CardBase.RomanAnyCase | scoring/views/_base.py:44-46 | a numeral I..X typed in any mix of cases is read as its card number |
| CardBase.CardNumbersAreDigits | scoring/views/_base.py:31-33 | every card number is a non-empty string of digits |
| CardBase.RomanKeysAreLetters | scoring/views/_base.py:31-32 | every numeral is non-empty and starts with I, V or X |
| CardBase.DigitsKept | scoring/views/_base.py:48 | digits pass the character filter unchanged |
| CardBase.DigitsNoNumeral | scoring/views/_base.py:31-32 | no string of digits is a Roman numeral |
| CardBase.DigitsUpper | scoring/views/_base.py:44 | digits are unchanged by upper-casing |
| CardBase.NumberFixed | scoring/views/_base.py:53-54 | a card number "1".."10" is read as itself |
| CardBase.UpperRomanPlain | scoring/views/_base.py:31-32 | a numeral is already upper-case ASCII |
| CardBase.RomanKeysSpelt | scoring/views/_base.py:31-32 | the numerals are spelt with I, V and X only |
| CardBase.RoundTrip | scoring/views/_base.py:36-61 | every card number converts to its numeral and back: `normalize_card_to_num(to_roman(n)) == n` |
| CardBase.ToRomanIdempotent | scoring/views/_base.py:59-61 | converting an already converted label changes nothing |
| CardBase.NumeralRoundTrip | scoring/views/_base.py:59-61 | `to_roman` of a numeral I..X is that numeral |
| CardBase.TrimmedSameCard | scoring/views/_base.py:39 | trimming a label first does not change the card it names, and a label naming no card converts to its trimmed text |
| CardBase.NoNumeralLabel | scoring/views/_base.py:48-56 | a label with no I, V, X or digit names no card and comes back as typed |
| CardBase.EmptyNamesNoCard | scoring/views/_base.py:31-33 | the empty string is neither a numeral nor a card number |
| CardBase.NotANumeral | scoring/views/_base.py:31-32 | a string without I, V, X or digits is not a numeral |
| CardBase.NoneLabel | scoring/views/_base.py:59-61 | the text "None" names no card and converts to itself |
| CardBase.NoneNotANumber | scoring/views/_base.py:33 | "None" is not a card number |
| CardBase.KeptLabel | scoring/views/_base.py:61 | a trimmed label that names no card converts to itself |
| CardBase.NoNumeralChars | scoring/views/_base.py:48 | the filter removes everything from a string without I, V, X or digits |
| CardBase.GlyphRead | scoring/views/_base.py:26-46 | each Unicode glyph Ⅰ..Ⅹ is read as its card number |
| CardBase.GlyphEntry | scoring/views/_base.py:26-29 | entry k of the glyph table is the glyph U+2160+k, spelt as a numeral of the card table |
| CardBase.GlyphSteps | scoring/views/_base.py:41-42 | replacing the table's entries in order turns a lone glyph into its spelling |
| CardBase.GlyphSkipped | scoring/views/_base.py:41-42 | an earlier entry leaves a lone later glyph alone |
| CardBase.GlyphReplaced | scoring/views/_base.py:41-42 | a glyph's own entry spells it, and no later entry changes the spelling |
| CardBase.SpellingGlyphFree | scoring/views/_base.py:26-29 | the ASCII spelling of a glyph holds no glyph |
| CardBase.GlyphFreeFixed | scoring/views/_base.py:41-42 | the glyph replacement leaves a string without glyphs unchanged |
| Forms.Tokens | scoring/forms.py:34 | the raw codes of a multi-code field, at least one |
| Forms.CodePieces | scoring/forms.py:34 | the stripped codes of a multi-code field, at least one |
| Forms.StripEach | scoring/forms.py:34 | each code is its raw piece stripped, one for one |
| Forms.FoldDeterminant | scoring/forms.py:35-36 | a determinant code is lower-cased unless it is one of ma, mp, Ma, Mp, Ma-p, which are kept |
| Forms.ValidateCard | scoring/forms.py:8-14 | a card is accepted exactly when it is one of I..X or 1..10, and returned unchanged; otherwise a symbol error |
| Forms.ValidateLocation | scoring/forms.py:17-22 | a location is accepted exactly when it is one of W, WS, D, DS, Dd, DdS |
| Forms.ValidateDevQual | scoring/forms.py:25-30 | a development quality is accepted exactly when it is one of +, o, v/+, v |
| Forms.FoldEach | scoring/forms.py:35-36 | every code is folded, one for one |
| Forms.LowerEach | scoring/forms.py:63 | every code is lower-cased, one for one |
| Forms.ValidateDeterminants | scoring/forms.py:33-45 | determinants are accepted exactly when every folded code is in the determinant vocabulary |
| Forms.ValidateSpecial | scoring/forms.py:48-58 | special scores are accepted exactly when every stripped code is in the special vocabulary, case-sensitively |
| Forms.ValidateContents | scoring/forms.py:61-72 | contents are accepted exactly when every lower-cased code is in the content vocabulary |
| Forms.ValidateFormQuality | scoring/forms.py:75-80 | a form quality is accepted exactly when it is one of +, o, u, -, no |
| Forms.ValidatePopular | scoring/forms.py:83-88 | popular is accepted exactly when it is P or empty; otherwise the "P only" error |
| Forms.ValidateZ | scoring/forms.py:91-96 | a Z score is accepted exactly when it is one of ZA, ZW, ZD, ZS |
| Forms.ValidatePair | scoring/forms.py:99-104 | a pair is accepted exactly when it is 2; otherwise the "enter 2" error |
| Forms.SplitRunsTrailing | scoring/forms.py:34 | a split whose input ends with a separator ends with an empty piece |
| Forms.EmptyCodeAtEdge | scoring/forms.py:34 | a code field starting or ending with a separator yields an empty code |
| Forms.DanglingSeparatorRejected | scoring/forms.py:33-72 | a leading or trailing separator makes the determinant, special and content validators all reject |
| Forms.EmptyIsNoCode | scoring/forms.py:39-40 | the empty code is in none of the three vocabularies |
| Forms.StripEachTrimmed | scoring/forms.py:34 | codes without surrounding whitespace are unchanged by the strip |
| Forms.CodePiecesOfJoin | scoring/forms.py:34 | plain codes joined by one separator read back as exactly those codes |
| Forms.DeterminantCodesAccepted | scoring/forms.py:33-45 | joined codes pass exactly when each is a kept spelling or lower-cases into the vocabulary ("MA" passes, "M" fails) |
| Forms.SpecialCodesAccepted | scoring/forms.py:48-58 | joined codes pass exactly when each is spelt as in the vocabulary |
| Forms.ZRule | scoring/forms.py:165-172 | "Z needed" exactly when Z is empty and the location has a W with a quality other than v, or the quality has a +; "higher Z" exactly when Z is ZW on cards 1, 4, 5, I, II, III with a W location and a + quality |
| Forms.CleanResponse | scoring/forms.py:157-174 | keeps exactly the truthy entries, values unchanged, and adds the Z-rule error read from them |
| Forms.CleanClient | scoring/forms.py:119-128 | an error exactly when both dates are given and the test date is before the birth date |
| UploadText.DigitChar | scoring/views/intermediate.py:127 | the decimal digit character of a digit value |
| UploadText.DigitValue | scoring/views/intermediate.py:127 | the digit value of a digit character, which spells it back |
| UploadText.NatText | scoring/views/intermediate.py:122 | the spelling of a natural number is a non-empty string of digits |
| UploadText.IntText | scoring/views/intermediate.py:122 | `str(n)` is non-empty, has no point, starts with a sign or digit and ends with a digit |
| UploadText.NatTextValue | scoring/views/intermediate.py:122 | reading back the spelling of a number gives the number |
| UploadText.IndexOf | scoring/views/intermediate.py:127 | the first position of a character in a text |
| UploadText.FloatToIntOfText | scoring/views/intermediate.py:127 | `int(float(str(n))) == n`, reading the numeral exactly |
| UploadText.FloatToIntTruncates | scoring/views/intermediate.py:127 | `int(float(text))` drops a fraction, truncating toward zero, reading the numeral exactly |
| UploadText.FloatToInt | scoring/views/intermediate.py:127 | empty text does not read as a number |
| UploadText.ParseIntOfText | scoring/legacy/views.py:497-503 | `int(str(n)) == n` |
| UploadText.ParseInt | scoring/legacy/views.py:497-503 | blank text does not read as an integer, and a negative integer is read only from text whose first non-blank character is "-" |
| UploadText.MarkSettled | scoring/views/advanced.py:60-65 | a replaced mark is not replaced again, is none of the removed characters, and a visible character never becomes whitespace |
| UploadText.Translate | scoring/views/advanced.py:65 | every character is replaced by its mark, one for one |
| UploadText.CleanText | scoring/views/advanced.py:52-66 | the cleaned text holds no no-break, zero-width space or non-joiner, every character is its own mark, and no whitespace at either end |
| UploadText.TranslateSettled | scoring/views/advanced.py:58-65 | translating text that is already cleaned keeps it cleaned |
| UploadText.CleanTextIdempotent | scoring/views/advanced.py:52-66 | cleaning cleaned text changes nothing |
| UploadText.NormalizeTextValue | scoring/views/intermediate.py:85-96 | None becomes '', a number is kept, text is cleaned |
| UploadText.NormalizeTextValueIdempotent | scoring/views/intermediate.py:85-96 | normalising a normalised value changes nothing |
| UploadText.Compact | scoring/views/intermediate.py:75-78 | a compacted header holds no space and no capital; so the map's keys "Z" and "형태 질" are never looked up |
| UploadText.HeaderIgnoresCase | scoring/views/intermediate.py:80-83 | headers that differ only in letter case name the same field |
| UploadText.CompactLower | scoring/views/intermediate.py:75-78 | compacting a lower-cased header gives what compacting the header gives |
| UploadText.HeaderIgnoresTrailingColon | scoring/views/intermediate.py:75-78 | a header followed by spaces and an ASCII or full-width colon names the same field as the header alone |
| UploadText.StripLower | scoring/views/intermediate.py:75-78 | stripping and lower-casing commute |
| UploadText.LowerIdempotent | scoring/views/intermediate.py:78 | lower-casing twice is lower-casing once |
| UploadText.MappedHeaders | scoring/views/intermediate.py:259-260 | one mapped field per header cell |
| UploadText.IndexByField | scoring/views/intermediate.py:261 | a field is indexed exactly when some header names it, at the position of the last column that names it |
| UploadText.MissingFields | scoring/views/intermediate.py:262 | a required field is reported missing exactly when no header names it |
| UploadText.IntTextTrimmed | scoring/views/intermediate.py:122 | the spelling of an integer has no blank edges |
| UploadText.NumberTextTrimmed | scoring/views/intermediate.py:122 | a text starting with a sign or digit and ending with a digit or point has no blank edges |
| UploadText.CastIntCellReads | scoring/views/intermediate.py:121-129 | an integer, its spelling, and its spelling with a fraction all cast to that integer |
| UploadText.CastIntCellSettles | scoring/views/intermediate.py:121-129 | blank text casts to '', and a cast value casts to itself |
| UploadText.CastIntCell | scoring/views/intermediate.py:121-129 | a cell casts to '' exactly when it renders blank; otherwise it is kept or becomes a number |
| UploadText.CastAllAt | scoring/views/intermediate.py:121-129 | casting distinct keys adds them and casts each from its original value, leaving other keys alone |
| UploadText.IntKeySet | scoring/views/intermediate.py:121 | the integer keys are response_num and loc_num |
| UploadText.ReadFieldsAt | scoring/views/intermediate.py:277-282 | each required field holds its normalised cell, a cell past the row's end reading as '' |
| UploadText.ReadRow | scoring/views/intermediate.py:277-282 | the loop over the required fields builds exactly that row data |
| IntermediateViews.TypoAt | scoring/views/intermediate.py:102 | the length (0, 2 or 3) of an `m['’`]?p` typo at the start of the text, which ends at a word boundary |
| IntermediateViews.FixDeterminantTypos | scoring/views/intermediate.py:98-105 | empty text is returned as it is with no note; one note exactly when the text changed |
| IntermediateViews.FixAfterWord | scoring/views/intermediate.py:102 | inside a word no typo is matched: the first character is kept |
| IntermediateViews.NoTypoCreated | scoring/views/intermediate.py:102 | the substitution never creates a match it would then rewrite |
| IntermediateViews.FixFrom | scoring/views/intermediate.py:102 | the typo correction never lengthens the determinants |
| IntermediateViews.FixFromIdempotent | scoring/views/intermediate.py:102 | correcting corrected determinants changes nothing |
| IntermediateViews.FixDeterminantTyposIdempotent | scoring/views/intermediate.py:98-105 | correcting corrected determinants changes nothing |
| IntermediateViews.HumanMovementRewritten | scoring/views/intermediate.py:102 | as written, the case-insensitive match turns the human-movement code Mp, which the form accepts, into mp |
| IntermediateViews.MpRewritten | scoring/views/intermediate.py:102 | as written, Mp is rewritten to mp |
| IntermediateViews.MpOnePiece | scoring/forms.py:34 | the form reads Mp as one code |
| IntermediateViews.MpAccepted | scoring/forms.py:33-45 | the form accepts Mp as a determinant of its own |
| IntermediateViews.TypoHoldsNoM | scoring/views/intermediate.py:102 | a typo matched with a small m holds no capital M |
| IntermediateViews.TypoRewritten | scoring/views/intermediate.py:102 | a typo at a word boundary is rewritten to mp |
| IntermediateViews.TypoStepKeepsM | scoring/views/intermediate.py:102 | rewriting a small-m typo keeps the capital Ms of the rest |
| IntermediateViews.CopyStepKeepsM | scoring/views/intermediate.py:102 | copying a character keeps the capital Ms of the rest |
| IntermediateViews.HumanMovementKept | scoring/views/intermediate.py:102 | matching only the small m, the correction keeps every human-movement M |
| IntermediateViews.UpperEach | scoring/views/intermediate.py:111 | every token upper-cased, one for one |
| IntermediateViews.UpperCharAvoids | scoring/views/intermediate.py:111 | upper-casing a character that is no separator gives no separator and no small letter |
| IntermediateViews.UpperAvoids | scoring/views/intermediate.py:111 | upper-casing keeps a token free of separators and leaves no small letter |
| IntermediateViews.SpecialTokensSettled | scoring/views/intermediate.py:107-112 | the normalised tokens are non-empty, separator-free, upper-case and distinct |
| IntermediateViews.PieceTrimmed | scoring/views/intermediate.py:111 | a token without separators is already stripped |
| IntermediateViews.NormalizeSpecialTokensIdempotent | scoring/views/intermediate.py:107-112 | normalising normalised special scores changes nothing |
| IntermediateViews.SettledTokensFixed | scoring/views/intermediate.py:107-112 | settled tokens joined by ", " split back into the same tokens |
| IntermediateViews.SettledJoinSplits | scoring/views/intermediate.py:110-112 | a join of settled tokens is stripped and splits back into the tokens |
| IntermediateViews.SettledTokensKept | scoring/views/intermediate.py:111-112 | stripping, dropping empties, upper-casing and de-duplicating leave settled tokens alone |
| IntermediateViews.TokenFrom | scoring/views/intermediate.py:117 | true exactly when the token occurs, bordered by separators or the ends, at some position from `i` on |
| IntermediateViews.DetectToken | scoring/views/intermediate.py:114-117 | true exactly when the text is non-empty and the token occurs bordered by separators or the ends |
| IntermediateViews.DetectJoined | scoring/views/intermediate.py:112-117 | every token of a normalised special-score list is detected in it |
| IntermediateViews.JoinAt | scoring/views/intermediate.py:112 | each token of a join sits bordered by the separator or the ends |
| IntermediateViews.CleanAllAt | scoring/views/intermediate.py:130-132 | each listed text key present is normalised, other keys keep their values, no key is added |
| IntermediateViews.KeyListsApart | scoring/views/intermediate.py:121-130 | the number keys and the text keys hold no repeats and no key is in both |
| IntermediateViews.PostprocessedSteps | scoring/views/intermediate.py:119-133 | post-processing is the card conversion, then the number casts, then the text clean-up |
| IntermediateViews.PostprocessedKeys | scoring/views/intermediate.py:119-133 | post-processing adds the card and number keys and no other |
| IntermediateViews.PostprocessedCard | scoring/views/intermediate.py:120 | the card becomes the numeral `to_roman` gives |
| IntermediateViews.PostprocessedNumber | scoring/views/intermediate.py:121-129 | each number key holds its cast value: '' when blank, the integer when it parses, else the text |
| IntermediateViews.PostprocessedText | scoring/views/intermediate.py:130-132 | each text key present is normalised |
| IntermediateViews.PostprocessedOther | scoring/views/intermediate.py:119-133 | every other key keeps its value |
| IntermediateViews.PostprocessIdempotent | scoring/views/intermediate.py:119-133 | post-processing a post-processed row changes nothing |
| IntermediateViews.PostprocessRow | scoring/views/intermediate.py:119-133 | the method updates the row to exactly the post-processed data |
| IntermediateViews.CastNumberKeys | scoring/views/intermediate.py:121-129 | the loop over the number keys gives exactly the cast data |
| IntermediateViews.CleanTextKeys | scoring/views/intermediate.py:130-132 | the loop over the text keys gives exactly the cleaned data |
| IntermediateViews.SafeExtra | scoring/views/intermediate.py:141-143 | the blank forms requested, clamped to 0..100 |
| IntermediateViews.PreviewExtra | scoring/views/intermediate.py:145-148 | at most 40 blank forms, never past 100 rows in all; 40 when 60 rows or fewer are loaded, none at 100 |
| IntermediateViews.AddItemsTotal | scoring/views/intermediate.py:338-341 | "add a row" gives one more form, up to 100 |
| IntermediateViews.KeptRows | scoring/views/intermediate.py:267-273 | exactly the rows whose required cells are not all blank, in sheet order |
| IntermediateViews.CorrectedSettled | scoring/views/intermediate.py:285-292 | the corrections raise exactly when a determinants or special cell is a non-zero number; otherwise, under the case-insensitive match, the corrected row holds no typo to rewrite, its special scores are normalised, and the fix is noted exactly when the determinants changed |
| IntermediateViews.Corrected | scoring/views/intermediate.py:283-292 | the corrections raise exactly when the determinants or the special scores are a non-zero number; a corrected row keeps its keys |
| IntermediateViews.PreviewRowRaises | scoring/views/intermediate.py:276-292 | a kept row raises exactly when its determinants or special cell holds a non-zero number |
| IntermediateViews.Marks | scoring/views/intermediate.py:276 | a number from the base is gathered exactly for each flagged position, in ascending order |
| IntermediateViews.SnocMembers | scoring/views/intermediate.py:292 | appending a larger number, or not, leaves the others' membership alone |
| IntermediateViews.LoadRows | scoring/views/intermediate.py:275-299 | every kept row is loaded, in order, as its corrected data, and the loop raises at the first row whose correction raises |
| IntermediateViews.LoadRowsNumbered | scoring/views/intermediate.py:276-292 | the noted rows are exactly the corrected ones, numbered from 2, in order |
| IntermediateViews.PreviewRows | scoring/views/intermediate.py:276-299 | one pre-filled row per kept row |
| IntermediateViews.KeepRows | scoring/views/intermediate.py:268-273 | the loop keeps exactly the non-blank rows |
| IntermediateViews.LoadKept | scoring/views/intermediate.py:275-299 | the loop loads exactly the corrected rows and notes exactly the corrected ones, or raises exactly when some row raises |
| IntermediateViews.Preview | scoring/views/intermediate.py:259-315 | the upload branch gives exactly the specified preview: missing columns, a raised correction, or the loaded rows |
| IntermediateViews.PreviewBounds | scoring/views/intermediate.py:259-315 | missing columns exactly when a required field has no header; a loaded preview holds the first 100 kept rows, each corrected, says whether rows were cut, and offers blank forms up to 100 rows in all |
| IntermediateViews.LoadedPreviewBounds | scoring/views/intermediate.py:275-315 | loaded rows never report missing columns and raise exactly when some row's correction raises; otherwise the first 100 rows are shown, each corrected, the cut is reported exactly past 100 rows, and blank forms fill up to 100 rows |
| IntermediateViews.PreviewRaisesExactly | scoring/views/intermediate.py:259-299 | the upload branch raises exactly when every required column is present and some kept row's correction raises |
| IntermediateViews.SaveSteps | scoring/views/intermediate.py:347-350 | one step per form |
| IntermediateViews.SaveForm | scoring/views/intermediate.py:351-358 | a form is counted as fixed exactly when its saved determinants differ from those submitted |
| IntermediateViews.Collect | scoring/views/intermediate.py:346-369 | no more codes saved than forms, and no more fixes counted than codes saved |
| IntermediateViews.AdvisedFlags | scoring/views/intermediate.py:364-365 | one flag per form |
| IntermediateViews.CollectNumbered | scoring/views/intermediate.py:347-365 | the warnings are exactly the advised forms, numbered from 1, in order |
| IntermediateViews.SaveForms | scoring/views/intermediate.py:345-369 | the save loop gives exactly the specified codes, warnings and fix count |
| IntermediateViews.FirstCardSpelt | scoring/views/intermediate.py:352-364 | a valid card that reads as card 1 after `to_roman` is "1" or "I" |
| IntermediateViews.NumeralOne | scoring/views/_base.py:33 | card 1 is numeral I |
| IntermediateViews.ZWSpelt | scoring/views/intermediate.py:363 | a valid Z that reads as ZW once trimmed and upper-cased is ZW |
| IntermediateViews.AdvisoryImpliesHigherZ | scoring/views/intermediate.py:360-365 | the Z advisory fires only where the form's clean() has already added the "higher Z" error |
| IntermediateViews.ValidFormSetNotAdvised | scoring/views/intermediate.py:345-365 | a form set whose forms all passed clean() without a Z error is saved with no advisory |
| IntermediateViews.NothingAdvised | scoring/views/intermediate.py:364-365 | no advised step, no warning |
| IntermediateViews.SavedSettled | scoring/views/intermediate.py:351-358 | under the case-insensitive match, saved determinants hold no typo, saved special scores are normalised, and the saved card is its own `to_roman` |
| IntermediateViews.CardNumberIn | scoring/views/intermediate.py:591 | the rank's number is one of "1".."10" |
| IntermediateViews.CardNumberKey | scoring/views/intermediate.py:592 | the sort key `int(n)` of a card number is its rank |
| IntermediateViews.CardNumberOnto | scoring/views/intermediate.py:591 | every card number is the number of some rank |
| IntermediateViews.MissingFrom | scoring/views/intermediate.py:591-592 | exactly the ranks whose card number is not found, ascending |
| IntermediateViews.NothingMissing | scoring/views/intermediate.py:592-593 | nothing is missing exactly when every card number is found |
| IntermediateViews.CheckExport | scoring/views/intermediate.py:590-595 | the summary goes ahead exactly when all ten cards are found; otherwise the report names the missing cards' numerals |
| IntermediateViews.MissingReportReadsBack | scoring/views/intermediate.py:592-594 | each numeral of the report reads back as the number of a card without a response |
| IntermediateViews.MissingReportOrdered | scoring/views/intermediate.py:592 | the report lists the cards in ascending order of card number |
| IntermediateViews.MissingReportComplete | scoring/views/intermediate.py:590-594 | every card without a response is named in the report |
| IntermediateViews.RankRomanReadsBack | scoring/views/intermediate.py:594 | the numeral of a rank reads back as that rank's card number |
| AdvancedViews.FilledRowNotBlank | scoring/views/advanced.py:118-119 | a row holding a number, or text that is not all whitespace, is not blank |
| AdvancedViews.DataRows | scoring/views/advanced.py:177-178 | exactly the rows that are not blank, never more than the sheet holds |
| AdvancedViews.Allowance | scoring/views/advanced.py:186 | all 100 rows when replacing; otherwise what is left of 100, zero exactly when the client already has 100 |
| AdvancedViews.CapRowsBounds | scoring/views/advanced.py:186-194 | the cap stops exactly when adding to a full client; otherwise it keeps a prefix of at least one row within the allowance, cut exactly when there were more |
| AdvancedViews.CapRows | scoring/views/advanced.py:186-194 | the cap is reached exactly when the allowance is 0; otherwise a prefix of the rows within the allowance is kept, non-empty when the rows are, and the cut is reported exactly when the rows exceed the allowance |
| AdvancedViews.PlanUpload | scoring/views/advanced.py:166-194 | an accepted upload writes a non-empty prefix of the non-blank rows |
| AdvancedViews.UploadCap | scoring/views/advanced.py:166-194 | an accepted upload writes the first non-blank rows, at least one and within the allowance, so the client never holds more than 100; no rows and a full client are reported exactly when they occur |
| AdvancedViews.SplitEach | scoring/views/advanced.py:224 | `re.split('[;,]', s)` gives at least one piece, none holding a separator |
| AdvancedViews.SplitEachPrefix | scoring/views/advanced.py:224 | a separator-free prefix joins the first piece of what follows |
| AdvancedViews.SplitEachSeparator | scoring/views/advanced.py:224 | a separator opens a new piece |
| AdvancedViews.SplitEachJoin | scoring/views/advanced.py:224-230 | symbols joined by ", " split into the first symbol and each later one behind its space |
| AdvancedViews.SpacedStrip | scoring/views/advanced.py:224 | a trimmed symbol behind one space strips back to itself |
| AdvancedViews.ReplacePair | scoring/views/advanced.py:225 | `replace` of a two-character pattern introduces only the replacement character and keeps the text's edges or replaces them |
| AdvancedViews.ClosePoints | scoring/views/advanced.py:225 | closing up the points introduces only points and keeps the edges or makes them points |
| AdvancedViews.ClosePointsEach | scoring/views/advanced.py:225 | every symbol closed up, one for one |
| AdvancedViews.PiecesPlain | scoring/views/advanced.py:224 | every stripped, non-empty piece is non-empty, separator-free and trimmed |
| AdvancedViews.StrippedPlain | scoring/views/advanced.py:224 | a separator-free piece that does not strip to nothing strips to such a symbol |
| AdvancedViews.ClosedPlain | scoring/views/advanced.py:225 | closing up the points of such a symbol keeps it one |
| AdvancedViews.ClosedEachPlain | scoring/views/advanced.py:225 | closing up the points of such symbols keeps them such |
| AdvancedViews.SymbolsPlain | scoring/views/advanced.py:221-230 | the standardised symbols are plain and distinct |
| AdvancedViews.PiecesOfJoin | scoring/views/advanced.py:224-230 | plain symbols joined by ", " read back as themselves |
| AdvancedViews.StdSymbolsReadsBack | scoring/views/advanced.py:221-230 | the standardised text splits back into exactly its symbols, each once |
| AdvancedViews.StdSymbolsIdempotent | scoring/views/advanced.py:221-230 | standardising standardised text changes nothing when no symbol has a point left to close up |
| AdvancedViews.StdSymbolsTwice | scoring/views/advanced.py:225 | one pass leaves a space before a point preceded by two spaces, so standardising twice can differ |
| AdvancedViews.ClosesTwoSpaces | scoring/views/advanced.py:225 | "a  .b" closes up to "a .b" |
| AdvancedViews.ClosesOneSpace | scoring/views/advanced.py:225 | "a .b" closes up to "a.b" |
| AdvancedViews.PlainSample | scoring/views/advanced.py:224 | a text of letters, spaces and points between two letters is a plain symbol |
| AdvancedViews.PiecesOfPlain | scoring/views/advanced.py:224 | a plain symbol is its own only piece |
| AdvancedViews.SymbolOfPlain | scoring/views/advanced.py:221-230 | a plain symbol standardises to its closed-up form |
| AdvancedViews.SymbolCell | scoring/views/advanced.py:221-233 | a falsy cell is returned as it is; text and non-zero numbers are standardised as text |
| AdvancedViews.CastFailureKeeps | scoring/views/advanced.py:211-219 | a failed cast leaves the value as it was; a successful one gives an integer or '' |
| AdvancedViews.CastErrorsExact | scoring/views/advanced.py:211-219 | an error is reported, under the row's number, for exactly the number keys whose text does not read as a number |
| AdvancedViews.CastNumbers | scoring/views/advanced.py:211-219 | the loop casts the number keys and reports exactly the failures |
| AdvancedViews.CastKey | scoring/views/advanced.py:212-219 | one key cast in place, failure reported exactly when the text does not read as a number |
| AdvancedViews.StandardiseSymbols | scoring/views/advanced.py:232-233 | the loop standardises exactly the symbol keys |
| AdvancedViews.UploadRow | scoring/views/advanced.py:202-233 | the loop body builds exactly the row's data and its cast errors |
| AdvancedViews.UploadData | scoring/views/advanced.py:201-235 | one data row per accepted row |
| AdvancedViews.UploadRows | scoring/views/advanced.py:201-235 | every accepted row goes on to the form, whatever its casts reported, with exactly the specified errors |
| AdvancedViews.UploadErrorRows | scoring/views/advanced.py:201-219 | every error names an accepted row, numbered from 2, and a number key |
| AdvancedViews.RowErrorsNamed | scoring/views/advanced.py:219 | a row's errors carry its number and a number key |
| AdvancedViews.RowErrorsExact | scoring/views/advanced.py:211-219 | a number key is reported exactly when its cast fails |
| AdvancedViews.UploadErrorsExact | scoring/views/advanced.py:201-219 | a failed cast is reported under its row's sheet number exactly when it fails, whatever the other rows hold |
| AdvancedViews.PairText | scoring/views/advanced.py:399-400 | a non-empty pair value is a plain determinant token |
| AdvancedViews.IntTextPlain | scoring/views/advanced.py:400 | the spelling of an integer is a plain determinant token |
| AdvancedViews.ApplyPairReadsBack | scoring/views/advanced.py:397-405 | the written determinants read back as the original tokens plus the pair value exactly when it is not blank and not among them; no tokens at all are written as NaN |
| AdvancedViews.ApplyPair | scoring/views/advanced.py:397-405 | the row raises exactly when the pair value is not blank and `int()` rejects it; the determinants become NaN only when there are no tokens and no pair value |
| AdvancedViews.PairIntoReadsBack | scoring/views/advanced.py:401-404 | the same, for a given pair text |
| AdvancedViews.ReapplyPair | scoring/views/advanced.py:401-404 | tokens already written, the pair among them, are written back unchanged |
| AdvancedViews.PairIntoIdempotent | scoring/views/advanced.py:401-404 | joining the same pair value again changes nothing |
| AdvancedViews.ApplyPairIdempotent | scoring/views/advanced.py:397-405 | applying the same pair marker again changes nothing |
| AdvancedViews.JoinTrimmed | scoring/views/advanced.py:398-404 | plain tokens joined by ", " strip to themselves |
| AdvancedViews.JoinEdges | scoring/views/advanced.py:404 | plain tokens joined by ", " neither start nor end with whitespace |
| AdvancedViews.ApplyPairReadsNaN | scoring/views/advanced.py:398 | a NaN determinant cell is truthy and is read as the token "nan" |
| AdvancedViews.SetScoreRemove | scoring/views/advanced.py:415-418 | the sum over distinct tokens does not depend on which token is taken first |
| AdvancedViews.RowTokenScore | scoring/views/advanced.py:412-419 | the loop sums each distinct token's value for the row's card |
| AdvancedViews.SetScoreBounds | scoring/views/advanced.py:415-418 | with every value between lo and hi, the score lies between lo and hi times the number of distinct tokens |
| AdvancedViews.TokenScoreDefault | scoring/views/advanced.py:418 | a table that knows nothing of the card gives 2 per distinct token |
| AdvancedViews.TokenScoreRepeat | scoring/views/advanced.py:415 | a repeated token adds nothing |
| AdvancedViews.CellSymbolsPlain | scoring/views/advanced.py:433-437 | every scored symbol is non-empty, trimmed and holds no comma; a blank cell scores 0 |
| AdvancedViews.CellScoreDefault | scoring/views/advanced.py:437-439 | a table that knows nothing of the card and area gives 2 per symbol |
| AdvancedViews.AreaScores | scoring/views/advanced.py:429-440 | one score per row, in row order |
| AdvancedViews.SymbolSumAppend | scoring/views/advanced.py:438-439 | scoring two runs of symbols one after the other adds their scores |
| AdvancedViews.SymbolSumBounds | scoring/views/advanced.py:438-439 | with every value between lo and hi, the score lies between lo and hi times the number of symbols, repeats counted |
| AdvancedViews.SymbolSum | scoring/views/advanced.py:438-439 | with none of the symbols in the table for the card and area, the score is 2 per symbol |
| AdvancedViews.SymbolScoreDefault | scoring/views/advanced.py:439 | a table that knows nothing of the card and area gives 2 per symbol |
| AdvancedViews.SumSymbols | scoring/views/advanced.py:438-439 | the loop sums exactly the symbols' values |
| AdvancedViews.ScoreCell | scoring/views/advanced.py:432-440 | the loop body gives exactly the row's score for the area |
| AdvancedViews.ScoreRowAreas | scoring/views/advanced.py:431-440 | each area's column gets the row's score appended, nothing else changes |
| AdvancedViews.ApplySymbolScore | scoring/views/advanced.py:424-444 | for each of the three areas, exactly the column of row scores |
| LegacyViews.NumberPlain | scoring/legacy/views.py:96-98 | a card number "1".."10" has no blank edges, no lower-case letter and is no numeral, so it passes through the conversion unchanged |
| LegacyViews.LegacyRoundTrip | scoring/legacy/views.py:93-102 | a card number converts to itself, `to_roman` gives its numeral, and the numeral converts back to the number |
| LegacyViews.LegacyNumeralRead | scoring/legacy/views.py:96-102 | a numeral I..X in any ASCII case with blanks around it names its card number, and `to_roman` gives the numeral trimmed and upper-cased |
| LegacyViews.UpperKeepsTrimmed | scoring/legacy/views.py:97 | upper-casing a trimmed label leaves it trimmed |
| LegacyViews.LegacyToRomanIdempotent | scoring/legacy/views.py:100-102 | converting an already converted label changes nothing |
| LegacyViews.LegacyAgreesOnCards | scoring/legacy/views.py:96-102 | on every label the response form accepts, the legacy conversions give what the shared card normalisers give |
| LegacyViews.LegacyMissesGlyph | scoring/legacy/views.py:96-102 | the numeral glyph Ⅱ names no card to the legacy conversion and is kept as typed |
| LegacyViews.LegacyAliasNoCapitals | scoring/legacy/views.py:43-80 | no alias of the legacy header map holds a capital letter |
| LegacyViews.ShortAliasNoCapitals | scoring/legacy/views.py:43-80 | aliases of at most three characters hold no capital letter |
| LegacyViews.LongAliasNoCapitals | scoring/legacy/views.py:43-80 | aliases longer than three characters hold no capital letter |
| LegacyViews.LowerNoCapitals | scoring/legacy/views.py:124 | lower-casing text without capitals changes nothing |
| LegacyViews.LegacyHeaderLowered | scoring/legacy/views.py:121-126 | a header names the field its trimmed, lower-cased spelling maps to, and nothing when that spelling is no alias |
| LegacyViews.LegacyHeaderIgnoresCase | scoring/legacy/views.py:121-126 | headers differing only in case or surrounding blanks name the same field |
| LegacyViews.LegacyHeaderIgnored | scoring/legacy/views.py:121-126 | an "ID" or "id" column, and a missing header, name no field |
| LegacyViews.LegacyHeaderZ | scoring/legacy/views.py:121-126 | a capital "Z" header with blanks around it names the Z field |
| LegacyViews.LegacyMapped | scoring/legacy/views.py:244-245 | one field name per header cell, each the normalised text of the cell with a missing value read as '' |
| LegacyViews.LegacyCast | scoring/legacy/views.py:262-267 | a blank value is kept as it is; a changed value is always an integer; a rejected value is reported |
| LegacyViews.LegacyCastSettles | scoring/legacy/views.py:262-267 | casting the result of a cast changes nothing |
| LegacyViews.LegacyCastReads | scoring/legacy/views.py:497-503 | the decimal spelling of an integer, and the integer itself, cast to that integer |
| LegacyViews.LegacyCastAgrees | scoring/legacy/views.py:497-503 | wherever `int()` reads a non-blank value, the `int(float())` cast of the other views reads the same integer |
| LegacyViews.LegacyRejectsDecimal | scoring/legacy/views.py:497-503 | the spelling "3.0" is rejected by the cast |
| LegacyViews.LegacyValue | scoring/legacy/views.py:487-494 | in the upload a blank `loc_num` (None, '' or ' ') is stored as None; every other missing value is stored as '' and every present value as it is |
| LegacyViews.LegacyFieldsAt | scoring/legacy/views.py:255-260 | the row read holds exactly the required fields, each the stored value of its column's cell |
| LegacyViews.LegacyReadRow | scoring/legacy/views.py:484-494 | the loop over the required fields builds exactly the row read |
| LegacyViews.LegacyCastKeysAt | scoring/legacy/views.py:262-267 | casting distinct keys keeps the key set, casts each named key from its original value and leaves the other keys alone |
| LegacyViews.LegacyCastKeysIdempotent | scoring/legacy/views.py:262-267 | casting the same keys again changes nothing |
| LegacyViews.LegacyCastKey | scoring/legacy/views.py:497-503 | one key cast in place, with the failure reported exactly when `int()` raises |
| LegacyViews.LegacyCastNumbers | scoring/legacy/views.py:262-267 | the loop over `response_num` and `loc_num` casts both keys, passing over a rejected value |
| LegacyViews.LegacyPreviewRows | scoring/legacy/views.py:253-268 | one pre-filled form per sheet row, blank rows included |
| LegacyViews.LegacyLoad | scoring/legacy/views.py:270-272 | at most 70 forms, the first rows in order, and the cap noted exactly when the sheet has more than 70 rows |
| LegacyViews.LegacyPreviewFor | scoring/legacy/views.py:246-252 | the missing required columns are reported exactly when some required field has no column; otherwise the rows are loaded |
| LegacyViews.LegacyPreviewRowOf | scoring/legacy/views.py:256-267 | one row read and cast, as the specification function gives it |
| LegacyViews.LegacyLoadRows | scoring/legacy/views.py:253-268 | the row loop pre-fills exactly the forms the specification function lists |
| LegacyViews.LegacyPreviewUpload | scoring/legacy/views.py:244-272 | the preview gives exactly the outcome the specification function gives for the sheet |
| LegacyViews.LegacyPreviewRowSettled | scoring/legacy/views.py:255-267 | every pre-filled form holds exactly the required fields and casting it again changes nothing |
| LegacyViews.LegacyUploadAll | scoring/legacy/views.py:483-503 | one form data per sheet row, in order |
| LegacyViews.CastFailures | scoring/legacy/views.py:497-503 | one flag per row |
| LegacyViews.LegacyUploadNumbered | scoring/legacy/views.py:483-503 | the errors name exactly the rows whose cast failed, numbered from 2, in ascending order |
| LegacyViews.LegacyFailedRowKept | scoring/legacy/views.py:497-503 | a row whose cast fails still goes to the form, with every field as read |
| LegacyViews.LegacyUploadFor | scoring/legacy/views.py:460-483 | missing columns are reported exactly when a required field has no column, an empty sheet exactly when none is missing and there are no rows; otherwise every row is processed |
| LegacyViews.LegacyUploadRowOf | scoring/legacy/views.py:484-503 | one row read and its response number cast, as the specification function gives it |
| LegacyViews.LegacyUploadRow | scoring/legacy/views.py:484-503 | a row whose cast fails keeps the values read from its cells |
| LegacyViews.LegacyUploadRows | scoring/legacy/views.py:483-503 | the row loop gathers exactly the data and errors of the specification function |
| LegacyViews.LegacyUpload | scoring/legacy/views.py:455-503 | the upload gives exactly the outcome the specification function gives for the sheet |
| LegacyViews.LegacyUploadRowFields | scoring/legacy/views.py:484-503 | each form data holds exactly the required fields, `loc_num` is None exactly when its cell is blank, and the cast fails exactly when `int()` rejects the response number |
| LegacyViews.LegacySaveAll | scoring/legacy/views.py:306-322 | only forms with a card and a response are saved, each one of the form set's forms |
| LegacyViews.LegacyAdvised | scoring/legacy/views.py:309-318 | one advisory flag per form |
| LegacyViews.LegacySaveNumbered | scoring/legacy/views.py:306-318 | the warnings name exactly the advised forms, numbered from 1, in ascending order |
| LegacyViews.LegacySavesEvery | scoring/legacy/views.py:309-322 | every form with a card and a response is saved, advised or not |
| LegacyViews.LegacySaveForms | scoring/legacy/views.py:303-322 | the save loop saves and warns exactly as the specification function does |
| LegacyViews.CardSymbolPlain | scoring/legacy/views.py:313 | a card label the form accepts is already trimmed and upper-case |
| LegacyViews.LegacyAdvisoryImpliesHigherZ | scoring/legacy/views.py:313-318 | the advisory fires only on a form that clean() has already refused for a too low Z score |
| LegacyViews.LegacyNoAdvisoryNoWarnings | scoring/legacy/views.py:304-318 | a form set none of whose forms is advised saves without a warning |
| LegacyViews.LegacyValidFormSetNotAdvised | scoring/legacy/views.py:303-318 | a form set that passed clean() without a Z error never produces a warning |
| LegacyViews.LegacyCheckFound | scoring/legacy/views.py:603-630 | the missing cards are reported exactly when some card 1..10 was not found, as their numerals; too few cards exactly when all were found but fewer than 10 raw values were seen |
| LegacyViews.LegacyRankRomanAgrees | scoring/legacy/views.py:604 | `num_to_roman` gives every rank 1..10 the numeral `to_roman` gives, and that numeral reads back |
| LegacyViews.LegacyReportMatches | scoring/legacy/views.py:612-616 | the reported numerals are those of the other views' export: the missing cards' numerals in ascending card order |
| LegacyViews.RawCardSameCard | scoring/legacy/views.py:624-627 | reading a card through `roman_dict` first does not change the card it names |
| LegacyViews.ImageNoLarger | scoring/legacy/views.py:619-629 | a set of card values has at least as many elements as the set of cards they name |
| LegacyViews.CardNumbersCount | scoring/legacy/views.py:612 | there are ten card numbers |
| LegacyViews.LegacySecondCheckRedundant | scoring/legacy/views.py:619-630 | once every card 1..10 is found, at least ten raw card values were seen |
| LegacyViews.SubsetCount | scoring/legacy/views.py:629 | a subset is no larger than its superset |
| LegacyViews.LegacyExportNeverTooFew | scoring/legacy/views.py:603-630 | the export never refuses for too few cards, and goes on to the summary exactly when every card was found |
| LegacyViews.LegacyAdvancedCheck | scoring/legacy/views.py:1262-1273 | never refuses for too few cards; reports the missing numerals exactly when some card 1..10 was not found |
| LegacyViews.LegacyExportsAgree | scoring/legacy/views.py:1262-1273 | the advanced export decides as the plain export on every record set |
| LegacyViews.LegacyFoundAgrees | scoring/legacy/views.py:610 | on card labels the form accepts, the found set is the one the other views' export computes |
| ScoringModels.AgeCountsBirthdays | scoring/models.py:70-77 | the age counts the birthdays up to the test date: the birthday of that age is not after the test date and the next one is |
| ScoringModels.AgeNegativeIffTestFirst | scoring/models.py:70-77 | the age is negative exactly when the test date precedes the birth date |
| ScoringModels.AcceptedClientAge | scoring/forms.py:119-128 | a client the client form accepts never gets a negative age |
| ScoringModels.Client.constructor | scoring/models.py:54-66 | a new client holds its dates and no age yet |
| ScoringModels.Client.CalculateAge | scoring/models.py:70-77 | the age becomes the completed years between the dates; the dates are kept |
| ScoringModels.Client.Save | scoring/models.py:79-81 | saving recomputes the age from the dates |
| ScoringModels.MapCards | scoring/models.py:343-349 | each response, in order, with its card in Roman numerals replaced by its number |
| ScoringModels.StepOfRewritten | scoring/models.py:458-486 | scoring a response whose special scores were already rewritten counts what was counted when they were written |
| ScoringModels.RewrittenSnoc | scoring/models.py:433-486 | rewriting one more response appends its rewritten form |
| ScoringModels.TallyOfSnoc | scoring/models.py:433-486 | the tally over one more response takes one more step |
| ScoringModels.TallyOfRewritten | scoring/models.py:433-486 | the responses as saved give the same tally as the responses before their special scores were rewritten |
| ScoringModels.PassStep | scoring/models.py:433-486 | one more response in the pass: one more rewritten response and one more step of the tally |
| ScoringModels.ScoreResponses | scoring/models.py:433-486 | the record loop rewrites every response's special scores and gathers the tally of the rewritten responses |
| ScoringModels.ApproachStep | scoring/models.py:547-548 | one more response appends its location to its own card's list and to no other |
| ScoringModels.ApproachLists | scoring/models.py:545-551 | the lists are produced exactly when every card is one of "1".."10", and then each card's list holds its responses' locations in order |
| ScoringModels.EmptyApproach | scoring/models.py:545 | one empty list for each card "1".."10" |
| ScoringModels.ApproachFromTable | scoring/models.py:545-551 | joining each card's list of locations with "." gives the ten approach fields |
| ScoringModels.RewrittenAfterMapping | scoring/models.py:347-349 | mapping the cards first does not change the responses the run rewrites |
| ScoringModels.StructuralSummary.constructor | scoring/models.py:108-322 | a new summary holds its defaults and has no row yet |
| ScoringModels.StructuralSummary.StoreSections | scoring/models.py:338-680 | the fields become those the sections assign, in order, and the first division that raises is returned |
| ScoringModels.StructuralSummary.StoreCounts | scoring/models.py:338-543 | the location, quality, determinant and content counts are stored; everything else is kept |
| ScoringModels.StructuralSummary.StoreApproach | scoring/models.py:545-585 | the approach lists are stored, or the run stops at a card outside I..X; then the special scores |
| ScoringModels.StructuralSummary.StoreCore | scoring/models.py:586-622 | the core section is stored, and EBper raises when one side of EB is 0 |
| ScoringModels.StructuralSummary.StoreInterpersonal | scoring/models.py:624-660 | the affect, interpersonal and ideation sections are stored, and the isolation index, X-% and XA% raise when R is 0 |
| ScoringModels.StructuralSummary.StoreLastSections | scoring/models.py:660-680 | WDA% raises when no W or D response has a form quality; otherwise the mediation, processing and self-perception sections are stored |
| ScoringModels.StructuralSummary.StoreIndices | scoring/models.py:681-804 | the special indices are stored from the sections the summary holds, with the HVI exception |
| ScoringModels.StructuralSummary.SetIndices | scoring/models.py:681-804 | only the indices and the HVI exception change |
| ScoringModels.StructuralSummary.StoreRun | scoring/models.py:338-804 | the sections then the indices, stopping at the first step that raises |
| ScoringModels.StructuralSummary.CalculateValues | scoring/models.py:326-804 | the responses are saved with their cards mapped and special scores rewritten, and the summary holds the run over them up to the first step that raises |
| ScoringModels.StructuralSummary.Save | scoring/models.py:806-809 | a summary without a row is calculated first and saved only when the calculation does not raise; a saved summary is saved again unchanged |
| ScoringModels.StructuralSummary.Persist | scoring/models.py:809 | the row is written with the fields the summary holds |
| ScoringEngine.Rewritten | scoring/models.py:343-486 | one response per response, in order |
| ScoringEngine.RewrittenAt | scoring/models.py:433-486 | each response is rewritten on its own, whatever the others hold |
| ScoringEngine.HviExcept | scoring/models.py:783-789 | the exception is recorded exactly when Hd + Ad is 0, as H + A over 0 |
| ScoringEngine.ValuesOf | scoring/models.py:338-680 | the cards are known exactly when each is "1".."10"; the isolation index, the R-based rates and the self-perception section exist exactly when there are responses; the mediation section exactly when there are responses and a WDA% denominator |
| ScoringEngine.AssembleErrors | scoring/models.py:545-680 | a run stops at the first failing step, in the order unknown card, EBper divisor, no responses, WDA% denominator, and finishes exactly when none fails |
| ScoringEngine.Assemble | scoring/models.py:338-680 | the sections leave the indices and the HVI exception alone; the run finishes exactly when every card is known and EBper, the isolation index, the R-based rates, the mediation and the self-perception sections all exist |
| ScoringEngine.CountsStage | scoring/models.py:338-543 | the location, quality, determinant and content sections take the run's values, and every other field is kept |
| ScoringEngine.ApproachStage | scoring/models.py:545-585 | raises exactly when some card is outside I..X, and then changes nothing; otherwise stores the approach lists and the special scores; no other field changes |
| ScoringEngine.CoreStage | scoring/models.py:586-622 | stores every core field; EBper raises exactly when its division has no value, and then the previous EBper is kept; no other field changes |
| ScoringEngine.InterpersonalStage | scoring/models.py:624-660 | stores the affect section and every interpersonal field but the isolation index; raises exactly when the isolation index or the R-based rates have no value, keeping the previous isolation index, ideation and mediation; otherwise also stores the isolation index, the ideation section, X-% and XA%; no other field changes |
| ScoringEngine.Finish | scoring/models.py:660-680 | raises exactly when WDA% or the self-perception section has no value, and then changes nothing; otherwise stores the mediation, processing and self-perception sections; no other field changes |
| ScoringEngine.Run | scoring/models.py:338-804 | a run that raises keeps the previous indices and HVI exception; a run that finishes holds the indices computed from the sections it stored |
| ScoringEngine.Calculate | scoring/models.py:326-804 | a calculation finishes only over a non-empty record whose cards are all "1".."10" and with a WDA% denominator |
| ScoringEngine.QuotientMonotone | scoring/models.py:657-667 | dividing by the same positive R keeps two counts in order and non-negative |
| ScoringEngine.EmptyEbPer | scoring/models.py:616-622 | an empty record never reaches the EBper division |
| ScoringEngine.ValuesErrors | scoring/models.py:338-680 | on the responses themselves: the run stops at an unknown card, then at the EBper division, then at an empty record, then at a WDA% without denominator, and finishes exactly when none of these holds |
| ScoringEngine.EmptyRecordStops | scoring/models.py:588-648 | a calculation over no responses always stops at the isolation index |
| ScoringEngine.AcceptedCardsKnown | scoring/models.py:343-548 | cards the response form accepts, Roman or Arabic, never stop a run |
| ScoringEngine.UnknownCardKeepsRest | scoring/models.py:338-548 | a run stopped by an unknown card has stored the first five sections and nothing else |
| ScoringEngine.EbPerStopKeepsRest | scoring/models.py:545-622 | a run stopped by the EBper division has also stored the approach lists, the special scores and every core field but EBper |
| ScoringEngine.NoResponsesKeepsRest | scoring/models.py:586-648 | a run over no responses has also stored the core and affect sections and every interpersonal field but the isolation index |
| ScoringEngine.WdaStopKeepsRest | scoring/models.py:648-661 | a run stopped by WDA% has also stored the ideation section and X-% and XA%, and keeps the rest of the later sections as they were |
| ScoringEngine.CompleteRunReplaces | scoring/models.py:338-680 | the sections of a run that reaches the indices do not depend on the previous summary |
| ScoringEngine.WithIndicesFrame | scoring/models.py:681-804 | computing the indices changes only the indices and the HVI exception, and sets the exception only when Hd + Ad is 0 |
| ScoringEngine.IndicesIgnorePrevious | scoring/models.py:681-804 | the indices are computed from the sections alone |
| ScoringEngine.RewrittenIdempotent | scoring/models.py:343-486 | rewriting rewritten responses changes nothing, so a second calculation reads what the first one saved |
| ScoringEngine.ThreeCounts | scoring/models.py:406-412 | three distinct values occur together at most as often as the list is long |
| ScoringEngine.FormCountsBelow | scoring/models.py:406-412 | each response has one form quality: +, o and u together, and -, o and u together, are at most R |
| ScoringEngine.PercentagesBounded | scoring/models.py:657-667 | XA%, WDA%, X-% and Xu% lie between 0 and 1, and X+% lies between 0 and XA% |
| ScoringSections.CountContaining | scoring/models.py:390-393 | a `__contains` filter counts exactly the responses whose field contains the text |
| ScoringSections.MFormQuals | scoring/models.py:415-416 | each form quality occurs in the M-quality list exactly as often as among the responses whose determinants hold an M not preceded by F |
| ScoringSections.WdFormQuals | scoring/models.py:423-424 | each form quality occurs in the W+D list exactly as often as among the responses whose location the W+D pattern matches |
| ScoringSections.SFormQuals | scoring/models.py:662-663 | each form quality occurs in the white-space list exactly as often as among the responses whose location contains S |
| ScoringSections.ApproachSection | scoring/models.py:545-551 | ten approach fields, the k-th holding the locations of the responses to card k joined by "." |
| ScoringSections.CardLocationsInOrder | scoring/models.py:546-548 | a card's list holds one location per response to that card, the k-th being the location of the k-th such response |
| ScoringSections.SpecialSection | scoring/models.py:553-584 | WSum6 lies between Sum6 and seven times Sum6, and is 0 exactly when Sum6 is |
| ScoringSections.TallyOf | scoring/models.py:431-446 | the colour-shading blends and the shading blends are each at most the number of blend responses |
| ScoringSections.BlendTotal | scoring/models.py:438-439 | the blend responses are at most R |
| ScoringSections.LocationSection | scoring/models.py:338-393 | Zf, W, D, Dd and S are each at most R |
| ScoringSections.DevSection | scoring/models.py:395-403 | the four developmental-quality counts together are at most R |
| ScoringSections.FourCounts | scoring/models.py:397-403 | four distinct values occur together at most as often as the list is long |
| ScoringSections.FiveCounts | scoring/models.py:408-429 | five distinct values occur together at most as often as the list is long |
| ScoringSections.Qualities | scoring/models.py:406-413 | the corrected five quality counts together are at most the number of qualities |
| ScoringSections.QualitiesAsWritten | scoring/models.py:406-429 | as written, the FQx and MQual rows are the corrected counts except that the none column counts the text "none" |
| ScoringSections.DeterminantSectionCounts | scoring/models.py:488-514 | in the determinant section, M, FM and m count the human, animal and inanimate movement codes among the single-response codes, and every other field counts its own code; no code is counted under two fields, so all fields together are at most the number of those codes |
| ScoringSections.ContentSectionCounts | scoring/models.py:516-543 | in the content section, each field is the number of times its own code occurs among the content codes; together they are at most the number of content codes |
| ScoringSections.ProcessingCounts | scoring/models.py:668-670 | in the processing section, W, D and Dd are the location counts, each at most R, and W:M sets W against the human movement sum M (Ma, Mp and Ma-p), EB's left side, not against the inanimate m |
| ScoringSections.DisjointCounts | scoring/models.py:488-543 | counts of vocabularies that share no code add up to the count of their union, so together they are at most the list's length |
| ScoringSections.FormSection | scoring/models.py:404-429 | the FQx, MQual and W+D rows each total at most R; as written, FQx's none column counts "none" and W+D's counts "no" |
| ScoringSections.Lambda | scoring/models.py:588-592 | Lambda is non-negative when F is at most R, and times R - F it gives F when F is less than R |
| ScoringSections.CoreSection | scoring/models.py:588-622 | R is the number of responses and EBper the value given; EA is both sides of the Erlebnistypus, es both sides of eb, and the adjusted es is at most es |
| ScoringSections.TruncMonotone | scoring/models.py:614-615 | `int` of a smaller value is never larger, so D and the adjusted D keep the order of their arguments |
| ScoringSections.Afr | scoring/models.py:628-635 | Afr is non-negative and, when some response is on a card I..VII, it times those responses gives the responses on cards VIII..X |
| ScoringSections.BlendsNum | scoring/models.py:636-637 | the corrected count is 0 exactly when the blend text holds no comma |
| ScoringSections.BlendsNumAsWritten | scoring/models.py:636-637 | as written, the count is never below 1 |
| ScoringSections.CountAsWritten | scoring/models.py:636-637 | on a blend text that is empty or ends in one comma, the count as written is the corrected count, or 1 when that is 0 |
| ScoringSections.AffectSection | scoring/models.py:624-638 | the right side of Blends:R is R and Afr is non-negative; as written, the left side is the number of blend responses, or 1 when there is none |
| ScoringSections.InterpersonalSection | scoring/models.py:640-648 | the isolation index is the value given, and the human contents are at most the number of contents |
| ScoringSections.IdeationSection | scoring/models.py:650-655 | Level-2 is at most Sum6, and the intellectualisation index is at least twice AB |
| ScoringSections.MediationSection | scoring/models.py:657-667 | with a response and a WDA% denominator, WDA% lies between 0 and 1 and S- and P are each at most R |
| ScoringSections.SelfPerceptionSection | scoring/models.py:673-679 | the egocentricity index is non-negative, and times R it gives three times Fr + rF plus the pair responses |
| ScoringSections.EbPerValue | scoring/models.py:616-622 | the division raises exactly when the gate applies and the smaller of M and WSumC is 0 |
| ScoringSections.ZSumBounds | scoring/models.py:352-366 | the Z sum is at most 6.5 per organisational response, and at least 1 per organisational response when every card is one of the ten |
| ScoringSections.ZdOfLocation | scoring/models.py:367-387 | Zd and Zest are 0 for fewer than two organisational responses; otherwise Zest is positive and Zd is Zsum minus Zest |
| ScoringSections.BlendPiece | scoring/models.py:440-441 | the text one blend adds is not empty and holds no comma |
| ScoringSections.TallyBlends | scoring/models.py:433-441 | the pass gathers the blend text of every blend response in order |
| ScoringSections.BlendCommas | scoring/models.py:440-441 | the blend text holds exactly one comma per blend response |
| ScoringSections.BlendTextEnds | scoring/models.py:440-441 | the blend text is empty or ends with one comma |
| ScoringSections.BlendsCounted | scoring/models.py:636-637 | the corrected blend count is the number of blend responses |
| ScoringSections.BlendsCountedAsWritten | scoring/models.py:636-637 | the count as written is the number of blend responses, except that it reports 1 when there is no blend |
| ScoringSections.SinglesAndPairs | scoring/models.py:438-451 | the single list and the blend codes together are exactly every code plus the pair markers |
| ScoringSections.PairMarksOfTwos | scoring/models.py:450-451 | with pair fields blank or "2", every pair marker is "2" |
| ScoringSections.SinglesWithinAll | scoring/models.py:438-451 | with pair fields blank or "2", no determinant occurs more often in the single list than among all codes |
| ScoringSections.MovementWithinSums | scoring/models.py:491-602 | the single-response M, FM and m counts are within the core's M, FM and m sums |
| ScoringSections.TruncTowardZero | scoring/models.py:614-615 | `int` truncates toward zero: the result has the sign of its argument and lies within 1 of it |
| ScoringSections.AdjustedDNotBelow | scoring/models.py:607-615 | es is the sum of both sides of eb, the adjusted es is at most es, and the adjusted D is at least D |
| ScoringSections.LambdaBelowOne | scoring/models.py:588-592 | Lambda is non-negative, and below 1 exactly when F is less than R - F |
| ScoringSections.EbPerAboveOne | scoring/models.py:616-622 | EBper is 0 where the gate does not apply, and above 1 where it applies and divides |
| ScoringSections.CardsPartition | scoring/models.py:628-630 | with every card one of the ten, each response is on a card I..VII or on a card VIII..X |
| ScoringSections.AfrValue | scoring/models.py:628-635 | Afr is the late-card responses over the early-card ones, or 1 when there are none of the latter |
| ScoringSections.WdCodeStart | scoring/models.py:423 | every code the W+D pattern names starts with W or D, followed by nothing or S |
| ScoringSections.WdRejected | scoring/models.py:423 | the W+D pattern matches neither Dd nor DdS |
| ScoringSections.WdAccepted | scoring/models.py:423 | the W+D pattern matches W, WS, D and DS |
| ScoringSections.WdLocations | scoring/models.py:423 | among the locations the form accepts, the W+D pattern picks exactly W, WS, D and DS |
| ScoringSections.QualitiesPartition | scoring/models.py:407-421 | with stored form qualities, the corrected rows count each response exactly once |
| ScoringSections.QualitiesMissNo | scoring/models.py:407-421 | as written, the "none" column counts nothing, so the rows miss exactly the responses whose form quality is "no" |
| ScoringTables.ZRowsBounded | scoring/models.py:352-363 | every weight of the Z table lies between 1 and 6.5 |
| ScoringTables.ZWeightBounds | scoring/models.py:364-366 | a response weighs 0 unless its Z is one of the four codes, at most 6.5 always, and at least 1 when coded on a card of the table |
| ScoringTables.ZestTableIncreasing | scoring/models.py:374-382 | each Zest entry is larger than the one before |
| ScoringTables.ZestMonotone | scoring/models.py:368-383 | the Zest estimate never decreases as Zf grows |
| ScoringTables.ZestPositive | scoring/models.py:368-383 | Zest is positive exactly from two organisational responses on, at most 173, and 173 from 50 on |
| ScoringTables.AgeBandsNonIncreasing | scoring/models.py:683-738 | no WSum6, Afr or egocentricity cut-off grows with age, and every egocentricity row lists its lower bound first |
| ScoringTables.AgeBandEnds | scoring/models.py:683-738 | the thresholds below age 5 and for adults |
| ScoringRecords.MappedCard | scoring/models.py:343-348 | a Roman numeral I..X becomes its number; anything else is kept |
| ScoringRecords.MappedCardIdempotent | scoring/models.py:347-349 | mapping a mapped card changes nothing |
| ScoringRecords.DropTags | scoring/models.py:460 | the kept words are exactly the words that are not GHR or PHR |
| ScoringRecords.DropTagsKeeps | scoring/models.py:460 | a list without GHR or PHR loses nothing |
| ScoringRecords.PriorSpecials | scoring/models.py:457-462 | the special scores read are non-empty words without blanks, and none is GHR or PHR |
| ScoringRecords.HumanTag | scoring/models.py:467-483 | the tag is GHR or PHR; a good human content without a blocking score gets GHR; otherwise a poor form quality or a level-2 score gets PHR |
| ScoringRecords.FinalSpecialsShape | scoring/models.py:457-485 | a response keeps its prior scores first and gains exactly one GHR or PHR when it is relevant, none otherwise |
| ScoringRecords.PriorWordsClean | scoring/models.py:458-459 | the words read from a special field are clean words |
| ScoringRecords.ReparseSaved | scoring/models.py:457-485 | re-reading the saved special of clean words gives them back without GHR or PHR |
| ScoringRecords.ReparseWords | scoring/models.py:455-460 | clean words joined by commas split back into themselves, and the prior scores read from them are those words without GHR and PHR |
| ScoringRecords.ReparseEmpty | scoring/models.py:455-460 | an empty special field gives no prior scores |
| ScoringRecords.TagsClean | scoring/models.py:470-483 | GHR and PHR are clean words |
| ScoringRecords.FinalWordsClean | scoring/models.py:485 | the scores saved for a response are clean words |
| ScoringRecords.FinalDropsToPrior | scoring/models.py:460-485 | dropping the tags of the final scores gives the prior scores back |
| ScoringRecords.RewriteIdempotent | scoring/models.py:343-486 | rewriting a rewritten response changes nothing |
| ScoringIndices.Marks | scoring/models.py:745 | one mark per criterion, 'o' exactly when it is met |
| ScoringIndices.MarksCounted | scoring/models.py:746 | the count of 'o' marks is the number of criteria met, at most the number of criteria |
| ScoringIndices.PtiCriteria | scoring/models.py:739-744 | five criteria, PTI1..PTI5 |
| ScoringIndices.DepiCriteria | scoring/models.py:747-753 | seven criteria, DEPI1..DEPI7 |
| ScoringIndices.CdiCriteria | scoring/models.py:756-760 | five criteria, CDI1..CDI5 |
| ScoringIndices.SconCriteria | scoring/models.py:763-774 | twelve criteria, SCON1..SCON12 |
| ScoringIndices.HviCriteria | scoring/models.py:778-790 | seven criteria, HVI2..HVI8 |
| ScoringIndices.ObsCriteria | scoring/models.py:793-802 | nine criteria, OBS1..OBS9 |
| ScoringIndices.IndexSection | scoring/models.py:739-804 | PTI, DEPI, CDI, SCON, HVI and OBS have 5, 7, 5, 12, 7 and 9 marks, each sum is at most its number of criteria, and the HVI premise holds exactly when SumT is 0 |
| ScoringIndices.EgoCriterion | scoring/models.py:719-749 | the corrected DEPI3 is never met inside the age's normal range and always met below it |
| ScoringIndices.EgoCriterionAsWritten | scoring/models.py:733-749 | as written, DEPI3 is met whenever the index is below the second value of the age's pair, the upper bound of the normal range |
| ScoringIndices.IndexCounts | scoring/models.py:739-803 | each index has its number of marks, and each sum is the number of its criteria met; the HVI premise holds exactly when there is no texture |
| ScoringIndices.ObsPositive | scoring/models.py:798-804 | the obsessive style is positive exactly when one of OBS6..OBS9 is met; OBS6 needs all of OBS1..OBS5; OBS7 and OBS9 each imply OBS5 |
| ScoringIndices.WholePartRatio | scoring/models.py:783-789 | HVI7 reads the same with the division as without it |
| ScoringIndices.PtiAgeMonotone | scoring/models.py:683-743 | PTI4 met at some age stays met at every older age |
| ScoringIndices.EgoCriterionOutsideRange | scoring/models.py:733-749 | the corrected DEPI3 is met below the normal range, above it without reflections, and never inside it |
| ScoringIndices.EgoCriterionSwapped | scoring/models.py:733-749 | as written, DEPI3 is met by every index below the upper bound, so an adult index of 0.40 without reflections is flagged |
| ScoringIndices.BlendTestUnaffected | scoring/models.py:636-750 | DEPI4's blend test answers alike with the count as written and the corrected one |

## Left out

- Django, the ORM, HTTP, messages, templates and transactions are not modelled. A record set is a sequence of responses. The rewritten responses are returned instead of saved one by one.
- The database filters that count responses are restated as counts over the same sequence: Zf, W, D, Dd, S, the Afr cards, S-, popular.
- Excel workbook construction and the openpyxl file handling are not modelled. A sheet is a header row plus rows of cells, and a cell is empty, text or a whole number.
- Floating-point cells are not modelled, and neither are the numerics of the projective-index pipeline (pandas, the konlpy tokenizer, z- and T-scores). Only its integer token and symbol scoring is kept.
- The "X:Y" ratio fields are pairs of numbers, not the text Python prints for them.
- Quotients are exact rationals. The 2.5000001 divisor of the D scores is the exact rational 25000001/10000000.
- Case mapping covers ASCII letters only. `\w` and `\b` in the determinant typo pattern are taken over ASCII word characters. No Unicode normalisation or case folding is modelled beyond the Roman numeral glyphs U+2160..U+2169.
- `int()` on text is modelled as optional whitespace, an optional sign and decimal digits. Its acceptance of digit-group underscores and non-ASCII digits is not modelled.
- `float()` on text is modelled as an optional sign and digits with at most one point. Exponents, "inf" and "nan" are read as rejected.
- UploadText.FloatToInt: reads the decimal numeral exactly. `float()` first rounds to the nearest double, which is not modelled, so a numeral with more significant digits than a double holds casts differently in the source: "9007199254740993" gives 9007199254740992, and "2.9999999999999999" gives 3.
- UploadText.FloatToIntOfText: holds for every integer in the model. In the source it holds only for integers of magnitude at most 2^53, since `float()` may round larger ones.
- UploadText.FloatToIntTruncates: holds for every fraction in the model. In the source a fraction with more digits than a double holds can round the value up to the next integer before truncation, as "2.9999999999999999" does.
- UploadText.CastIntCellReads: in the source the cast returns the integer only for magnitudes up to 2^53 and for fractions that `float()` does not round up; a whole-number cell beyond 2^53 is rounded too.
- LegacyViews.LegacyCastAgrees: in the source the two casts agree only where `float()` is exact. On a response number beyond 2^53, `int()` reads it exactly while `int(float())` rounds it.
- Form validation of each uploaded row, and the created and error counters it drives, are not modelled beyond the casts that precede it. The upload models hand every row's data to the form and collect only the cast errors.
- `_pick_input_sheet`, the choice of worksheet, is not modelled: the active sheet is an input.
- scoring/legacy/forms.py is not part of this model. The older views are read with the validators of scoring/forms.py.
- LegacyViews.LegacyAliasNoCapitals: proves that every alias of the older header map is lower-case. It does not model the map's display order.
- Adding one blank form to the older form set is not modelled; it is plain increment of the management form's total.
- The timing of the Zf, W, D, Dd and S counts is not modelled: they are computed after the record loop rather than before the card mapping. They read neither the card nor the special scores, so the stored values are the same.
- A missing determinants, content or location field on a stored response is not modelled, since the form requires all three. Null pair, special, popular and Z fields are the empty string, which the summary treats the same way.
- ScoringIndices.PtiCriteria, ScoringIndices.DepiCriteria, ScoringIndices.CdiCriteria, ScoringIndices.SconCriteria, ScoringIndices.HviCriteria, ScoringIndices.ObsCriteria: each function's own contract states only the number of criteria. What each criterion means is in its body and in the lemmas IndexCounts, ObsPositive, WholePartRatio, PtiAgeMonotone and EgoCriterionSwapped.
- PyText.Strip: its own contract states only that it never lengthens its input. What it keeps and removes is stated by the lemmas StripSlice and StripEdges, which keeps the function's contract cheap for the many proofs that unfold it.
- The corrected definitions named under "## Findings" are proved but not wired into the run: the summary and the upload pages hold the values the source computes as written.

## Findings

| source | as written | input that shows it | evidently intended | confidence | as-written member | corrected member |
|---|---|---|---|---|---|---|
| scoring/models.py:733-749 | the ego table's pair (lower, upper) is unpacked as (high cut-off, low cut-off), so DEPI3 tests `ego > lower` and `ego < upper` | an adult with egocentricity 0.40 and no reflections: inside the normal range 0.33..0.44, yet DEPI3 is met | DEPI3 is met above the range's upper bound without reflections, or below its lower bound | high; not executed | ScoringIndices.EgoCriterionSwapped | ScoringIndices.EgoCriterionOutsideRange |
| scoring/models.py:407-421 | the FQx and M-quality "none" columns count the text "none" | a response whose form quality is "no", the only spelling the form accepts: it is counted in no column | count "no", as the W+D row at line 429 does | high; not executed | ScoringSections.QualitiesMissNo | ScoringSections.QualitiesPartition |
| scoring/models.py:636-637 | the blend count is the number of pieces of the blend text after the trailing comma is removed | a record with no blend: the text is empty, `split(',')` gives one piece, and blends:R reads 1:R | the number of blend responses, 0 for a record without blends | high; not executed | ScoringSections.BlendsCountedAsWritten | ScoringSections.BlendsCounted |
| scoring/views/intermediate.py:102 | the typo pattern `\bm['’`]?p\b` is matched ignoring case | the determinants "Mp", the human passive movement the form accepts, are rewritten to the inanimate "mp" | only the small m of an inanimate movement is corrected | medium; not executed | IntermediateViews.HumanMovementRewritten | IntermediateViews.HumanMovementKept |
