/**
 * The older views module that the current views replaced: its own card
 * numeral conversion and header aliases, the preview of the response-entry
 * page (at most 70 rows), its bulk upload that casts only the response number,
 * the advisory on saving a response form set, and the export's check that
 * every card has a response.
 */
module LegacyViews {
  import opened PyText
  import opened CardBase
  import opened Forms
  import opened UploadText
  import IntermediateViews

  // ---------------------------------------------------------------------------
  // card numerals

  /**
   * `normalize_card_to_num`: the label trimmed and upper-cased; a Roman
   * numeral gives its card number, anything else comes back as it now reads.
   * Unlike the current normaliser it spells no Unicode numeral glyph and
   * filters no stray character.
   */
  function LegacyCardToNum(val: string): (r: string)
  {
    var s := Upper(Strip(val));
    if s in RomanToNum then RomanToNum[s] else s
  }

  /** `to_roman`: the numeral of a card number, or the label as `normalize_card_to_num` left it. */
  function LegacyToRoman(val: string): (r: string)
  {
    var n := LegacyCardToNum(val);
    if n in NumToRoman then NumToRoman[n] else n
  }

  /** A card number has no blank edges and no lower-case letter. */
  lemma NumberPlain(n: string)
    requires n in CardNumbers
    ensures Strip(n) == n && Upper(n) == n && n !in RomanToNum
  {
    CardNumbersAreDigits(n);
    DigitsUpper(n);
    AsciiLabelPlain(n);
    DigitsNoNumeral(n);
  }

  /** A card number "1".."10" converts to its numeral, which reads back as the number. */
  lemma LegacyRoundTrip(n: string)
    requires n in CardNumbers
    ensures LegacyCardToNum(n) == n
    ensures LegacyToRoman(n) == NumToRoman[n]
    ensures LegacyCardToNum(LegacyToRoman(n)) == n
  {
    NumberPlain(n);
    RomanTablesInverse();
    var r := NumToRoman[n];
    UpperRomanPlain(r);
    AsciiLabelPlain(r);
  }

  /** A Roman numeral I..X in any mix of ASCII cases and with blanks around it gives its card number. */
  lemma LegacyNumeralRead(s: string)
    requires AsciiLabel(Strip(s)) && Upper(Strip(s)) in RomanToNum
    ensures LegacyCardToNum(s) == RomanToNum[Upper(Strip(s))]
    ensures LegacyToRoman(s) == Upper(Strip(s))
  {
    RomanTablesInverse();
    NumeralInverse(Upper(Strip(s)));
  }

  /** Upper-casing keeps a label's edges non-blank. */
  lemma UpperKeepsTrimmed(t: string)
    requires Strip(t) == t
    ensures Strip(Upper(t)) == Upper(t)
  {
    var u := Upper(t);
    if t != [] {
      assert u[0] == UpperChar(t[0]) && u[|u| - 1] == UpperChar(t[|t| - 1]);
    }
    StripTrimmed(u);
  }

  /** Converting an already converted label changes nothing. */
  lemma LegacyToRomanIdempotent(val: string)
    ensures LegacyToRoman(LegacyToRoman(val)) == LegacyToRoman(val)
  {
    RomanTablesInverse();
    var s := Upper(Strip(val));
    var n := LegacyCardToNum(val);
    if n in NumToRoman {
      LegacyRoundTrip(n);
    } else {
      assert n == s;
      StripIdempotent(val);
      UpperKeepsTrimmed(Strip(val));
      UpperIdempotent(Strip(val));
      assert LegacyCardToNum(s) == s;
    }
  }

  /** On the labels the response form accepts, the legacy conversions agree with the current ones. */
  lemma LegacyAgreesOnCards(card: string)
    requires card in CardSymbols
    ensures LegacyCardToNum(card) == NormalizeCardToNum(Some(card))
    ensures LegacyToRoman(card) == ToRoman(Some(card))
  {
    RomanTablesInverse();
    if card in CardNumbers {
      LegacyRoundTrip(card);
      NumberFixed(card);
      RoundTrip(card);
    } else {
      assert card in RomanToNum;
      UpperRomanPlain(card);
      AsciiLabelPlain(card);
      RomanAnyCase(card);
      NumeralInverse(card);
    }
  }

  /**
   * The numeral glyph Ⅱ names no card to the legacy conversion and is kept
   * as typed (the current normaliser spells it and reads card 2).
   */
  lemma LegacyMissesGlyph()
    ensures LegacyCardToNum("\U{2161}") == "\U{2161}"
    ensures LegacyToRoman("\U{2161}") == "\U{2161}"
  {
    var g := "\U{2161}";
    assert g[0] !in Whitespace;
    StripTrimmed(g);
    assert Upper(g) == g;
  }

  // ---------------------------------------------------------------------------
  // the header row

  /**
   * The legacy header aliases, Korean and English; the ignored "id" column
   * is listed last here (the order of a dictionary display does not matter).
   */
  const LegacyHeaderMap: map<string, Option<string>> := map[
    "카드" := Some("card"), "n" := Some("response_num"), "시간" := Some("time"),
    "반응" := Some("response"), "질문" := Some("inquiry"), "회전" := Some("rotation"),
    "반응영역" := Some("location"), "발달질" := Some("dev_qual"), "영역번호" := Some("loc_num"),
    "(2)" := Some("pair"), "결정인" := Some("determinants"), "형태질" := Some("form_qual"),
    "내용인" := Some("content"), "p" := Some("popular"), "특수점수" := Some("special"),
    "코멘트" := Some("comment"),
    "card" := Some("card"), "response_num" := Some("response_num"), "time" := Some("time"),
    "response" := Some("response"), "inquiry" := Some("inquiry"), "rotation" := Some("rotation"),
    "location" := Some("location"), "dev_qual" := Some("dev_qual"), "loc_num" := Some("loc_num"),
    "determinants" := Some("determinants"), "form_qual" := Some("form_qual"), "pair" := Some("pair"),
    "content" := Some("content"), "popular" := Some("popular"), "special" := Some("special"),
    "comment" := Some("comment"), "z" := Some("Z"), "id" := None
  ]

  /** `normalize_header`: the header trimmed is looked up as typed, then lower-cased; None for an unknown header. */
  function LegacyNormalizeHeader(h: Option<string>): (r: Option<string>)
  {
    if h.None? then None
    else
      var s := Strip(h.value);
      if s in LegacyHeaderMap then LegacyHeaderMap[s]
      else if Lower(s) in LegacyHeaderMap then LegacyHeaderMap[Lower(s)]
      else None
  }

  /** A string with no capital ASCII letter. */
  predicate NoCapitals(k: string)
  {
    forall i :: 0 <= i < |k| ==> !('A' <= k[i] <= 'Z')
  }

  /** No legacy alias has a capital letter. */
  lemma LegacyAliasNoCapitals(k: string)
    requires k in LegacyHeaderMap
    ensures NoCapitals(k)
  {
    if |k| <= 3 {
      ShortAliasNoCapitals(k);
    } else {
      LongAliasNoCapitals(k);
    }
  }

  lemma ShortAliasNoCapitals(k: string)
    requires k in LegacyHeaderMap && |k| <= 3
    ensures NoCapitals(k)
  {
  }

  lemma LongAliasNoCapitals(k: string)
    requires k in LegacyHeaderMap && |k| > 3
    ensures NoCapitals(k)
  {
  }

  lemma LowerNoCapitals(k: string)
    requires NoCapitals(k)
    ensures Lower(k) == k
  {
  }

  /** The header is looked up trimmed and lower-cased: the lookup as typed never finds anything else. */
  lemma LegacyHeaderLowered(h: string)
    ensures var k := Lower(Strip(h));
      LegacyNormalizeHeader(Some(h)) == if k in LegacyHeaderMap then LegacyHeaderMap[k] else None
  {
    var s := Strip(h);
    if s in LegacyHeaderMap {
      LegacyAliasNoCapitals(s);
      LowerNoCapitals(s);
    }
  }

  /** Headers that differ only in blanks around them or the case of their letters name the same field. */
  lemma LegacyHeaderIgnoresCase(a: string, b: string)
    requires Lower(Strip(a)) == Lower(Strip(b))
    ensures LegacyNormalizeHeader(Some(a)) == LegacyNormalizeHeader(Some(b))
  {
    LegacyHeaderLowered(a);
    LegacyHeaderLowered(b);
  }

  /** An "ID" column, in either case, is ignored, and a missing header names nothing. */
  lemma LegacyHeaderIgnored()
    ensures LegacyNormalizeHeader(Some("ID")) == None
    ensures LegacyNormalizeHeader(Some("id")) == None
    ensures LegacyNormalizeHeader(None) == None
  {
    StripTrimmed("ID");
    StripTrimmed("id");
    assert Lower("ID") == "id";
  }

  /** A capital "Z" header, blanks around it, names the Z field through its lower-case alias. */
  lemma LegacyHeaderZ()
    ensures LegacyNormalizeHeader(Some(" Z ")) == Some("Z")
  {
    assert Strip(" Z ") == "Z";
    assert Lower("Z") == "z";
  }

  /** The field each header cell names: `normalize_header(c.value or '')`. */
  function LegacyMapped(header: seq<Cell>): (r: seq<Option<string>>)
    ensures |r| == |header|
    ensures forall i :: 0 <= i < |header| ==> r[i] == LegacyNormalizeHeader(Some(HeaderText(header[i])))
  {
    seq(|header|, i requires 0 <= i < |header| => LegacyNormalizeHeader(Some(HeaderText(header[i]))))
  }

  function LegacyIndex(header: seq<Cell>): map<string, nat>
  {
    IndexByField(LegacyMapped(header))
  }

  // ---------------------------------------------------------------------------
  // the integer cast

  /** `int(v)` on a cell: a whole number is itself, text is parsed, and None raises. */
  function PyInt(v: Cell): (r: Option<int>)
  {
    match v
    case Num(n) => Some(n)
    case Str(s) => ParseInt(s)
    case Null => None
  }

  /**
   * `if str(v).strip(): v = int(v)`: blank values are left alone, a value
   * `int()` reads becomes that integer, and None stands for the exception.
   */
  function LegacyCast(v: Cell): (r: Option<Cell>)
    ensures Strip(Render(v)) == [] ==> r == Some(v)
    ensures r.Some? && r.value != v ==> r.value.Num?
  {
    if Strip(Render(v)) == [] then Some(v)
    else
      match PyInt(v)
      case Some(n) => Some(Num(n))
      case None => None
  }

  /** The value after the cast: the cast value, or the value as it was when `int()` raised. */
  function CastOr(v: Cell): Cell
  {
    match LegacyCast(v)
    case Some(c) => c
    case None => v
  }

  /** A value the cast produced casts to itself. */
  lemma LegacyCastSettles(v: Cell)
    ensures LegacyCast(v).Some? ==> LegacyCast(LegacyCast(v).value) == LegacyCast(v)
    ensures CastOr(CastOr(v)) == CastOr(v)
  {
    var r := LegacyCast(v);
    if r.Some? && r.value.Num? {
      IntTextTrimmed(r.value.n);
    }
  }

  /** The spelling of an integer, and the integer itself, cast to that integer. */
  lemma LegacyCastReads(n: int)
    ensures LegacyCast(Str(IntText(n))) == Some(Num(n))
    ensures LegacyCast(Num(n)) == Some(Num(n))
  {
    IntTextTrimmed(n);
    ParseIntOfText(n);
  }

  /** Where `int()` reads a non-blank value, the current `int(float())` cast reads the same integer. */
  lemma LegacyCastAgrees(v: Cell)
    requires Strip(Render(v)) != [] && LegacyCast(v).Some?
    ensures CastIntCell(v) == LegacyCast(v).value
  {
    match v
    case Num(n) =>
      IntTextTrimmed(n);
      FloatToIntOfText(n);
    case Str(s) =>
      var (negative, body) := SplitSign(Strip(s));
      assert body != [] && Digits(body);
      assert '.' !in body;
  }

  /** A decimal spelling such as "3.0" makes `int()` raise (the current `int(float())` cast reads it as 3). */
  lemma LegacyRejectsDecimal()
    ensures LegacyCast(Str("3.0")) == None
  {
    var t := "3.0";
    assert t[0] !in Whitespace && t[2] !in Whitespace;
    StripTrimmed(t);
    assert SplitSign(t) == (false, t);
    assert !Digits(t) by {
      assert t[1] == '.';
    }
  }

  // ---------------------------------------------------------------------------
  // reading a data row

  /**
   * One field's value as the row loop stores it: in the upload a blank
   * `loc_num` (None, '' or ' ') becomes None; every other None becomes ''.
   */
  function LegacyValue(v: Cell, f: string, upload: bool): (r: Cell)
    ensures upload && f == "loc_num" ==> (r.Null? <==> v in {Null, Str([]), Str(" ")})
    ensures !(upload && f == "loc_num") ==> r == if v.Null? then Str([]) else v
  {
    if upload && f == "loc_num" then (if v == Null || v == Str([]) || v == Str(" ") then Null else v)
    else if v.Null? then Str([]) else v
  }

  /** What a cell past the row's end reads as: None in the upload, '' in the preview. */
  function Missing(upload: bool): Cell
  {
    if upload then Null else Str([])
  }

  /** The row's data: each of the given fields read from its column. */
  function LegacyFields(row: seq<Cell>, index: map<string, nat>, fields: seq<string>, upload: bool): map<string, Cell>
    requires forall f :: f in fields ==> f in index
  {
    if fields == [] then map[]
    else
      var f := fields[|fields| - 1];
      LegacyFields(row, index, fields[..|fields| - 1], upload)[f := LegacyValue(CellAt(row, index[f], Missing(upload)), f, upload)]
  }

  /** Each field read holds its column's value, and nothing else is read. */
  lemma {:induction false} LegacyFieldsAt(row: seq<Cell>, index: map<string, nat>, fields: seq<string>, upload: bool)
    requires forall f :: f in fields ==> f in index
    ensures LegacyFields(row, index, fields, upload).Keys == set f | f in fields
    ensures forall f :: f in fields ==>
      LegacyFields(row, index, fields, upload)[f] == LegacyValue(CellAt(row, index[f], Missing(upload)), f, upload)
  {
    if fields != [] {
      var init := fields[..|fields| - 1];
      LegacyFieldsAt(row, index, init, upload);
      assert forall f :: f in fields <==> f in init || f == fields[|fields| - 1];
    }
  }

  lemma LegacyFieldsNext(row: seq<Cell>, index: map<string, nat>, fields: seq<string>, upload: bool, i: nat)
    requires i < |fields| && forall f :: f in fields ==> f in index
    ensures LegacyFields(row, index, fields[..i + 1], upload)
      == LegacyFields(row, index, fields[..i], upload)[fields[i] := LegacyValue(CellAt(row, index[fields[i]], Missing(upload)), fields[i], upload)]
  {
    assert fields[..i + 1][..i] == fields[..i];
  }

  /** The loop over the required fields that reads one row. */
  method LegacyReadRow(row: seq<Cell>, index: map<string, nat>, upload: bool) returns (data: map<string, Cell>)
    requires Covers(index)
    ensures data == LegacyFields(row, index, RequiredFields, upload)
  {
    data := map[];
    var i := 0;
    while i < |RequiredFields|
      invariant 0 <= i <= |RequiredFields|
      invariant data == LegacyFields(row, index, RequiredFields[..i], upload)
    {
      var f := RequiredFields[i];
      var v := if index[f] < |row| then row[index[f]] else Missing(upload);
      LegacyFieldsNext(row, index, RequiredFields, upload, i);
      data := data[f := LegacyValue(v, f, upload)];
      i := i + 1;
    }
    assert RequiredFields[..i] == RequiredFields;
  }

  // ---------------------------------------------------------------------------
  // the preview of the response-entry page

  /** The preview pre-fills at most this many forms. */
  const PreviewMax: nat := 70

  /** One integer key cast in place: blank is left alone, and so is a value `int()` rejects. */
  function LegacyCastStep(data: map<string, Cell>, key: string): map<string, Cell>
  {
    var v := Get(data, key);
    if Strip(Render(v)) == [] then data
    else
      match PyInt(v)
      case Some(n) => data[key := Num(n)]
      case None => data
  }

  /** The keys cast one after another, in order. */
  function LegacyCastKeys(data: map<string, Cell>, keys: seq<string>): map<string, Cell>
  {
    if keys == [] then data else LegacyCastStep(LegacyCastKeys(data, keys[..|keys| - 1]), keys[|keys| - 1])
  }

  /** Casting distinct keys of the data casts each one from its original value and leaves the other keys alone. */
  lemma {:induction false} LegacyCastKeysAt(data: map<string, Cell>, keys: seq<string>)
    requires Distinct(keys) && forall k :: k in keys ==> k in data
    ensures LegacyCastKeys(data, keys).Keys == data.Keys
    ensures forall k :: k in keys ==> LegacyCastKeys(data, keys)[k] == CastOr(data[k])
    ensures forall k :: k in data && k !in keys ==> LegacyCastKeys(data, keys)[k] == data[k]
  {
    if keys != [] {
      var init := keys[..|keys| - 1];
      var last := keys[|keys| - 1];
      LegacyCastKeysAt(data, init);
      assert last !in init;
      assert forall k :: k in keys <==> k in init || k == last;
    }
  }

  /** Casting the same distinct keys a second time changes nothing. */
  lemma LegacyCastKeysIdempotent(data: map<string, Cell>, keys: seq<string>)
    requires Distinct(keys) && forall k :: k in keys ==> k in data
    ensures LegacyCastKeys(LegacyCastKeys(data, keys), keys) == LegacyCastKeys(data, keys)
  {
    var once := LegacyCastKeys(data, keys);
    var twice := LegacyCastKeys(once, keys);
    LegacyCastKeysAt(data, keys);
    LegacyCastKeysAt(once, keys);
    forall k | k in once
      ensures twice[k] == once[k]
    {
      if k in keys {
        LegacyCastSettles(data[k]);
      }
    }
    assert twice == once;
  }

  lemma LegacyCastKeysNext(data: map<string, Cell>, keys: seq<string>, i: nat)
    requires i < |keys|
    ensures LegacyCastKeys(data, keys[..i + 1]) == LegacyCastStep(LegacyCastKeys(data, keys[..i]), keys[i])
  {
    assert keys[..i + 1][..i] == keys[..i];
  }

  /** `if str(data[key]).strip(): try: data[key] = int(data[key]) except: ...`, on one key. */
  method LegacyCastKey(data: map<string, Cell>, key: string) returns (r: map<string, Cell>, failed: bool)
    ensures r == LegacyCastStep(data, key)
    ensures failed <==> LegacyCast(Get(data, key)).None?
  {
    r, failed := data, false;
    var v := Get(data, key);
    if Strip(Render(v)) != [] {
      match PyInt(v)
      case Some(n) =>
        r := data[key := Num(n)];
      case None =>
        failed := true;
    }
  }

  /** The preview's loop over `response_num` and `loc_num`; a rejected value is passed over. */
  method LegacyCastNumbers(data: map<string, Cell>) returns (r: map<string, Cell>)
    ensures r == LegacyCastKeys(data, IntKeys)
  {
    r := data;
    var i := 0;
    while i < |IntKeys|
      invariant 0 <= i <= |IntKeys|
      invariant r == LegacyCastKeys(data, IntKeys[..i])
    {
      LegacyCastKeysNext(data, IntKeys, i);
      var failed;
      r, failed := LegacyCastKey(r, IntKeys[i]);
      i := i + 1;
    }
    assert IntKeys[..i] == IntKeys;
  }

  /** One row of the sheet as the preview pre-fills it. */
  function LegacyPreviewRow(row: seq<Cell>, index: map<string, nat>): map<string, Cell>
    requires Covers(index)
  {
    LegacyCastKeys(LegacyFields(row, index, RequiredFields, false), IntKeys)
  }

  /** Every row of the sheet, blank or not, as the preview pre-fills it, gathered as the loop appends them. */
  function LegacyPreviewRows(rows: seq<seq<Cell>>, index: map<string, nat>): (r: seq<map<string, Cell>>)
    requires Covers(index)
    ensures |r| == |rows|
  {
    if rows == [] then []
    else LegacyPreviewRows(rows[..|rows| - 1], index) + [LegacyPreviewRow(rows[|rows| - 1], index)]
  }

  lemma LegacyPreviewRowsNext(rows: seq<seq<Cell>>, index: map<string, nat>, i: nat)
    requires Covers(index) && i < |rows|
    ensures LegacyPreviewRows(rows[..i + 1], index) == LegacyPreviewRows(rows[..i], index) + [LegacyPreviewRow(rows[i], index)]
  {
    assert rows[..i + 1][..i] == rows[..i];
  }

  /** What the preview shows: the required columns the sheet lacks, or the pre-filled forms. */
  datatype LegacyPreview =
    | PreviewMissing(missing: seq<string>)
    | PreviewLoaded(initial: seq<map<string, Cell>>, capped: bool)

  /** The forms pre-filled from the rows once every required field has a column: at most 70. */
  function LegacyLoad(rows: seq<seq<Cell>>, index: map<string, nat>): (r: LegacyPreview)
    requires Covers(index)
    ensures r.PreviewLoaded?
    ensures |r.initial| == (if |rows| > PreviewMax then PreviewMax else |rows|)
    ensures r.capped <==> |rows| > PreviewMax
    ensures r.initial <= LegacyPreviewRows(rows, index)
  {
    var all := LegacyPreviewRows(rows, index);
    if |all| > PreviewMax then PreviewLoaded(all[..PreviewMax], true) else PreviewLoaded(all, false)
  }

  /** The preview once the headers are mapped to the column of each field. */
  function LegacyPreviewFor(index: map<string, nat>, rows: seq<seq<Cell>>): (r: LegacyPreview)
    ensures r.PreviewMissing? <==> exists f :: f in RequiredFields && f !in index
    ensures r.PreviewMissing? ==> r.missing == MissingFields(RequiredFields, index)
    ensures r.PreviewLoaded? ==> Covers(index) && r == LegacyLoad(rows, index)
  {
    var missing := MissingFields(RequiredFields, index);
    if missing != [] then
      assert missing[0] in missing;
      PreviewMissing(missing)
    else LegacyLoad(rows, index)
  }

  function LegacyPreviewOf(header: seq<Cell>, rows: seq<seq<Cell>>): LegacyPreview
  {
    LegacyPreviewFor(LegacyIndex(header), rows)
  }

  /** One row read and cast. */
  method LegacyPreviewRowOf(row: seq<Cell>, index: map<string, nat>) returns (data: map<string, Cell>)
    requires Covers(index)
    ensures data == LegacyPreviewRow(row, index)
  {
    data := LegacyReadRow(row, index, false);
    data := LegacyCastNumbers(data);
  }

  /** The loop that reads and casts every row of the sheet. */
  method LegacyLoadRows(rows: seq<seq<Cell>>, index: map<string, nat>) returns (initial: seq<map<string, Cell>>)
    requires Covers(index)
    ensures initial == LegacyPreviewRows(rows, index)
  {
    initial := [];
    var i := 0;
    while i < |rows|
      invariant 0 <= i <= |rows|
      invariant initial == LegacyPreviewRows(rows[..i], index)
    {
      var data := LegacyPreviewRowOf(rows[i], index);
      LegacyPreviewRowsNext(rows, index, i);
      initial := initial + [data];
      i := i + 1;
    }
    assert rows[..i] == rows;
  }

  /** The preview: map the headers, read and cast every row, and keep at most 70 of them. */
  method LegacyPreviewUpload(header: seq<Cell>, rows: seq<seq<Cell>>) returns (r: LegacyPreview)
    ensures r == LegacyPreviewOf(header, rows)
  {
    var mapped := seq(|header|, i requires 0 <= i < |header| => LegacyNormalizeHeader(Some(HeaderText(header[i]))));
    var index := IndexByField(mapped);
    assert index == LegacyIndex(header);
    var missing := MissingFields(RequiredFields, index);
    if missing != [] {
      return PreviewMissing(missing);
    }
    var initial := LegacyLoadRows(rows, index);
    if |initial| > PreviewMax {
      initial := initial[..PreviewMax];
      r := PreviewLoaded(initial, true);
    } else {
      r := PreviewLoaded(initial, false);
    }
  }

  /** Every pre-filled form holds exactly the required fields, and its integer keys are already cast. */
  lemma LegacyPreviewRowSettled(row: seq<Cell>, index: map<string, nat>)
    requires Covers(index)
    ensures var data := LegacyPreviewRow(row, index);
      data.Keys == set f | f in RequiredFields
      && LegacyCastKeys(data, IntKeys) == data
  {
    var read := LegacyFields(row, index, RequiredFields, false);
    LegacyFieldsAt(row, index, RequiredFields, false);
    assert IntKeys[0] == "response_num" && IntKeys[1] == "loc_num";
    assert Distinct(IntKeys);
    assert "response_num" in RequiredFields && "loc_num" in RequiredFields;
    LegacyCastKeysAt(read, IntKeys);
    LegacyCastKeysIdempotent(read, IntKeys);
  }

  // ---------------------------------------------------------------------------
  // the bulk upload

  /** One uploaded row: the data handed to the response form, and whether `int()` raised on its response number. */
  datatype LegacyRow = LegacyRow(data: map<string, Cell>, castFailed: bool)

  /**
   * One row read with the upload's rules and its response number cast. A
   * failed cast is only noted: the `continue` after it ends the loop over the
   * integer keys, not the loop over the rows, so the row, its response number
   * as typed, still goes to the form.
   */
  function LegacyUploadRow(row: seq<Cell>, index: map<string, nat>): (r: LegacyRow)
    requires Covers(index)
    ensures r.castFailed ==> r.data == LegacyFields(row, index, RequiredFields, true)
  {
    var read := LegacyFields(row, index, RequiredFields, true);
    LegacyRow(LegacyCastStep(read, "response_num"), LegacyCast(Get(read, "response_num")).None?)
  }

  /** The data handed to the form for every row, and the sheet rows (numbered from 2) whose cast failed. */
  datatype LegacyUploading = LegacyUploading(datas: seq<map<string, Cell>>, errors: seq<int>)

  /** The rows gathered in order, as the loop appends them. */
  function LegacyUploadAll(rows: seq<seq<Cell>>, index: map<string, nat>): (r: LegacyUploading)
    requires Covers(index)
    ensures |r.datas| == |rows|
  {
    if rows == [] then LegacyUploading([], [])
    else
      var n := |rows| - 1;
      var prev := LegacyUploadAll(rows[..n], index);
      var row := LegacyUploadRow(rows[n], index);
      LegacyUploading(prev.datas + [row.data], if row.castFailed then prev.errors + [n + 2] else prev.errors)
  }

  /** Which rows' casts failed. */
  function CastFailures(rows: seq<seq<Cell>>, index: map<string, nat>): (r: seq<bool>)
    requires Covers(index)
    ensures |r| == |rows|
  {
    if rows == [] then [] else CastFailures(rows[..|rows| - 1], index) + [LegacyUploadRow(rows[|rows| - 1], index).castFailed]
  }

  /** The errors name exactly the rows whose cast failed, numbered from 2 as the sheet numbers them, in order. */
  lemma {:induction false} LegacyUploadNumbered(rows: seq<seq<Cell>>, index: map<string, nat>)
    requires Covers(index)
    ensures LegacyUploadAll(rows, index).errors == IntermediateViews.Marks(CastFailures(rows, index), 2)
    ensures IntermediateViews.Numbered(LegacyUploadAll(rows, index).errors, CastFailures(rows, index), 2)
  {
    if rows != [] {
      var n := |rows| - 1;
      var failed := LegacyUploadRow(rows[n], index).castFailed;
      var prev := CastFailures(rows[..n], index);
      LegacyUploadNumbered(rows[..n], index);
      assert CastFailures(rows, index) == prev + [failed];
      assert (prev + [failed])[..n] == prev;
      var before := LegacyUploadAll(rows[..n], index).errors;
      assert LegacyUploadAll(rows, index).errors == if failed then before + [n + 2] else before;
    }
  }

  /** A failed cast reaches the form with every field as read, its response number as typed. */
  lemma LegacyFailedRowKept(row: seq<Cell>, index: map<string, nat>)
    requires Covers(index)
    ensures var r := LegacyUploadRow(row, index);
      r.castFailed ==> r.data == LegacyFields(row, index, RequiredFields, true)
  {
  }

  /** What the bulk upload does: report the missing columns, warn of a sheet without rows, or process every row. */
  datatype LegacyUploadOutcome =
    | UploadMissing(missing: seq<string>)
    | UploadNoRows
    | UploadProcessed(datas: seq<map<string, Cell>>, errors: seq<int>)

  /** The upload once the headers are mapped to the column of each field. */
  function LegacyUploadFor(index: map<string, nat>, rows: seq<seq<Cell>>): (r: LegacyUploadOutcome)
    ensures r.UploadMissing? <==> exists f :: f in RequiredFields && f !in index
    ensures r.UploadNoRows? <==> Covers(index) && rows == []
    ensures r.UploadProcessed? ==> Covers(index) && LegacyUploading(r.datas, r.errors) == LegacyUploadAll(rows, index)
  {
    var missing := MissingFields(RequiredFields, index);
    if missing != [] then
      assert missing[0] in missing;
      UploadMissing(missing)
    else if rows == [] then UploadNoRows
    else
      var all := LegacyUploadAll(rows, index);
      UploadProcessed(all.datas, all.errors)
  }

  function LegacyUploadOf(header: seq<Cell>, rows: seq<seq<Cell>>): LegacyUploadOutcome
  {
    LegacyUploadFor(LegacyIndex(header), rows)
  }

  /** One row read and its response number cast. */
  method LegacyUploadRowOf(row: seq<Cell>, index: map<string, nat>) returns (data: map<string, Cell>, failed: bool)
    requires Covers(index)
    ensures LegacyRow(data, failed) == LegacyUploadRow(row, index)
  {
    data := LegacyReadRow(row, index, true);
    data, failed := LegacyCastKey(data, "response_num");
  }

  lemma LegacyUploadAllNext(rows: seq<seq<Cell>>, index: map<string, nat>, i: nat, data: map<string, Cell>, failed: bool)
    requires Covers(index) && i < |rows|
    requires LegacyRow(data, failed) == LegacyUploadRow(rows[i], index)
    ensures var prev := LegacyUploadAll(rows[..i], index);
      LegacyUploadAll(rows[..i + 1], index)
        == LegacyUploading(prev.datas + [data], if failed then prev.errors + [i + 2] else prev.errors)
  {
    assert rows[..i + 1][..i] == rows[..i];
  }

  /** The loop over the rows, numbered from 2. */
  method LegacyUploadRows(rows: seq<seq<Cell>>, index: map<string, nat>) returns (datas: seq<map<string, Cell>>, errors: seq<int>)
    requires Covers(index)
    ensures LegacyUploading(datas, errors) == LegacyUploadAll(rows, index)
  {
    var done := LegacyUploading([], []);
    var i := 0;
    while i < |rows|
      invariant 0 <= i <= |rows|
      invariant done == LegacyUploadAll(rows[..i], index)
    {
      var data, failed := LegacyUploadRowOf(rows[i], index);
      LegacyUploadAllNext(rows, index, i, data, failed);
      done := LegacyUploading(done.datas + [data], if failed then done.errors + [i + 2] else done.errors);
      i := i + 1;
    }
    assert rows[..i] == rows;
    datas, errors := done.datas, done.errors;
  }

  /** The bulk upload: map the headers, refuse missing columns or an empty sheet, and process every row. */
  method LegacyUpload(header: seq<Cell>, rows: seq<seq<Cell>>) returns (r: LegacyUploadOutcome)
    ensures r == LegacyUploadOf(header, rows)
  {
    var mapped := seq(|header|, i requires 0 <= i < |header| => LegacyNormalizeHeader(Some(HeaderText(header[i]))));
    var index := IndexByField(mapped);
    assert index == LegacyIndex(header);
    var missing := MissingFields(RequiredFields, index);
    if missing != [] {
      return UploadMissing(missing);
    }
    if rows == [] {
      return UploadNoRows;
    }
    var datas, errors := LegacyUploadRows(rows, index);
    r := UploadProcessed(datas, errors);
  }

  /** Each row handed to the form holds the required fields, a blank `loc_num` as None, and its response number cast. */
  lemma LegacyUploadRowFields(row: seq<Cell>, index: map<string, nat>)
    requires Covers(index)
    ensures var r := LegacyUploadRow(row, index);
      var loc := CellAt(row, index["loc_num"], Null);
      r.data.Keys == set f | f in RequiredFields
      && (Get(r.data, "loc_num") == Null <==> loc in {Null, Str([]), Str(" ")})
      && (r.castFailed <==> LegacyCast(LegacyValue(CellAt(row, index["response_num"], Null), "response_num", true)).None?)
  {
    var read := LegacyFields(row, index, RequiredFields, true);
    LegacyFieldsAt(row, index, RequiredFields, true);
    assert "response_num" in RequiredFields && "loc_num" in RequiredFields;
    var data := LegacyCastStep(read, "response_num");
    assert data.Keys == read.Keys;
    assert Get(data, "loc_num") == Get(read, "loc_num");
  }

  // ---------------------------------------------------------------------------
  // saving a response form set

  /**
   * The advisory on saving: the card, trimmed and upper-cased, is one of
   * 1, 4, 5, I, II, III, the location holds a W, the development quality a
   * '+', and the Z score is exactly ZW. The form is saved all the same.
   */
  predicate LegacyAdvisory(cd: map<string, FieldValue>)
  {
    Upper(Strip(TextField(cd, "card"))) in HigherZCards
    && HasSubstring(TextField(cd, "location"), "W")
    && '+' in TextField(cd, "dev_qual")
    && TextField(cd, "Z") == "ZW"
  }

  /** The forms saved, in order, and the 1-based numbers of the advised ones. */
  datatype LegacySaving = LegacySaving(saved: seq<map<string, FieldValue>>, warnings: seq<int>)

  /** The save loop over the forms of a valid form set: forms without a card or a response are skipped. */
  function LegacySaveAll(forms: seq<map<string, FieldValue>>): (r: LegacySaving)
    ensures |r.saved| <= |forms|
    ensures forall cd :: cd in r.saved ==> cd in forms && IntermediateViews.HasCardAndResponse(cd)
  {
    if forms == [] then LegacySaving([], [])
    else
      var n := |forms| - 1;
      var prev := LegacySaveAll(forms[..n]);
      var cd := forms[n];
      if !IntermediateViews.HasCardAndResponse(cd) then prev
      else LegacySaving(prev.saved + [cd], if LegacyAdvisory(cd) then prev.warnings + [n + 1] else prev.warnings)
  }

  /** A form the loop saves and advises on. */
  predicate AdvisedForm(cd: map<string, FieldValue>)
  {
    IntermediateViews.HasCardAndResponse(cd) && LegacyAdvisory(cd)
  }

  /** Which forms are saved with the advisory: flag `i` is set exactly when form `i` is an advised form. */
  function LegacyAdvised(forms: seq<map<string, FieldValue>>): (r: seq<bool>)
  {
    seq(|forms|, i requires 0 <= i < |forms| => AdvisedForm(forms[i]))
  }

  /** The warnings name exactly the advised forms, numbered from 1, in order. */
  lemma {:induction false} LegacySaveNumbered(forms: seq<map<string, FieldValue>>)
    ensures LegacySaveAll(forms).warnings == IntermediateViews.Marks(LegacyAdvised(forms), 1)
    ensures IntermediateViews.Numbered(LegacySaveAll(forms).warnings, LegacyAdvised(forms), 1)
  {
    if forms != [] {
      var n := |forms| - 1;
      LegacySaveNumbered(forms[..n]);
      assert LegacyAdvised(forms)[..n] == LegacyAdvised(forms[..n]);
    }
  }

  /** Every form with a card and a response is saved, advised or not. */
  lemma {:induction false} LegacySavesEvery(forms: seq<map<string, FieldValue>>, i: nat)
    requires i < |forms| && IntermediateViews.HasCardAndResponse(forms[i])
    ensures forms[i] in LegacySaveAll(forms).saved
  {
    var n := |forms| - 1;
    if i < n {
      LegacySavesEvery(forms[..n], i);
    }
  }

  lemma LegacySaveAllNext(forms: seq<map<string, FieldValue>>, i: nat)
    requires i < |forms|
    ensures var prev := LegacySaveAll(forms[..i]);
      var cd := forms[i];
      LegacySaveAll(forms[..i + 1]) ==
        if !IntermediateViews.HasCardAndResponse(cd) then prev
        else LegacySaving(prev.saved + [cd], if LegacyAdvisory(cd) then prev.warnings + [i + 1] else prev.warnings)
  {
    assert forms[..i + 1][..i] == forms[..i];
  }

  /** The save loop, numbering the forms from 1. */
  method LegacySaveForms(forms: seq<map<string, FieldValue>>) returns (saved: seq<map<string, FieldValue>>, warnings: seq<int>)
    ensures LegacySaving(saved, warnings) == LegacySaveAll(forms)
  {
    saved, warnings := [], [];
    var i := 0;
    while i < |forms|
      invariant 0 <= i <= |forms|
      invariant LegacySaving(saved, warnings) == LegacySaveAll(forms[..i])
    {
      LegacySaveAllNext(forms, i);
      var cd := forms[i];
      if IntermediateViews.HasCardAndResponse(cd) {
        var card := Upper(Strip(TextField(cd, "card")));
        if card in HigherZCards && HasSubstring(TextField(cd, "location"), "W")
           && '+' in TextField(cd, "dev_qual") && TextField(cd, "Z") == "ZW" {
          warnings := warnings + [i + 1];
        }
        saved := saved + [cd];
      }
      i := i + 1;
    }
    assert forms[..i] == forms;
  }

  /** A card label the form accepts is already trimmed and upper-case. */
  lemma CardSymbolPlain(card: string)
    requires card in CardSymbols
    ensures Upper(Strip(card)) == card
  {
    if card in CardNumbers {
      NumberPlain(card);
    } else {
      assert card in RomanToNum;
      UpperRomanPlain(card);
      AsciiLabelPlain(card);
    }
  }

  /**
   * The advisory fires only where the form's clean() has already rejected
   * the Z score as too low, so a valid form set is never advised.
   */
  lemma LegacyAdvisoryImpliesHigherZ(pre: map<string, FieldValue>)
    requires IntermediateViews.FieldsValidated(pre)
    ensures var cleaned := CleanResponse(pre);
      LegacyAdvisory(cleaned.data) ==> cleaned.zError == Some(HigherZ)
  {
    var cleaned := CleanResponse(pre);
    var cd := cleaned.data;
    if LegacyAdvisory(cd) {
      var card := TextField(cd, "card");
      assert card == TextField(pre, "card");
      if card != [] {
        CardSymbolPlain(card);
      } else {
        StripTrimmed(card);
      }
      assert TextField(cd, "location") == TextField(pre, "location");
      assert TextField(cd, "dev_qual") == TextField(pre, "dev_qual");
      assert TextField(cd, "Z") == TextField(pre, "Z");
    }
  }

  /** A form set none of whose forms is advised saves without a warning. */
  lemma {:induction false} LegacyNoAdvisoryNoWarnings(forms: seq<map<string, FieldValue>>)
    requires forall i :: 0 <= i < |forms| ==> !LegacyAdvisory(forms[i])
    ensures LegacySaveAll(forms).warnings == []
  {
    if forms != [] {
      LegacyNoAdvisoryNoWarnings(forms[..|forms| - 1]);
    }
  }

  /** Saving a form set whose every form passed clean() without a Z error advises nothing. */
  lemma LegacyValidFormSetNotAdvised(pres: seq<map<string, FieldValue>>, forms: seq<map<string, FieldValue>>)
    requires |forms| == |pres|
    requires forall i :: 0 <= i < |pres| ==> IntermediateViews.FieldsValidated(pres[i])
    requires forall i :: 0 <= i < |pres| ==> CleanResponse(pres[i]).zError.None?
    requires forall i :: 0 <= i < |pres| ==> forms[i] == CleanResponse(pres[i]).data
    ensures LegacySaveAll(forms).warnings == []
  {
    forall i | 0 <= i < |forms| ensures !LegacyAdvisory(forms[i]) {
      LegacyAdvisoryImpliesHigherZ(pres[i]);
    }
    LegacyNoAdvisoryNoWarnings(forms);
  }

  // ---------------------------------------------------------------------------
  // the export's completeness check

  /** `{normalize_card(rc.card) for rc in codes if rc.card}`. */
  function LegacyFound(cards: seq<string>): set<string>
  {
    set c | c in cards && c != [] :: LegacyCardToNum(c)
  }

  /** `roman_dict.get(card, card)` over every record, empty card included. */
  function RawCards(cards: seq<string>): set<string>
  {
    set c | c in cards :: if c in RomanToNum then RomanToNum[c] else c
  }

  /** `num_to_roman.get(n, n)` for the card of rank `k`. */
  function LegacyRankRoman(k: nat): string
    requires 1 <= k <= 10
  {
    var n := IntermediateViews.CardNumber(k);
    if n in NumToRoman then NumToRoman[n] else n
  }

  /** The report of the missing cards: the numeral of each missing rank, ascending. */
  function LegacyMissingRomans(found: set<string>): seq<string>
  {
    var missing := IntermediateViews.MissingFrom(found, 1);
    seq(|missing|, i requires 0 <= i < |missing| => LegacyRankRoman(missing[i]))
  }

  /** What the export does: report the cards without a response, refuse too few cards, or go on to the summary. */
  datatype LegacyExport = ExportMissing(romans: seq<string>) | TooFewCards | ExportSummarise

  /** The two checks, given the numbers found and the raw card values seen. */
  function LegacyCheckFound(found: set<string>, raw: set<string>): (r: LegacyExport)
    ensures r.ExportMissing? <==> !(CardNumbers <= found)
    ensures r.ExportMissing? ==> r.romans == LegacyMissingRomans(found)
    ensures r.TooFewCards? <==> CardNumbers <= found && |raw| < 10
  {
    IntermediateViews.NothingMissing(found);
    if IntermediateViews.MissingFrom(found, 1) != [] then ExportMissing(LegacyMissingRomans(found))
    else if |raw| < 10 then TooFewCards
    else ExportSummarise
  }

  function LegacyCheckExport(cards: seq<string>): LegacyExport
  {
    LegacyCheckFound(LegacyFound(cards), RawCards(cards))
  }

  /** `num_to_roman.get` and `to_roman` give the same numeral for every rank. */
  lemma LegacyRankRomanAgrees(k: nat)
    requires 1 <= k <= 10
    ensures LegacyRankRoman(k) == IntermediateViews.RankRoman(k) && LegacyRankRoman(k) in RomanToNum
  {
    var n := IntermediateViews.CardNumber(k);
    IntermediateViews.CardNumberIn(k);
    RoundTrip(n);
    NumeralInverse(NumToRoman[n]);
  }

  /** The legacy report is the current report over the same found set: the missing cards' numerals, ascending. */
  lemma LegacyReportMatches(found: set<string>)
    ensures LegacyMissingRomans(found) == IntermediateViews.MissingRomans(found)
  {
    var legacy, current := LegacyMissingRomans(found), IntermediateViews.MissingRomans(found);
    var missing := IntermediateViews.MissingFrom(found, 1);
    assert |legacy| == |current| == |missing|;
    forall i | 0 <= i < |missing| ensures legacy[i] == current[i] {
      LegacyRankRomanAgrees(missing[i]);
    }
  }

  /** Reading a record's card through `roman_dict` first does not change the card it names. */
  lemma RawCardSameCard(c: string)
    ensures LegacyCardToNum(if c in RomanToNum then RomanToNum[c] else c) == LegacyCardToNum(c)
  {
    if c in RomanToNum {
      RomanTablesInverse();
      NumberPlain(RomanToNum[c]);
      UpperRomanPlain(c);
      AsciiLabelPlain(c);
    }
  }

  /** A set has at least as many elements as its image. */
  lemma {:induction false} ImageNoLarger(s: set<string>)
    ensures |set x | x in s :: LegacyCardToNum(x)| <= |s|
    decreases |s|
  {
    if s != {} {
      var x :| x in s;
      var rest := s - {x};
      ImageNoLarger(rest);
      assert (set y | y in s :: LegacyCardToNum(y)) == (set y | y in rest :: LegacyCardToNum(y)) + {LegacyCardToNum(x)};
    }
  }

  lemma CardNumbersCount()
    ensures |CardNumbers| == 10
  {
  }

  /** Once every card 1..10 is found, the later count of raw card values is at least 10: that check never fails. */
  lemma LegacySecondCheckRedundant(cards: seq<string>)
    requires CardNumbers <= LegacyFound(cards)
    ensures |RawCards(cards)| >= 10
  {
    var raw := RawCards(cards);
    var image := set x | x in raw :: LegacyCardToNum(x);
    forall n | n in CardNumbers ensures n in image {
      var c :| c in cards && c != [] && LegacyCardToNum(c) == n;
      RawCardSameCard(c);
      var rc := if c in RomanToNum then RomanToNum[c] else c;
      assert rc in raw;
    }
    ImageNoLarger(raw);
    CardNumbersCount();
    assert CardNumbers <= image;
    SubsetCount(CardNumbers, image);
  }

  lemma SubsetCount(a: set<string>, b: set<string>)
    requires a <= b
    ensures |a| <= |b|
  {
    assert b == a + (b - a);
  }

  /** The export never refuses a record set for having too few cards. */
  lemma LegacyExportNeverTooFew(cards: seq<string>)
    ensures !LegacyCheckExport(cards).TooFewCards?
    ensures LegacyCheckExport(cards).ExportSummarise? <==> CardNumbers <= LegacyFound(cards)
  {
    if CardNumbers <= LegacyFound(cards) {
      LegacySecondCheckRedundant(cards);
    }
  }

  /** The advanced export, which makes the first check only: report the missing cards or go on to the summary. */
  function LegacyAdvancedCheck(cards: seq<string>): (r: LegacyExport)
    ensures !r.TooFewCards?
    ensures r.ExportMissing? <==> !(CardNumbers <= LegacyFound(cards))
    ensures r.ExportMissing? ==> r.romans == LegacyMissingRomans(LegacyFound(cards))
  {
    var found := LegacyFound(cards);
    IntermediateViews.NothingMissing(found);
    if IntermediateViews.MissingFrom(found, 1) != [] then ExportMissing(LegacyMissingRomans(found)) else ExportSummarise
  }

  /** Since the second check never fails, both exports decide alike on every record set. */
  lemma LegacyExportsAgree(cards: seq<string>)
    ensures LegacyAdvancedCheck(cards) == LegacyCheckExport(cards)
  {
    LegacyExportNeverTooFew(cards);
  }

  /** On the card labels the response form accepts, the legacy found set is the current one. */
  lemma LegacyFoundAgrees(cards: seq<string>)
    requires forall c :: c in cards ==> c in CardSymbols
    ensures LegacyFound(cards) == IntermediateViews.FoundCards(cards)
  {
    forall c | c in cards && c != [] ensures LegacyCardToNum(c) == NormalizeCardToNum(Some(c)) {
      LegacyAgreesOnCards(c);
    }
  }
}
