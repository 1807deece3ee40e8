/**
 * The bulk spreadsheet upload of the advanced page, and the integer scoring
 * rules of its projective-index pipeline: which rows an upload reads, how many
 * of them the 100-row cap lets through, how each row's fields are cast and
 * standardised, how the pair marker joins the determinants, and how token and
 * symbol scores add up.
 */
module AdvancedViews {
  import opened PyText
  import opened CardBase
  import opened Forms
  import opened UploadText

  /** The most response rows a client may hold. */
  const TotalCap: nat := 100

  // ---------------------------------------------------------------------------
  // the rows an upload reads

  /** `_row_is_blank`: every cell of the row is None or blank text. */
  predicate RowIsBlank(row: seq<Cell>)
  {
    forall i :: 0 <= i < |row| ==> Blank(row[i])
  }

  /** A row holding a number, or text that is not all whitespace, is not blank. */
  lemma FilledRowNotBlank(row: seq<Cell>, i: nat)
    requires i < |row| && (row[i].Num? || (row[i].Str? && Strip(row[i].s) != []))
    ensures !RowIsBlank(row)
  {
    if row[i].Num? {
      IntTextTrimmed(row[i].n);
    }
  }

  /** `[r for r in rows_all if not _row_is_blank(r)]`. */
  function DataRows(rows: seq<seq<Cell>>): (r: seq<seq<Cell>>)
    ensures |r| <= |rows|
    ensures forall x :: x in r <==> x in rows && !RowIsBlank(x)
  {
    if rows == [] then []
    else (if RowIsBlank(rows[0]) then [] else [rows[0]]) + DataRows(rows[1..])
  }

  /** `allow`: the rows an upload may write, all 100 when it replaces the client's rows, else what is left of 100. */
  function Allowance(existing: nat, replace: bool): (allow: nat)
    ensures allow <= TotalCap
    ensures replace ==> allow == TotalCap
    ensures !replace ==> (allow == 0 <==> existing >= TotalCap)
    ensures !replace && allow > 0 ==> existing + allow == TotalCap
  {
    if replace then TotalCap else if existing >= TotalCap then 0 else TotalCap - existing
  }

  /** How the upload proceeds once the sheet is open. */
  datatype UploadPlan =
    | MissingColumns(missing: seq<string>)
    | NoDataRows
    | CapReached
    | Accepted(rows: seq<seq<Cell>>, allow: nat, trimmed: bool)

  /** The cap applied to the non-blank rows: none allowed, or the first `allow` of them. */
  function CapRows(rows: seq<seq<Cell>>, existing: nat, replace: bool): (p: UploadPlan)
    ensures p.CapReached? || p.Accepted?
    ensures p.CapReached? <==> Allowance(existing, replace) == 0
    ensures p.Accepted? ==> p.allow == Allowance(existing, replace) && p.rows <= rows && |p.rows| <= p.allow
                            && (p.trimmed <==> |rows| > p.allow) && (rows != [] ==> p.rows != [])
  {
    var allow := Allowance(existing, replace);
    if allow == 0 then CapReached
    else if |rows| > allow then Accepted(rows[..allow], allow, true)
    else Accepted(rows, allow, false)
  }

  /**
   * The checks before the rows are written: every required column present,
   * some non-blank row, room under the cap; the rows beyond the allowance are
   * cut and the cut is reported.
   */
  function PlanUpload(header: seq<Cell>, rowsAll: seq<seq<Cell>>, existing: nat, replace: bool): (p: UploadPlan)
    ensures p.Accepted? ==> p.rows != [] && p.rows <= DataRows(rowsAll)
  {
    var missing := MissingFields(RequiredFields, IndexByField(MappedHeaders(header)));
    if missing != [] then MissingColumns(missing)
    else if DataRows(rowsAll) == [] then NoDataRows
    else CapRows(DataRows(rowsAll), existing, replace)
  }

  /** The cap keeps a prefix (`<=` on sequences) of at least one row, within the allowance, cut exactly when there were more. */
  lemma CapRowsBounds(rows: seq<seq<Cell>>, existing: nat, replace: bool)
    requires rows != []
    ensures var p := CapRows(rows, existing, replace);
      (p.CapReached? <==> !replace && existing >= TotalCap)
      && (p.Accepted? ==>
        0 < |p.rows| <= p.allow <= TotalCap
        && (if replace then 0 else existing) + |p.rows| <= TotalCap
        && p.rows <= rows
        && (p.trimmed <==> |rows| > p.allow)
        && (!p.trimmed ==> p.rows == rows)
        && forall x :: x in p.rows ==> x in rows)
  {
    var p := CapRows(rows, existing, replace);
    if p.Accepted? {
      forall x | x in p.rows ensures x in rows {
        var k :| 0 <= k < |p.rows| && p.rows[k] == x;
        assert rows[k] in rows;
      }
    }
  }

  /**
   * An accepted upload writes the first non-blank rows, at least one and no
   * more than the allowance, so that the client never holds more than 100
   * rows; it is cut exactly when there were more. The cap stops an upload
   * only when it adds to a client that already has 100 rows.
   */
  lemma UploadCap(header: seq<Cell>, rowsAll: seq<seq<Cell>>, existing: nat, replace: bool)
    ensures var p := PlanUpload(header, rowsAll, existing, replace);
      p.Accepted? ==>
        var kept := DataRows(rowsAll);
        0 < |p.rows| <= p.allow <= TotalCap
        && (if replace then 0 else existing) + |p.rows| <= TotalCap
        && p.rows <= kept
        && (p.trimmed <==> |kept| > p.allow)
        && (!p.trimmed ==> p.rows == kept)
        && forall x :: x in p.rows ==> !RowIsBlank(x)
    ensures var p := PlanUpload(header, rowsAll, existing, replace);
      var covered := MissingFields(RequiredFields, IndexByField(MappedHeaders(header))) == [];
      (p.NoDataRows? <==> covered && DataRows(rowsAll) == [])
      && (p.CapReached? <==> covered && DataRows(rowsAll) != [] && !replace && existing >= TotalCap)
  {
    var kept := DataRows(rowsAll);
    if kept != [] {
      CapRowsBounds(kept, existing, replace);
    }
  }

  // ---------------------------------------------------------------------------
  // standardising symbol fields

  /**
   * `re.split(r'[...]', s)` for a class of single characters: the pieces
   * between single separators, the empty ones included.
   */
  function SplitEach(s: string, seps: set<char>): (r: seq<string>)
    ensures |r| >= 1
    ensures forall k :: 0 <= k < |r| ==> Avoids(r[k], seps)
  {
    if s == [] then [[]]
    else
      var rest := SplitEach(s[1..], seps);
      if s[0] in seps then [[]] + rest
      else
        var first := [s[0]] + rest[0];
        assert forall i :: 1 <= i < |first| ==> first[i] == rest[0][i - 1];
        [first] + rest[1..]
  }

  /** A separator-free prefix joins the first piece of what follows it. */
  lemma {:induction false} SplitEachPrefix(a: string, b: string, seps: set<char>)
    requires Avoids(a, seps)
    ensures SplitEach(a + b, seps) == [a + SplitEach(b, seps)[0]] + SplitEach(b, seps)[1..]
    decreases |a|
  {
    var rb := SplitEach(b, seps);
    if a == [] {
      assert a + b == b && a + rb[0] == rb[0];
      assert [rb[0]] + rb[1..] == rb;
    } else {
      assert Avoids(a[1..], seps) by {
        forall i | 0 <= i < |a[1..]| ensures a[1..][i] !in seps {
          assert a[1..][i] == a[i + 1];
        }
      }
      SplitEachPrefix(a[1..], b, seps);
      assert (a + b)[1..] == a[1..] + b;
      assert [a[0]] + (a[1..] + rb[0]) == a + rb[0];
    }
  }

  /** A separator opens a new piece. */
  lemma SplitEachSeparator(c: char, b: string, seps: set<char>)
    requires c in seps
    ensures SplitEach([c] + b, seps) == [[]] + SplitEach(b, seps)
  {
    assert ([c] + b)[1..] == b;
  }

  /** Separator-free pieces joined by ", " split into the first piece and each later one behind its space. */
  lemma {:induction false} SplitEachJoin(parts: seq<string>, seps: set<char>)
    requires |parts| >= 1 && ',' in seps && ' ' !in seps
    requires forall k :: 0 <= k < |parts| ==> Avoids(parts[k], seps)
    ensures var r := SplitEach(Join(parts, ", "), seps);
      |r| == |parts| && r[0] == parts[0] && forall k :: 1 <= k < |parts| ==> r[k] == " " + parts[k]
  {
    if |parts| == 1 {
      SplitEachPrefix(parts[0], [], seps);
      assert parts[0] + [] == parts[0];
    } else {
      var tail := Join(parts[1..], ", ");
      SplitEachJoin(parts[1..], seps);
      var rt := SplitEach(tail, seps);
      assert Join(parts, ", ") == parts[0] + ([','] + (" " + tail));
      assert Avoids(" ", seps);
      SplitEachPrefix(" ", tail, seps);
      SplitEachSeparator(',', " " + tail, seps);
      SplitEachPrefix(parts[0], [','] + (" " + tail), seps);
      assert parts[0] + [] == parts[0];
    }
  }

  /** A trimmed non-empty text behind one space strips back to itself. */
  lemma SpacedStrip(t: string)
    requires t != [] && t[0] !in Whitespace && t[|t| - 1] !in Whitespace
    ensures Strip(" " + t) == t
  {
    assert (" " + t)[1..] == t;
    assert LStrip(" " + t) == t;
  }

  /** `t.replace(x + y, z)`: each pair `x y` found scanning left to right becomes `z`. */
  function ReplacePair(s: string, x: char, y: char, z: char): (r: string)
    ensures forall c :: c in r ==> c in s || c == z
    ensures s != [] ==> r != [] && (r[0] == s[0] || r[0] == z) && (r[|r| - 1] == s[|s| - 1] || r[|r| - 1] == z)
    decreases |s|
  {
    if s == [] then []
    else if |s| >= 2 && s[0] == x && s[1] == y then
      var rest := ReplacePair(s[2..], x, y, z);
      assert forall c :: c in rest ==> c in s[2..] || c == z;
      [z] + rest
    else
      var rest := ReplacePair(s[1..], x, y, z);
      assert forall c :: c in rest ==> c in s[1..] || c == z;
      [s[0]] + rest
  }

  /** `t.replace(' .', '.').replace('. ', '.')`: one space before and one after a point closed up. */
  function ClosePoints(t: string): (r: string)
    ensures forall c :: c in r ==> c in t || c == '.'
    ensures t != [] ==> r != [] && (r[0] == t[0] || r[0] == '.') && (r[|r| - 1] == t[|t| - 1] || r[|r| - 1] == '.')
  {
    ReplacePair(ReplacePair(t, ' ', '.', '.'), '.', ' ', '.')
  }

  function ClosePointsEach(ts: seq<string>): (r: seq<string>)
    ensures |r| == |ts|
    ensures forall k :: 0 <= k < |ts| ==> r[k] == ClosePoints(ts[k])
  {
    if ts == [] then [] else [ClosePoints(ts[0])] + ClosePointsEach(ts[1..])
  }

  /** The characters `_std_symbols` splits on. */
  const SymbolSeparators: set<char> := {';', ','}

  /** The pieces of a cell split on single separators, stripped, the empty ones dropped. */
  function Pieces(s: string, seps: set<char>): (r: seq<string>)
  {
    NonEmpty(StripEach(SplitEach(s, seps)))
  }

  /** The symbols `_std_symbols` keeps: the pieces with their points closed up, first occurrences in order. */
  function Symbols(s: string): (r: seq<string>)
  {
    Dedupe(ClosePointsEach(Pieces(s, SymbolSeparators)))
  }

  /** `_std_symbols` on text: empty text is kept, otherwise the symbols joined by ", ". */
  function StdSymbols(s: string): (r: string)
  {
    if s == [] then s else Join(Symbols(s), ", ")
  }

  /** A symbol as `_std_symbols` leaves it: non-empty, no blank edge, no separator. */
  predicate PlainSymbol(t: string, seps: set<char>)
  {
    t != [] && t[0] !in Whitespace && t[|t| - 1] !in Whitespace && Avoids(t, seps)
  }

  /** Every stripped, non-empty piece is a plain symbol. */
  lemma PiecesPlain(s: string, seps: set<char>)
    ensures forall k :: 0 <= k < |Pieces(s, seps)| ==> PlainSymbol(Pieces(s, seps)[k], seps)
  {
    var split := SplitEach(s, seps);
    var stripped := StripEach(split);
    forall k | 0 <= k < |Pieces(s, seps)| ensures PlainSymbol(Pieces(s, seps)[k], seps) {
      var t := Pieces(s, seps)[k];
      assert t in stripped;
      var j :| 0 <= j < |stripped| && stripped[j] == t;
      StrippedPlain(split[j], seps);
    }
  }

  /** A separator-free piece that does not strip to nothing strips to a plain symbol. */
  lemma StrippedPlain(p: string, seps: set<char>)
    requires Avoids(p, seps) && Strip(p) != []
    ensures PlainSymbol(Strip(p), seps)
  {
    var t := Strip(p);
    StripChars(p);
    StripEdges(p);
    forall i | 0 <= i < |t| ensures t[i] !in seps {
      assert t[i] in t;
      var m :| 0 <= m < |p| && p[m] == t[i];
    }
  }

  /** Closing up the points of a plain symbol leaves a plain symbol. */
  lemma ClosedPlain(t: string, seps: set<char>)
    requires PlainSymbol(t, seps) && '.' !in seps
    ensures PlainSymbol(ClosePoints(t), seps)
  {
    var r := ClosePoints(t);
    forall i | 0 <= i < |r| ensures r[i] !in seps {
      assert r[i] in r;
      if r[i] != '.' {
        var m :| 0 <= m < |t| && t[m] == r[i];
      }
    }
  }

  /** Closing up the points of plain symbols leaves plain symbols. */
  lemma ClosedEachPlain(ts: seq<string>, seps: set<char>)
    requires '.' !in seps
    requires forall k :: 0 <= k < |ts| ==> PlainSymbol(ts[k], seps)
    ensures forall k :: 0 <= k < |ClosePointsEach(ts)| ==> PlainSymbol(ClosePointsEach(ts)[k], seps)
  {
    forall k | 0 <= k < |ts| ensures PlainSymbol(ClosePointsEach(ts)[k], seps) {
      ClosedPlain(ts[k], seps);
    }
  }

  /** The symbols are plain and distinct. */
  lemma SymbolsPlain(s: string)
    ensures forall k :: 0 <= k < |Symbols(s)| ==> PlainSymbol(Symbols(s)[k], SymbolSeparators)
    ensures forall i, j :: 0 <= i < j < |Symbols(s)| ==> Symbols(s)[i] != Symbols(s)[j]
  {
    var pieces := Pieces(s, SymbolSeparators);
    PiecesPlain(s, SymbolSeparators);
    ClosedEachPlain(pieces, SymbolSeparators);
    var closed := ClosePointsEach(pieces);
    var syms := Symbols(s);
    forall k | 0 <= k < |syms| ensures PlainSymbol(syms[k], SymbolSeparators) {
      assert syms[k] in closed;
    }
  }

  /** Plain symbols joined by ", " read back, split, stripped and filtered, as themselves. */
  lemma PiecesOfJoin(parts: seq<string>, seps: set<char>)
    requires ',' in seps && ' ' !in seps
    requires forall k :: 0 <= k < |parts| ==> PlainSymbol(parts[k], seps)
    ensures Pieces(Join(parts, ", "), seps) == parts
  {
    if parts == [] {
      assert SplitEach([], seps) == [[]];
      assert StripEach([[]]) == [[]];
    } else {
      SplitEachJoin(parts, seps);
      var split := SplitEach(Join(parts, ", "), seps);
      StripSpaced(split, parts, seps);
      NonEmptyKeeps(parts);
    }
  }

  /** The first plain symbol as it is, and each later one behind a space, strip back to the symbols. */
  lemma StripSpaced(split: seq<string>, parts: seq<string>, seps: set<char>)
    requires |split| == |parts| >= 1 && split[0] == parts[0]
    requires forall k :: 1 <= k < |parts| ==> split[k] == " " + parts[k]
    requires forall k :: 0 <= k < |parts| ==> PlainSymbol(parts[k], seps)
    ensures StripEach(split) == parts
  {
    forall k | 0 <= k < |parts| ensures Strip(split[k]) == parts[k] {
      StripSpacedAt(split[k], parts[k], k == 0);
    }
  }

  lemma StripSpacedAt(piece: string, part: string, first: bool)
    requires PlainSymbol(part, {})
    requires piece == if first then part else " " + part
    ensures Strip(piece) == part
  {
    if first {
      StripTrimmed(part);
    } else {
      SpacedStrip(part);
    }
  }

  /** The standardised text splits back into exactly its symbols, each once. */
  lemma StdSymbolsReadsBack(s: string)
    requires s != []
    ensures Pieces(StdSymbols(s), SymbolSeparators) == Symbols(s)
    ensures forall i, j :: 0 <= i < j < |Symbols(s)| ==> Symbols(s)[i] != Symbols(s)[j]
  {
    var syms := Symbols(s);
    assert StdSymbols(s) == Join(syms, ", ");
    SymbolsPlain(s);
    PiecesOfJoin(syms, SymbolSeparators);
  }

  /**
   * Standardising standardised text changes nothing when no symbol has a
   * point left to close up.
   */
  lemma StdSymbolsIdempotent(s: string)
    requires forall k :: 0 <= k < |Symbols(s)| ==> ClosePoints(Symbols(s)[k]) == Symbols(s)[k]
    ensures StdSymbols(StdSymbols(s)) == StdSymbols(s)
  {
    if s != [] && StdSymbols(s) != [] {
      var syms := Symbols(s);
      StdSymbolsReadsBack(s);
      assert ClosePointsEach(syms) == syms;
      DedupeDistinct(syms);
    }
  }

  /** A single pass leaves a space before a point when two spaces precede it, so standardising twice differs. */
  lemma StdSymbolsTwice()
    ensures StdSymbols("a  .b") == "a .b"
    ensures StdSymbols("a .b") == "a.b"
  {
    ClosesTwoSpaces();
    ClosesOneSpace();
    SymbolOfPlain("a  .b", "a .b");
    SymbolOfPlain("a .b", "a.b");
  }

  lemma ClosesTwoSpaces()
    ensures PlainSymbol("a  .b", SymbolSeparators)
    ensures ClosePoints("a  .b") == "a .b"
  {
    PlainSample("a  .b");
    assert ReplacePair(".b", '.', ' ', '.') == ".b";
    assert ReplacePair("a  .b", ' ', '.', '.') == "a .b";
    assert ReplacePair("a .b", '.', ' ', '.') == "a .b";
  }

  lemma ClosesOneSpace()
    ensures PlainSymbol("a .b", SymbolSeparators)
    ensures ClosePoints("a .b") == "a.b"
  {
    PlainSample("a .b");
    assert ReplacePair(".b", '.', ' ', '.') == ".b";
    assert ReplacePair("a .b", ' ', '.', '.') == "a.b";
    assert ReplacePair("a.b", '.', ' ', '.') == "a.b";
  }

  /** A text of letters, spaces and points between two letters is a plain symbol. */
  lemma PlainSample(s: string)
    requires |s| >= 2 && s[0] == 'a' && s[|s| - 1] == 'b'
    requires forall i :: 0 <= i < |s| ==> s[i] in "ab ."
    ensures PlainSymbol(s, SymbolSeparators)
  {
    assert 'a' !in Whitespace && 'b' !in Whitespace;
    forall i | 0 <= i < |s| ensures s[i] !in SymbolSeparators {
      assert s[i] in "ab .";
    }
  }

  /** A text without separators or blank edges is its own only piece. */
  lemma PiecesOfPlain(s: string, seps: set<char>)
    requires PlainSymbol(s, seps)
    ensures Pieces(s, seps) == [s]
  {
    SplitEachPrefix(s, [], seps);
    assert SplitEach([], seps) == [[]];
    assert s + [] == s;
    assert SplitEach(s, seps) == [s];
    StripTrimmed(s);
    assert StripEach([s]) == [s];
    NonEmptyKeeps([s]);
  }

  /** A text without separators or blank edges standardises to its closed-up form. */
  lemma SymbolOfPlain(s: string, closed: string)
    requires PlainSymbol(s, SymbolSeparators) && ClosePoints(s) == closed
    ensures StdSymbols(s) == closed
  {
    PiecesOfPlain(s, SymbolSeparators);
    assert ClosePointsEach([s]) == [closed];
    DedupeDistinct([closed]);
  }

  /** `_std_symbols` on a cell: a falsy cell is returned as it is, anything else is standardised as text. */
  function SymbolCell(v: Cell): (r: Cell)
    ensures v.Null? || v == Str([]) || v == Num(0) ==> r == v
    ensures v.Str? && v.s != [] ==> r == Str(StdSymbols(v.s))
    ensures v.Num? && v.n != 0 ==> r == Str(StdSymbols(IntText(v.n)))
  {
    if v.Null? || v == Str([]) || v == Num(0) then v else Str(StdSymbols(Render(v)))
  }

  // ---------------------------------------------------------------------------
  // one uploaded row

  /** The fields `_std_symbols` standardises. */
  const SymbolKeys: seq<string> := ["determinants", "form_qual", "content", "special"]

  /** A cast failure reported for a row: the sheet row number and the key. */
  datatype CastError = CastError(row: nat, key: string)

  /** `int(float(text))` raises: the text is not blank and does not read as a number. */
  predicate CastFails(v: Cell)
  {
    Strip(Render(v)) != [] && FloatToInt(Strip(Render(v))).None?
  }

  /** A failed cast leaves the value as it was, and a successful one gives an integer or ''. */
  lemma CastFailureKeeps(v: Cell)
    ensures CastFails(v) ==> CastIntCell(v) == v
    ensures !CastFails(v) ==> CastIntCell(v).Num? || CastIntCell(v) == Str([])
  {
  }

  /** The errors of the number casts, in key order. */
  function CastErrors(data: map<string, Cell>, keys: seq<string>, rowNumber: nat): (r: seq<CastError>)
  {
    if keys == [] then []
    else
      var init := keys[..|keys| - 1];
      var key := keys[|keys| - 1];
      CastErrors(data, init, rowNumber)
        + (if CastFails(Get(CastAll(data, init), key)) then [CastError(rowNumber, key)] else [])
  }

  /** One symbol key standardised in place. */
  function SymbolStep(data: map<string, Cell>, key: string): map<string, Cell>
  {
    data[key := SymbolCell(Get(data, key))]
  }

  function SymbolAll(data: map<string, Cell>, keys: seq<string>): map<string, Cell>
  {
    if keys == [] then data else SymbolStep(SymbolAll(data, keys[..|keys| - 1]), keys[|keys| - 1])
  }

  /** The data handed to the form for a row: read and cleaned, the card rewritten, numbers cast, symbols standardised. */
  function RowData(row: seq<Cell>, index: map<string, nat>): map<string, Cell>
    requires Covers(index)
  {
    SymbolAll(CastAll(Carded(ReadFields(row, index, RequiredFields, true)), IntKeys), SymbolKeys)
  }

  /** The row data the number casts work on: read and cleaned, the card rewritten. */
  function CastSource(row: seq<Cell>, index: map<string, nat>): map<string, Cell>
    requires Covers(index)
  {
    Carded(ReadFields(row, index, RequiredFields, true))
  }

  /** The cast errors of a row, reported under its sheet row number. */
  function RowErrors(row: seq<Cell>, index: map<string, nat>, rowNumber: nat): seq<CastError>
    requires Covers(index)
  {
    CastErrors(CastSource(row, index), IntKeys, rowNumber)
  }

  /** An error is reported for exactly the number keys whose text does not read as a number, in key order. */
  lemma {:induction false} CastErrorsExact(data: map<string, Cell>, keys: seq<string>, rowNumber: nat)
    requires Distinct(keys)
    ensures var r := CastErrors(data, keys, rowNumber);
      |r| <= |keys|
      && (forall e :: e in r ==> e.row == rowNumber && e.key in keys)
      && (forall k :: k in keys ==> (CastError(rowNumber, k) in r <==> CastFails(Get(data, k))))
  {
    if keys != [] {
      var init := keys[..|keys| - 1];
      var key := keys[|keys| - 1];
      CastErrorsExact(data, init, rowNumber);
      assert key !in init;
      CastAllAt(data, init);
      assert Get(CastAll(data, init), key) == Get(data, key);
      assert forall k :: k in keys <==> k in init || k == key;
    }
  }

  lemma CastErrorsNext(data: map<string, Cell>, keys: seq<string>, rowNumber: nat, i: nat)
    requires i < |keys|
    ensures CastErrors(data, keys[..i + 1], rowNumber)
      == CastErrors(data, keys[..i], rowNumber)
        + (if CastFails(Get(CastAll(data, keys[..i]), keys[i])) then [CastError(rowNumber, keys[i])] else [])
  {
    assert keys[..i + 1][..i] == keys[..i];
  }

  lemma SymbolAllNext(data: map<string, Cell>, keys: seq<string>, i: nat)
    requires i < |keys|
    ensures SymbolAll(data, keys[..i + 1]) == SymbolStep(SymbolAll(data, keys[..i]), keys[i])
  {
    assert keys[..i + 1][..i] == keys[..i];
  }

  /** The loop over the number keys: each cast in place, a failure reported and the value left as it was. */
  method CastNumbers(data: map<string, Cell>, rowNumber: nat) returns (r: map<string, Cell>, errors: seq<CastError>)
    ensures r == CastAll(data, IntKeys)
    ensures errors == CastErrors(data, IntKeys, rowNumber)
  {
    r, errors := data, [];
    var i := 0;
    while i < |IntKeys|
      invariant 0 <= i <= |IntKeys|
      invariant r == CastAll(data, IntKeys[..i])
      invariant errors == CastErrors(data, IntKeys[..i], rowNumber)
    {
      var failed;
      CastAllNext(data, IntKeys, i);
      CastErrorsNext(data, IntKeys, rowNumber, i);
      r, failed := CastKey(r, IntKeys[i]);
      if failed {
        errors := errors + [CastError(rowNumber, IntKeys[i])];
      }
      i := i + 1;
    }
    assert IntKeys[..i] == IntKeys;
  }

  /** One number key cast in place: blank text becomes '', a number its integer, and a failure leaves the value. */
  method CastKey(data: map<string, Cell>, key: string) returns (r: map<string, Cell>, failed: bool)
    ensures r == CastStep(data, key)
    ensures failed == CastFails(Get(data, key))
  {
    r, failed := data, false;
    var text := Strip(Render(Get(data, key)));
    if text == [] {
      r := data[key := Str([])];
    } else {
      var n := FloatToInt(text);
      if n.Some? {
        r := data[key := Num(n.value)];
      } else {
        r := data[key := Get(data, key)];
        failed := true;
      }
    }
  }

  /** The loop over the symbol keys. */
  method StandardiseSymbols(data: map<string, Cell>) returns (r: map<string, Cell>)
    ensures r == SymbolAll(data, SymbolKeys)
  {
    r := data;
    var i := 0;
    while i < |SymbolKeys|
      invariant 0 <= i <= |SymbolKeys|
      invariant r == SymbolAll(data, SymbolKeys[..i])
    {
      var key := SymbolKeys[i];
      r := r[key := SymbolCell(Get(r, key))];
      SymbolAllNext(data, SymbolKeys, i);
      i := i + 1;
    }
    assert SymbolKeys[..i] == SymbolKeys;
  }

  /** The body of the upload loop for one row, up to the form. */
  method UploadRow(row: seq<Cell>, index: map<string, nat>, rowNumber: nat) returns (data: map<string, Cell>, errors: seq<CastError>)
    requires Covers(index)
    ensures data == RowData(row, index)
    ensures errors == RowErrors(row, index, rowNumber)
  {
    data := ReadRow(row, index, true);
    data := data["card" := Str(ToRoman(CardLabel(Get(data, "card"))))];
    data, errors := CastNumbers(data, rowNumber);
    data := StandardiseSymbols(data);
  }

  /** The data of every accepted row, in order. */
  function UploadData(rows: seq<seq<Cell>>, index: map<string, nat>): (r: seq<map<string, Cell>>)
    requires Covers(index)
    ensures |r| == |rows|
  {
    if rows == [] then [] else UploadData(rows[..|rows| - 1], index) + [RowData(rows[|rows| - 1], index)]
  }

  /** The cast errors of every accepted row, the rows numbered from 2 as on the sheet. */
  function UploadErrors(rows: seq<seq<Cell>>, index: map<string, nat>): seq<CastError>
    requires Covers(index)
  {
    if rows == [] then [] else UploadErrors(rows[..|rows| - 1], index) + RowErrors(rows[|rows| - 1], index, |rows| + 1)
  }

  lemma UploadNext(rows: seq<seq<Cell>>, index: map<string, nat>, i: nat)
    requires Covers(index) && i < |rows|
    ensures UploadData(rows[..i + 1], index) == UploadData(rows[..i], index) + [RowData(rows[i], index)]
    ensures UploadErrors(rows[..i + 1], index) == UploadErrors(rows[..i], index) + RowErrors(rows[i], index, i + 2)
  {
    assert rows[..i + 1][..i] == rows[..i];
  }

  /** The upload loop: every accepted row goes on to the form, whatever its casts reported. */
  method UploadRows(rows: seq<seq<Cell>>, index: map<string, nat>) returns (datas: seq<map<string, Cell>>, errors: seq<CastError>)
    requires Covers(index)
    ensures datas == UploadData(rows, index)
    ensures errors == UploadErrors(rows, index)
  {
    datas, errors := [], [];
    var i := 0;
    while i < |rows|
      invariant 0 <= i <= |rows|
      invariant datas == UploadData(rows[..i], index)
      invariant errors == UploadErrors(rows[..i], index)
    {
      UploadNext(rows, index, i);
      var data, rowErrors := UploadRow(rows[i], index, i + 2);
      datas := datas + [data];
      errors := errors + rowErrors;
      i := i + 1;
    }
    assert rows[..i] == rows;
  }

  /** Every error names one of the accepted rows, numbered from 2, and one of the number keys. */
  lemma {:induction false} UploadErrorRows(rows: seq<seq<Cell>>, index: map<string, nat>)
    requires Covers(index)
    ensures forall e :: e in UploadErrors(rows, index) ==> 2 <= e.row < |rows| + 2 && e.key in IntKeys
  {
    if rows != [] {
      var n := |rows| - 1;
      UploadErrorRows(rows[..n], index);
      RowErrorsNamed(rows[n], index, n + 2);
    }
  }

  /** A row's errors carry its number and a number key. */
  lemma RowErrorsNamed(row: seq<Cell>, index: map<string, nat>, rowNumber: nat)
    requires Covers(index)
    ensures forall e :: e in RowErrors(row, index, rowNumber) ==> e.row == rowNumber && e.key in IntKeys
  {
    CastErrorsExact(CastSource(row, index), IntKeys, rowNumber);
  }

  /** A number key of a row is reported under the row's number exactly when its cast fails. */
  lemma RowErrorsExact(row: seq<Cell>, index: map<string, nat>, rowNumber: nat, k: string)
    requires Covers(index) && k in IntKeys
    ensures CastError(rowNumber, k) in RowErrors(row, index, rowNumber) <==> CastFails(Get(CastSource(row, index), k))
  {
    CastErrorsExact(CastSource(row, index), IntKeys, rowNumber);
  }

  /** A failed cast is reported under the row's sheet number exactly when it fails, whatever the other rows hold. */
  lemma {:induction false} UploadErrorsExact(rows: seq<seq<Cell>>, index: map<string, nat>, i: nat, k: string)
    requires Covers(index) && i < |rows| && k in IntKeys
    ensures CastError(i + 2, k) in UploadErrors(rows, index) <==> CastFails(Get(CastSource(rows[i], index), k))
  {
    var n := |rows| - 1;
    var prev := UploadErrors(rows[..n], index);
    var last := RowErrors(rows[n], index, n + 2);
    assert UploadErrors(rows, index) == prev + last;
    UploadErrorRows(rows[..n], index);
    RowErrorsNamed(rows[n], index, n + 2);
    if i == n {
      assert CastError(i + 2, k) !in prev;
      RowErrorsExact(rows[n], index, n + 2, k);
    } else {
      assert CastError(i + 2, k) !in last;
      UploadErrorsExact(rows[..n], index, i, k);
      assert rows[..n][i] == rows[i];
    }
  }

  // ---------------------------------------------------------------------------
  // the pair marker

  /** A cell of the scoring frame: missing, NaN, text, or a whole number. */
  datatype PdCell = PdNone | PdNaN | PdText(s: string) | PdInt(n: int)

  /** `str(v or '')`: None, '' and 0 read as '', and NaN, which is truthy, as "nan". */
  function OrEmptyText(v: PdCell): string
  {
    match v
    case PdNone => []
    case PdNaN => "nan"
    case PdText(s) => s
    case PdInt(n) => if n == 0 then [] else IntText(n)
  }

  /** The pair marker as text: '' for None, '', ' ' and NaN, otherwise `str(int(v))`; None where `int()` raises. */
  function PairText(v: PdCell): (r: Option<string>)
    ensures r.Some? && r.value != [] ==> PlainSymbol(r.value, DeterminantSeparators)
  {
    match v
    case PdNone => Some([])
    case PdNaN => Some([])
    case PdText(s) =>
      if s == [] || s == " " then Some([])
      else (match ParseInt(s) case Some(n) => IntTextPlain(n); Some(IntText(n)) case None => None)
    case PdInt(n) => IntTextPlain(n); Some(IntText(n))
  }

  /** The spelling of an integer is a plain determinant token. */
  lemma IntTextPlain(n: int)
    ensures PlainSymbol(IntText(n), DeterminantSeparators)
  {
    var t := IntText(n);
    if n >= 0 {
      assert forall i :: 0 <= i < |t| ==> '0' <= t[i] <= '9';
    } else {
      assert forall i :: 1 <= i < |t| ==> t[i] == NatText(-n)[i - 1];
    }
  }

  /** The characters the determinants are split on. */
  const DeterminantSeparators: set<char> := {',', '.'}

  /**
   * `_apply_pair_into_determinants`: the determinant tokens, split on ',' or
   * '.', with the pair value appended when it is not blank and not already
   * there, joined by ", " (NaN when there are none); None where the pair
   * value does not convert to an integer.
   */
  function ApplyPair(det: PdCell, pair: PdCell): (r: Option<PdCell>)
    ensures r.None? <==> PairText(pair).None?
    ensures r.Some? && r.value.PdNaN? ==> DeterminantTokens(det) == [] && PairText(pair) == Some([])
  {
    match PairText(pair)
    case None => None
    case Some(val2) => Some(PairInto(det, val2))
  }

  /** The determinant tokens `_apply_pair_into_determinants` reads from a cell. */
  function DeterminantTokens(det: PdCell): seq<string>
  {
    Pieces(Strip(OrEmptyText(det)), DeterminantSeparators)
  }

  /** The determinants once the pair value, as text, is joined to them. */
  function PairInto(det: PdCell, val2: string): PdCell
  {
    var tokens := DeterminantTokens(det);
    var out := if val2 != [] && val2 !in tokens then tokens + [val2] else tokens;
    if out == [] then PdNaN else PdText(Join(out, ", "))
  }

  /**
   * The written determinants split back into the original tokens followed by
   * the pair value exactly when it is not blank and was not among them; no
   * tokens at all are written as NaN.
   */
  lemma ApplyPairReadsBack(det: PdCell, pair: PdCell)
    requires PairText(pair).Some?
    ensures var val2 := PairText(pair).value;
      var tokens := DeterminantTokens(det);
      var r := ApplyPair(det, pair).value;
      (r.PdNaN? <==> tokens == [] && val2 == [])
      && (r.PdText? ==>
        var back := Pieces(r.s, DeterminantSeparators);
        (val2 != [] && val2 !in tokens ==> back == tokens + [val2])
        && (val2 == [] || val2 in tokens ==> back == tokens))
  {
    PairIntoReadsBack(det, PairText(pair).value);
  }

  lemma PairIntoReadsBack(det: PdCell, val2: string)
    requires val2 != [] ==> PlainSymbol(val2, DeterminantSeparators)
    ensures var tokens := DeterminantTokens(det);
      var r := PairInto(det, val2);
      (r.PdNaN? <==> tokens == [] && val2 == [])
      && (r.PdText? ==>
        var back := Pieces(r.s, DeterminantSeparators);
        (val2 != [] && val2 !in tokens ==> back == tokens + [val2])
        && (val2 == [] || val2 in tokens ==> back == tokens))
  {
    var tokens := DeterminantTokens(det);
    PiecesPlain(Strip(OrEmptyText(det)), DeterminantSeparators);
    if val2 != [] && val2 !in tokens {
      PlainSnoc(tokens, val2, DeterminantSeparators);
      PiecesOfJoin(tokens + [val2], DeterminantSeparators);
    } else if tokens != [] {
      PiecesOfJoin(tokens, DeterminantSeparators);
    }
  }

  lemma PlainSnoc(ts: seq<string>, t: string, seps: set<char>)
    requires forall k :: 0 <= k < |ts| ==> PlainSymbol(ts[k], seps)
    requires PlainSymbol(t, seps)
    ensures forall k :: 0 <= k < |ts + [t]| ==> PlainSymbol((ts + [t])[k], seps)
  {
  }

  /** Determinants already written as plain tokens, the pair value among them, are written back unchanged. */
  lemma ReapplyPair(out: seq<string>, val2: string)
    requires out != []
    requires forall k :: 0 <= k < |out| ==> PlainSymbol(out[k], DeterminantSeparators)
    requires val2 != [] ==> val2 in out
    ensures PairInto(PdText(Join(out, ", ")), val2) == PdText(Join(out, ", "))
  {
    PiecesOfJoin(out, DeterminantSeparators);
    JoinTrimmed(out);
  }

  /** Once the determinants are written as text, joining the same pair value again changes nothing. */
  lemma PairIntoIdempotent(det: PdCell, val2: string)
    requires val2 != [] ==> PlainSymbol(val2, DeterminantSeparators)
    requires PairInto(det, val2).PdText?
    ensures PairInto(PairInto(det, val2), val2) == PairInto(det, val2)
  {
    var tokens := DeterminantTokens(det);
    PiecesPlain(Strip(OrEmptyText(det)), DeterminantSeparators);
    var out := if val2 != [] && val2 !in tokens then tokens + [val2] else tokens;
    assert forall k :: 0 <= k < |out| ==> PlainSymbol(out[k], DeterminantSeparators);
    ReapplyPair(out, val2);
  }

  /** Once the determinants are written as text, applying the same pair marker again changes nothing. */
  lemma ApplyPairIdempotent(det: PdCell, pair: PdCell)
    requires ApplyPair(det, pair).Some? && ApplyPair(det, pair).value.PdText?
    ensures ApplyPair(ApplyPair(det, pair).value, pair) == ApplyPair(det, pair)
  {
    PairIntoIdempotent(det, PairText(pair).value);
  }

  /** Plain tokens joined by ", " strip to themselves. */
  lemma JoinTrimmed(parts: seq<string>)
    requires |parts| >= 1
    requires forall k :: 0 <= k < |parts| ==> PlainSymbol(parts[k], DeterminantSeparators)
    ensures Strip(Join(parts, ", ")) == Join(parts, ", ")
  {
    JoinEdges(parts);
    StripTrimmed(Join(parts, ", "));
  }

  /** Plain tokens joined by ", " neither start nor end with whitespace. */
  lemma {:induction false} JoinEdges(parts: seq<string>)
    requires |parts| >= 1
    requires forall k :: 0 <= k < |parts| ==> PlainSymbol(parts[k], DeterminantSeparators)
    ensures Join(parts, ", ") != []
    ensures Join(parts, ", ")[0] !in Whitespace && Join(parts, ", ")[|Join(parts, ", ")| - 1] !in Whitespace
  {
    if |parts| > 1 {
      JoinEdges(parts[1..]);
      var tail := Join(parts[1..], ", ");
      assert Join(parts, ", ") == parts[0] + ", " + tail;
    }
  }

  /** A NaN determinant cell is truthy, so it is read as the token "nan". */
  lemma ApplyPairReadsNaN()
    ensures ApplyPair(PdNaN, PdNone) == Some(PdText("nan"))
  {
    var t := "nan";
    assert PlainSymbol(t, DeterminantSeparators);
    StripTrimmed(t);
    PiecesOfPlain(t, DeterminantSeparators);
  }

  // ---------------------------------------------------------------------------
  // token scores

  /** A token of the tokenizer: a word and its part of speech. */
  datatype Token = Token(word: string, pos: string)

  /** The score of an unknown (card, token) or (card, area, symbol). */
  const DefaultScore: int := 2

  /** `token_score_map.get((card, tok), 2)`. */
  function TokenValue(table: map<(string, Token), int>, card: string, tok: Token): int
  {
    if (card, tok) in table then table[(card, tok)] else DefaultScore
  }

  /** The sum of the token values over a set of tokens. */
  ghost function SetScore(table: map<(string, Token), int>, card: string, toks: set<Token>): int
    decreases toks
  {
    if toks == {} then 0
    else
      var t :| t in toks;
      TokenValue(table, card, t) + SetScore(table, card, toks - {t})
  }

  /** The sum does not depend on which token is taken first. */
  lemma {:induction false} SetScoreRemove(table: map<(string, Token), int>, card: string, toks: set<Token>, t: Token)
    requires t in toks
    ensures SetScore(table, card, toks) == TokenValue(table, card, t) + SetScore(table, card, toks - {t})
    decreases toks
  {
    var u :| u in toks && SetScore(table, card, toks) == TokenValue(table, card, u) + SetScore(table, card, toks - {u});
    if u != t {
      SetScoreRemove(table, card, toks - {u}, t);
      SetScoreRemove(table, card, toks - {t}, u);
      assert toks - {u} - {t} == toks - {t} - {u};
    }
  }

  /** `compute_row`: the sum over the row's distinct tokens of their values for the row's card. */
  method RowTokenScore(table: map<(string, Token), int>, card: string, tokens: seq<Token>) returns (total: int)
    ensures total == SetScore(table, card, set t | t in tokens)
  {
    var uniq := set t | t in tokens;
    var left := uniq;
    total := 0;
    while left != {}
      invariant left <= uniq
      invariant total + SetScore(table, card, left) == SetScore(table, card, uniq)
      decreases left
    {
      var t :| t in left;
      SetScoreRemove(table, card, left, t);
      total := total + TokenValue(table, card, t);
      left := left - {t};
    }
  }

  /**
   * With every value between `lo` and `hi`, the score lies between `lo` and
   * `hi` times the number of distinct tokens; a table that knows nothing of
   * the card gives 2 per distinct token.
   */
  lemma {:induction false} SetScoreBounds(table: map<(string, Token), int>, card: string, toks: set<Token>, lo: int, hi: int)
    requires forall t :: t in toks ==> lo <= TokenValue(table, card, t) <= hi
    ensures lo * |toks| <= SetScore(table, card, toks) <= hi * |toks|
    decreases toks
  {
    if toks != {} {
      var t :| t in toks;
      var rest := toks - {t};
      SetScoreRemove(table, card, toks, t);
      SetScoreBounds(table, card, rest, lo, hi);
      assert |toks| == |rest| + 1;
      MulStep(lo, |rest|);
      MulStep(hi, |rest|);
    }
  }

  lemma MulStep(a: int, n: nat)
    ensures a * (n + 1) == a * n + a
  {
  }

  lemma TokenScoreDefault(table: map<(string, Token), int>, card: string, tokens: seq<Token>)
    requires forall t :: (card, t) !in table
    ensures SetScore(table, card, set t | t in tokens) == DefaultScore * |set t | t in tokens|
  {
    SetScoreBounds(table, card, (set t | t in tokens), DefaultScore, DefaultScore);
  }

  /** A repeated token adds nothing. */
  lemma TokenScoreRepeat(table: map<(string, Token), int>, card: string, tokens: seq<Token>, i: nat)
    requires i < |tokens|
    ensures SetScore(table, card, set t | t in tokens + [tokens[i]]) == SetScore(table, card, set t | t in tokens)
  {
    assert (set t | t in tokens + [tokens[i]]) == (set t | t in tokens);
  }

  // ---------------------------------------------------------------------------
  // symbol scores

  /** The scoring areas, in the order the scores are written. */
  const ScoreAreas: seq<string> := ["결정인", "내용인", "특수점수"]

  /** A row of the scoring frame: its card, as `str()` gives it, and its cells. */
  datatype ScoreRow = ScoreRow(card: string, cells: map<string, PdCell>)

  /** `lookup.get((card, area, sym), 2)`. */
  function SymbolValue(table: map<(string, string, string), int>, card: string, area: string, sym: string): int
  {
    if (card, area, sym) in table then table[(card, area, sym)] else DefaultScore
  }

  /** `str(cell)`. */
  function PdRender(v: PdCell): string
  {
    match v
    case PdNone => "None"
    case PdNaN => "nan"
    case PdText(s) => s
    case PdInt(n) => IntText(n)
  }

  /** The sum of the values of the symbols, each occurrence counted. */
  function SymbolSum(table: map<(string, string, string), int>, card: string, area: string, syms: seq<string>): (n: int)
    ensures (forall k :: 0 <= k < |syms| ==> (card, area, syms[k]) !in table) ==> n == DefaultScore * |syms|
  {
    if syms == [] then 0
    else SymbolSum(table, card, area, syms[..|syms| - 1]) + SymbolValue(table, card, area, syms[|syms| - 1])
  }

  /** The symbols of a row's cell for an area: none for a missing, NaN or empty cell, else its comma-separated symbols, stripped. */
  function CellSymbols(row: ScoreRow, area: string): seq<string>
  {
    var cell := if area in row.cells then row.cells[area] else PdNone;
    if cell.PdNone? || cell.PdNaN? || cell == PdText([]) then []
    else Pieces(PdRender(cell), {','})
  }

  /** The area's score for a row: the sum over the cell's symbols, repeats counted. */
  function CellScore(table: map<(string, string, string), int>, row: ScoreRow, area: string): int
  {
    SymbolSum(table, row.card, area, CellSymbols(row, area))
  }

  /** Every symbol scored is non-empty, has no blank edge and holds no comma; a blank cell scores 0. */
  lemma CellSymbolsPlain(row: ScoreRow, area: string)
    ensures forall k :: 0 <= k < |CellSymbols(row, area)| ==> PlainSymbol(CellSymbols(row, area)[k], {','})
    ensures var cell := if area in row.cells then row.cells[area] else PdNone;
      (cell.PdNone? || cell.PdNaN? || cell == PdText([])) ==> CellSymbols(row, area) == [] && CellScore(map[], row, area) == 0
  {
    var cell := if area in row.cells then row.cells[area] else PdNone;
    PiecesPlain(PdRender(cell), {','});
  }

  /** With a table that knows nothing of the row's card and the area, each symbol of the cell counts 2. */
  lemma CellScoreDefault(table: map<(string, string, string), int>, row: ScoreRow, area: string)
    requires forall s :: (row.card, area, s) !in table
    ensures CellScore(table, row, area) == DefaultScore * |CellSymbols(row, area)|
  {
    SymbolScoreDefault(table, row.card, area, CellSymbols(row, area));
  }

  /** The scores of one area over the rows, in row order. */
  function AreaScores(table: map<(string, string, string), int>, rows: seq<ScoreRow>, area: string): (r: seq<int>)
    ensures |r| == |rows|
  {
    if rows == [] then []
    else AreaScores(table, rows[..|rows| - 1], area) + [CellScore(table, rows[|rows| - 1], area)]
  }

  /** Scoring the symbols of two runs one after the other adds their scores. */
  lemma {:induction false} SymbolSumAppend(table: map<(string, string, string), int>, card: string, area: string, xs: seq<string>, ys: seq<string>)
    ensures SymbolSum(table, card, area, xs + ys) == SymbolSum(table, card, area, xs) + SymbolSum(table, card, area, ys)
    decreases |ys|
  {
    if ys == [] {
      assert xs + ys == xs;
    } else {
      var init := ys[..|ys| - 1];
      SymbolSumAppend(table, card, area, xs, init);
      assert (xs + ys)[..|xs + ys| - 1] == xs + init;
    }
  }

  /**
   * With every value between `lo` and `hi`, the score lies between `lo` and
   * `hi` times the number of symbols, repeats counted; a table that knows
   * nothing of the card and area gives 2 per symbol.
   */
  lemma {:induction false} SymbolSumBounds(table: map<(string, string, string), int>, card: string, area: string, syms: seq<string>, lo: int, hi: int)
    requires forall k :: 0 <= k < |syms| ==> lo <= SymbolValue(table, card, area, syms[k]) <= hi
    ensures lo * |syms| <= SymbolSum(table, card, area, syms) <= hi * |syms|
  {
    if syms != [] {
      var n := |syms| - 1;
      assert forall k :: 0 <= k < n ==> syms[..n][k] == syms[k];
      SymbolSumBounds(table, card, area, syms[..n], lo, hi);
      MulStep(lo, n);
      MulStep(hi, n);
    }
  }

  lemma SymbolScoreDefault(table: map<(string, string, string), int>, card: string, area: string, syms: seq<string>)
    requires forall s :: (card, area, s) !in table
    ensures SymbolSum(table, card, area, syms) == DefaultScore * |syms|
  {
    SymbolSumBounds(table, card, area, syms, DefaultScore, DefaultScore);
  }

  /** The loop over a cell's symbols. */
  method SumSymbols(table: map<(string, string, string), int>, card: string, area: string, syms: seq<string>) returns (score: int)
    ensures score == SymbolSum(table, card, area, syms)
  {
    score := 0;
    var j := 0;
    while j < |syms|
      invariant 0 <= j <= |syms|
      invariant score == SymbolSum(table, card, area, syms[..j])
    {
      assert syms[..j + 1][..j] == syms[..j];
      score := score + SymbolValue(table, card, area, syms[j]);
      j := j + 1;
    }
    assert syms[..j] == syms;
  }

  /** One row's score for one area, as the loop body computes it. */
  method ScoreCell(table: map<(string, string, string), int>, row: ScoreRow, area: string) returns (score: int)
    ensures score == CellScore(table, row, area)
  {
    var cell := if area in row.cells then row.cells[area] else PdNone;
    if cell.PdNone? || cell.PdNaN? || cell == PdText([]) {
      return 0;
    }
    score := SumSymbols(table, row.card, area, Pieces(PdRender(cell), {','}));
    assert Pieces(PdRender(cell), {','}) == CellSymbols(row, area);
  }

  /** The inner loop over the areas: each area's column gets the row's score appended, and nothing else changes. */
  method ScoreRowAreas(table: map<(string, string, string), int>, row: ScoreRow, scores: map<string, seq<int>>)
    returns (r: map<string, seq<int>>)
    requires forall a :: a in ScoreAreas ==> a in scores
    ensures r.Keys == scores.Keys
    ensures forall a :: a in ScoreAreas ==> r[a] == scores[a] + [CellScore(table, row, a)]
  {
    r := scores;
    var j := 0;
    while j < |ScoreAreas|
      invariant 0 <= j <= |ScoreAreas|
      invariant r.Keys == scores.Keys
      invariant forall k :: 0 <= k < j ==> r[ScoreAreas[k]] == scores[ScoreAreas[k]] + [CellScore(table, row, ScoreAreas[k])]
      invariant forall k :: j <= k < |ScoreAreas| ==> r[ScoreAreas[k]] == scores[ScoreAreas[k]]
    {
      var area := ScoreAreas[j];
      var score := ScoreCell(table, row, area);
      r := r[area := r[area] + [score]];
      j := j + 1;
    }
  }

  lemma AreaScoresNext(table: map<(string, string, string), int>, rows: seq<ScoreRow>, area: string, i: nat)
    requires i < |rows|
    ensures AreaScores(table, rows[..i + 1], area) == AreaScores(table, rows[..i], area) + [CellScore(table, rows[i], area)]
  {
    assert rows[..i + 1][..i] == rows[..i];
  }

  /** `_apply_symbol_score`: for each area, the column of row scores. */
  method ApplySymbolScore(table: map<(string, string, string), int>, rows: seq<ScoreRow>) returns (scores: map<string, seq<int>>)
    ensures scores.Keys == set a | a in ScoreAreas
    ensures forall a :: a in ScoreAreas ==> scores[a] == AreaScores(table, rows, a)
  {
    scores := map a | a in ScoreAreas :: [];
    var i := 0;
    while i < |rows|
      invariant 0 <= i <= |rows|
      invariant scores.Keys == set a | a in ScoreAreas
      invariant forall a :: a in ScoreAreas ==> scores[a] == AreaScores(table, rows[..i], a)
    {
      scores := ScoreRowAreas(table, rows[i], scores);
      forall a | a in ScoreAreas ensures scores[a] == AreaScores(table, rows[..i + 1], a) {
        AreaScoresNext(table, rows, a, i);
      }
      i := i + 1;
    }
    assert rows[..i] == rows;
  }
}
