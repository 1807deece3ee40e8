/**
 * What the spreadsheet-upload views share: the cell values openpyxl hands
 * back, Python's `str()`, `int()` and `int(float())` on them, the clean-up of
 * typed text, and the header row read through the column-name aliases.
 */
module UploadText {
  import opened PyText
  import opened CardBase

  /** A spreadsheet cell as openpyxl returns it: empty, text, or a whole number. */
  datatype Cell = Null | Str(s: string) | Num(n: int)

  // ---------------------------------------------------------------------------
  // numbers as text

  function DigitChar(d: nat): (c: char)
    requires d < 10
    ensures '0' <= c <= '9'
  {
    ('0' as int + d) as char
  }

  function DigitValue(c: char): (d: nat)
    requires '0' <= c <= '9'
    ensures d < 10 && DigitChar(d) == c
  {
    c as int - '0' as int
  }

  /** The decimal spelling of `n`, without leading zeros. */
  function NatText(n: nat): (r: string)
    ensures r != [] && Digits(r)
  {
    if n < 10 then [DigitChar(n)] else NatText(n / 10) + [DigitChar(n % 10)]
  }

  /** `str(n)` for an integer. */
  function IntText(n: int): (r: string)
    ensures r != [] && '.' !in r
    ensures r[0] == '-' || '0' <= r[0] <= '9'
    ensures '0' <= r[|r| - 1] <= '9'
  {
    if n < 0 then "-" + NatText(-n) else NatText(n)
  }

  /** The number a non-empty string of decimal digits spells. */
  function DigitsValue(s: string): nat
    requires Digits(s)
  {
    if s == [] then 0 else DigitsValue(s[..|s| - 1]) * 10 + DigitValue(s[|s| - 1])
  }

  /** Reading back the spelling of a number gives the number. */
  lemma {:induction false} NatTextValue(n: nat)
    ensures DigitsValue(NatText(n)) == n
  {
    if n >= 10 {
      NatTextValue(n / 10);
      var s := NatText(n / 10) + [DigitChar(n % 10)];
      assert s[..|s| - 1] == NatText(n / 10);
    }
  }

  /** `str(v)` for a cell value. */
  function Render(c: Cell): string
  {
    match c
    case Null => "None"
    case Str(s) => s
    case Num(n) => IntText(n)
  }

  /** `v is None or str(v).strip() == ''`: a number is never blank. */
  predicate Blank(c: Cell)
  {
    c.Null? || Strip(Render(c)) == []
  }

  /** The optional sign of a numeric literal, split off: whether it is negative, and the rest. */
  function SplitSign(text: string): (bool, string)
  {
    if text != [] && (text[0] == '-' || text[0] == '+') then (text[0] == '-', text[1..]) else (false, text)
  }

  /** The position of the first `c` in `s`. */
  function IndexOf(s: string, c: char): (i: nat)
    requires c in s
    ensures i < |s| && s[i] == c && c !in s[..i]
  {
    if s[0] == c then 0
    else
      assert c in s[1..] by { assert s == [s[0]] + s[1..]; }
      var j := IndexOf(s[1..], c);
      assert s[..j + 1] == [s[0]] + s[1..][..j];
      j + 1
  }

  /**
   * `int(float(text))` for stripped text: an optional sign, then digits with
   * at most one '.' and at least one digit; the value is truncated toward
   * zero. None where `float()` or `int()` raises (including "inf" and "nan").
   */
  function FloatToInt(text: string): (r: Option<int>)
    ensures text == [] ==> r.None?
  {
    var (negative, body) := SplitSign(text);
    var whole :=
      if '.' !in body then (if body != [] && Digits(body) then Some(body) else None)
      else
        var i := IndexOf(body, '.');
        if |body| > 1 && Digits(body[..i]) && Digits(body[i + 1..]) then Some(body[..i]) else None;
    if whole.None? then None
    else
      var m: int := DigitsValue(whole.value);
      Some(if negative then -m else m)
  }

  /** `int(text)` for a string: surrounding whitespace, an optional sign, and one or more digits. */
  function ParseInt(text: string): (r: Option<int>)
    ensures Strip(text) == [] ==> r.None?
    ensures r.Some? && r.value < 0 ==> Strip(text)[0] == '-'
  {
    var (negative, body) := SplitSign(Strip(text));
    if body != [] && Digits(body) then
      var m: int := DigitsValue(body);
      Some(if negative then -m else m)
    else None
  }

  /** `int(float(str(n))) == n`. */
  lemma FloatToIntOfText(n: int)
    ensures FloatToInt(IntText(n)) == Some(n)
  {
    var m: nat := if n < 0 then -n else n;
    var digits := NatText(m);
    assert SplitSign(IntText(n)) == (n < 0, digits) by {
      if n < 0 {
        assert ("-" + digits)[1..] == digits;
      }
    }
    assert '.' !in digits;
    NatTextValue(m);
  }

  /** `int(float(text))` drops a fraction, truncating toward zero: "-2.7" gives -2. */
  lemma FloatToIntTruncates(n: int, fraction: string)
    requires Digits(fraction)
    ensures FloatToInt(IntText(n) + "." + fraction) == Some(n)
  {
    var t := IntText(n) + "." + fraction;
    var (negative, body) := SplitSign(t);
    var digits := if n < 0 then NatText(-n) else NatText(n);
    assert body == digits + "." + fraction;
    assert IndexOf(body, '.') == |digits| by {
      assert body[|digits|] == '.';
      assert body[..|digits|] == digits;
    }
    assert body[..|digits|] == digits;
    assert body[|digits| + 1..] == fraction;
    NatTextValue(if n < 0 then -n else n);
  }

  /** `int(str(n)) == n`. */
  lemma ParseIntOfText(n: int)
    ensures ParseInt(IntText(n)) == Some(n)
  {
    var t := IntText(n);
    assert t[0] !in Whitespace && t[|t| - 1] !in Whitespace;
    StripTrimmed(t);
    FloatToIntOfText(n);
  }

  // ---------------------------------------------------------------------------
  // cleaning typed text

  const NoBreakSpace: char := '\U{a0}'
  const ZeroWidthSpace: char := '\U{200b}'
  const ZeroWidthNonJoiner: char := '\U{200c}'

  /**
   * The typographic marks the clean-up replaces by their ASCII counterparts:
   * curly quotes, primes and accents, middle dots and bullets, and full-width
   * punctuation. The bulk upload also turns a thin space into a space.
   */
  function Mark(c: char, thinSpace: bool): char
  {
    match c
    case '\U{201c}' => '"'
    case '\U{201d}' => '"'
    case '\U{2018}' => '\''
    case '\U{2019}' => '\''
    case '\U{2032}' => '\''
    case '\U{b4}' => '\''
    case '\U{ff40}' => '\''
    case '\U{b7}' => '.'
    case '\U{318d}' => '.'
    case '\U{2027}' => '.'
    case '\U{2022}' => '.'
    case '\U{ff1a}' => ':'
    case '\U{ff0c}' => ','
    case '\U{ff0e}' => '.'
    case '\U{ff0f}' => '/'
    case '\U{ff0d}' => '-'
    case '\U{2009}' => if thinSpace then ' ' else c
    case _ => c
  }

  /**
   * A replaced mark is not replaced again and is none of the removed
   * characters, and a visible character is not replaced by whitespace.
   */
  lemma MarkSettled(c: char, thinSpace: bool)
    ensures Mark(Mark(c, thinSpace), thinSpace) == Mark(c, thinSpace)
    ensures c !in Whitespace ==> Mark(c, thinSpace) !in Whitespace
    ensures c != NoBreakSpace && c != ZeroWidthSpace && c != ZeroWidthNonJoiner ==>
      Mark(c, thinSpace) != NoBreakSpace && Mark(c, thinSpace) != ZeroWidthSpace && Mark(c, thinSpace) != ZeroWidthNonJoiner
  {
  }

  /** Every character of `s` replaced by its mark. */
  function Translate(s: string, thinSpace: bool): (r: string)
    ensures |r| == |s|
    ensures forall i :: 0 <= i < |s| ==> r[i] == Mark(s[i], thinSpace)
  {
    if s == [] then [] else [Mark(s[0], thinSpace)] + Translate(s[1..], thinSpace)
  }

  /**
   * The text clean-up of an uploaded value: no-break spaces become spaces,
   * zero-width spaces and non-joiners are dropped, the result is stripped
   * and the marks are replaced.
   */
  function CleanText(s: string, thinSpace: bool): (r: string)
    ensures NoBreakSpace !in r && ZeroWidthSpace !in r && ZeroWidthNonJoiner !in r
    ensures forall i :: 0 <= i < |r| ==> Mark(r[i], thinSpace) == r[i]
    ensures r == [] || (r[0] !in Whitespace && r[|r| - 1] !in Whitespace)
  {
    var spaced := ReplaceChar(s, NoBreakSpace, " ");
    ReplaceCharGone(s, NoBreakSpace, " ");
    var visible := RemoveChar(RemoveChar(spaced, ZeroWidthSpace), ZeroWidthNonJoiner);
    var trimmed := Strip(visible);
    StripChars(visible);
    StripEdges(visible);
    TranslateSettled(trimmed, thinSpace);
    Translate(trimmed, thinSpace)
  }

  lemma TranslateSettled(t: string, thinSpace: bool)
    requires NoBreakSpace !in t && ZeroWidthSpace !in t && ZeroWidthNonJoiner !in t
    requires t == [] || (t[0] !in Whitespace && t[|t| - 1] !in Whitespace)
    ensures var r := Translate(t, thinSpace);
      && NoBreakSpace !in r && ZeroWidthSpace !in r && ZeroWidthNonJoiner !in r
      && (forall i :: 0 <= i < |r| ==> Mark(r[i], thinSpace) == r[i])
      && (r == [] || (r[0] !in Whitespace && r[|r| - 1] !in Whitespace))
  {
    var r := Translate(t, thinSpace);
    forall i | 0 <= i < |r|
      ensures Mark(r[i], thinSpace) == r[i]
      ensures r[i] != NoBreakSpace && r[i] != ZeroWidthSpace && r[i] != ZeroWidthNonJoiner
    {
      assert t[i] in t;
      MarkSettled(t[i], thinSpace);
    }
    if r != [] {
      MarkSettled(t[0], thinSpace);
      MarkSettled(t[|r| - 1], thinSpace);
    }
  }

  /** Cleaning cleaned text changes nothing. */
  lemma CleanTextIdempotent(s: string, thinSpace: bool)
    ensures CleanText(CleanText(s, thinSpace), thinSpace) == CleanText(s, thinSpace)
  {
    var t := CleanText(s, thinSpace);
    assert ReplaceChar(t, NoBreakSpace, " ") == t;
    assert RemoveChar(RemoveChar(t, ZeroWidthSpace), ZeroWidthNonJoiner) == t;
    StripTrimmed(t);
    assert Translate(t, thinSpace) == t;
  }

  /** `_normalize_text_value`: None becomes '', a number is kept, text is cleaned. */
  function NormalizeTextValue(v: Cell, thinSpace: bool): (r: Cell)
    ensures v.Null? ==> r == Str([])
    ensures v.Num? ==> r == v
    ensures v.Str? ==> r == Str(CleanText(v.s, thinSpace))
  {
    match v
    case Null => Str([])
    case Num(_) => v
    case Str(s) => Str(CleanText(s, thinSpace))
  }

  lemma NormalizeTextValueIdempotent(v: Cell, thinSpace: bool)
    ensures NormalizeTextValue(NormalizeTextValue(v, thinSpace), thinSpace) == NormalizeTextValue(v, thinSpace)
  {
    if v.Str? {
      CleanTextIdempotent(v.s, thinSpace);
    }
  }

  // ---------------------------------------------------------------------------
  // the header row

  /** The response fields an upload must provide a column for, in form order. */
  const RequiredFields: seq<string> := [
    "card", "response_num", "time", "response", "inquiry", "rotation", "location",
    "dev_qual", "loc_num", "determinants", "form_qual", "pair", "content",
    "popular", "Z", "special", "comment"
  ]

  /**
   * The header aliases of the response-entry page and the bulk upload, keyed
   * by the compacted header; "id" names a column that is ignored.
   */
  const HeaderAliases: map<string, Option<string>> := map[
    "id" := None,
    "카드" := Some("card"), "card" := Some("card"),
    "n" := Some("response_num"), "응답수" := Some("response_num"), "response_num" := Some("response_num"),
    "시간" := Some("time"), "time" := Some("time"),
    "반응" := Some("response"), "response" := Some("response"),
    "질문" := Some("inquiry"), "inquiry" := Some("inquiry"),
    "회전" := Some("rotation"), "v" := Some("rotation"), "rotation" := Some("rotation"),
    "반응영역" := Some("location"), "위치" := Some("location"), "location" := Some("location"),
    "발달질" := Some("dev_qual"), "dq" := Some("dev_qual"), "devqual" := Some("dev_qual"), "dev_qual" := Some("dev_qual"),
    "영역번호" := Some("loc_num"), "locnum" := Some("loc_num"), "loc_num" := Some("loc_num"),
    "결정인" := Some("determinants"), "determinants" := Some("determinants"),
    "형태질" := Some("form_qual"), "형태 질" := Some("form_qual"), "formquality" := Some("form_qual"),
    "form_qual" := Some("form_qual"),
    "(2)" := Some("pair"), "2" := Some("pair"), "pair" := Some("pair"),
    "내용인" := Some("content"), "내용" := Some("content"), "content" := Some("content"),
    "p" := Some("popular"), "popular" := Some("popular"),
    "z" := Some("Z"), "Z" := Some("Z"),
    "특수점수" := Some("special"), "special" := Some("special"),
    "코멘트" := Some("comment"), "메모" := Some("comment"), "comment" := Some("comment")
  ]

  /** `s` without one trailing ASCII or full-width colon. */
  function DropColon(s: string): (r: string)
  {
    if s != [] && (s[|s| - 1] == ':' || s[|s| - 1] == '\U{ff1a}') then s[..|s| - 1] else s
  }

  /** `_compact`: stripped, one trailing colon dropped, spaces deleted, lower-cased. */
  function Compact(s: string): (r: string)
    ensures ' ' !in r
    ensures forall i :: 0 <= i < |r| ==> !('A' <= r[i] <= 'Z')
    ensures r != "Z" && r != "형태 질"
  {
    var spaced := DropColon(Strip(s));
    var r := Lower(RemoveChar(spaced, ' '));
    assert ' ' !in r by {
      forall i | 0 <= i < |r| ensures r[i] != ' ' {
        assert RemoveChar(spaced, ' ')[i] in RemoveChar(spaced, ' ');
      }
    }
    assert r != "Z" && r != "형태 질";
    r
  }

  /** The text of a header cell: `(c.value or '')`, then `str()`. */
  function HeaderText(c: Cell): string
  {
    if c.Null? || c == Str([]) || c == Num(0) then [] else Render(c)
  }

  /** `normalize_header`: the field a header names, or None for an unknown or ignored header. */
  function NormalizeHeader(h: string): (r: Option<string>)
  {
    var key := Compact(h);
    if key in HeaderAliases then HeaderAliases[key] else None
  }

  /** Headers that differ only in the case of their letters name the same field. */
  lemma HeaderIgnoresCase(a: string, b: string)
    requires Lower(a) == Lower(b)
    ensures NormalizeHeader(a) == NormalizeHeader(b)
  {
    CompactLower(a);
    CompactLower(b);
  }

  /** Compacting a lower-cased header gives what compacting the header gives. */
  lemma CompactLower(s: string)
    ensures Compact(Lower(s)) == Compact(s)
  {
    var t := Strip(s);
    StripLower(s);
    DropColonLower(t);
    var d := DropColon(t);
    RemoveSpaceLower(d);
    LowerIdempotent(RemoveChar(d, ' '));
  }

  /** A trimmed header that does not end in a colon names the same field with spaces and a colon after it. */
  lemma HeaderIgnoresTrailingColon(s: string, spaces: string, colon: char)
    requires s != [] && Strip(s) == s && DropColon(s) == s
    requires forall i :: 0 <= i < |spaces| ==> spaces[i] == ' '
    requires colon == ':' || colon == '\U{ff1a}'
    ensures NormalizeHeader(s + spaces + [colon]) == NormalizeHeader(s)
  {
    var t := s + spaces + [colon];
    assert t[0] == s[0] && t[|t| - 1] == colon;
    StripTrimmed(t);
    assert DropColon(t) == s + spaces;
    RemoveCharAppend(s, spaces, ' ');
    NoSpaceLeft(spaces);
    assert RemoveChar(s + spaces, ' ') == RemoveChar(s, ' ');
    assert Compact(t) == Compact(s);
  }

  lemma {:induction false} RemoveCharAppend(a: string, b: string, c: char)
    ensures RemoveChar(a + b, c) == RemoveChar(a, c) + RemoveChar(b, c)
  {
    if a != [] {
      RemoveCharAppend(a[1..], b, c);
      assert (a + b)[1..] == a[1..] + b;
    } else {
      assert a + b == b;
    }
  }

  lemma {:induction false} NoSpaceLeft(spaces: string)
    requires forall i :: 0 <= i < |spaces| ==> spaces[i] == ' '
    ensures RemoveChar(spaces, ' ') == []
  {
    if spaces != [] {
      NoSpaceLeft(spaces[1..]);
    }
  }

  lemma LowerWhitespace(c: char)
    ensures LowerChar(c) in Whitespace <==> c in Whitespace
  {
    if 'A' <= c <= 'Z' {
      assert 'a' <= LowerChar(c) <= 'z';
    }
  }

  lemma {:induction false} LStripLower(s: string)
    ensures LStrip(Lower(s)) == Lower(LStrip(s))
  {
    if s != [] {
      LowerWhitespace(s[0]);
      assert Lower(s)[1..] == Lower(s[1..]);
      if s[0] in Whitespace {
        LStripLower(s[1..]);
      }
    }
  }

  lemma {:induction false} RStripLower(s: string)
    ensures RStrip(Lower(s)) == Lower(RStrip(s))
  {
    if s != [] {
      var n := |s| - 1;
      LowerWhitespace(s[n]);
      LowerPrefix(s, n);
      if s[n] in Whitespace {
        RStripLower(s[..n]);
      }
    }
  }

  lemma LowerPrefix(s: string, n: nat)
    requires n <= |s|
    ensures Lower(s)[..n] == Lower(s[..n])
  {
  }

  lemma StripLower(s: string)
    ensures Strip(Lower(s)) == Lower(Strip(s))
  {
    LStripLower(s);
    RStripLower(LStrip(s));
  }

  lemma DropColonLower(t: string)
    ensures DropColon(Lower(t)) == Lower(DropColon(t))
  {
    if t != [] {
      LowerPrefix(t, |t| - 1);
    }
  }

  lemma {:induction false} RemoveSpaceLower(t: string)
    ensures RemoveChar(Lower(t), ' ') == Lower(RemoveChar(t, ' '))
  {
    if t != [] {
      RemoveSpaceLower(t[1..]);
      assert Lower(t)[1..] == Lower(t[1..]);
      assert Lower([t[0]]) == [LowerChar(t[0])];
      LowerAppend((if t[0] == ' ' then [] else [t[0]]), RemoveChar(t[1..], ' '));
    }
  }

  lemma LowerAppend(a: string, b: string)
    ensures Lower(a + b) == Lower(a) + Lower(b)
  {
  }

  lemma LowerIdempotent(s: string)
    ensures Lower(Lower(s)) == Lower(s)
  {
  }

  /** The field each header cell names. */
  function MappedHeaders(header: seq<Cell>): (r: seq<Option<string>>)
    ensures |r| == |header|
  {
    seq(|header|, i requires 0 <= i < |header| => NormalizeHeader(HeaderText(header[i])))
  }

  /**
   * `{f: idx for idx, f in enumerate(mapped) if f}`: each field named by a
   * header, with the position of the last column that names it.
   */
  function IndexByField(mapped: seq<Option<string>>): (r: map<string, nat>)
    ensures forall f :: f in r <==> f != [] && Some(f) in mapped
    ensures forall f :: f in r ==> r[f] < |mapped| && mapped[r[f]] == Some(f)
    ensures forall f, j :: f in r && r[f] < j < |mapped| ==> mapped[j] != Some(f)
  {
    if mapped == [] then map[]
    else
      var init := mapped[..|mapped| - 1];
      var last := mapped[|mapped| - 1];
      assert mapped == init + [last];
      var p := IndexByField(init);
      if last.Some? && last.value != [] then p[last.value := |mapped| - 1] else p
  }

  /** `[f for f in fields if f not in index]`. */
  function MissingFields(fields: seq<string>, index: map<string, nat>): (r: seq<string>)
    ensures forall f :: f in r <==> f in fields && f !in index
    ensures |r| <= |fields|
  {
    if fields == [] then []
    else (if fields[0] in index then [] else [fields[0]]) + MissingFields(fields[1..], index)
  }

  /** The value of column `idx` of a row, or `default` past the row's end. */
  function CellAt(row: seq<Cell>, idx: nat, default: Cell): Cell
  {
    if idx < |row| then row[idx] else default
  }

  // ---------------------------------------------------------------------------
  // casting and post-processing row data

  /** The keys cast to integers. */
  const IntKeys: seq<string> := ["response_num", "loc_num"]

  /** `data.get(key, '')`. */
  function Get(data: map<string, Cell>, key: string): Cell
  {
    if key in data then data[key] else Str([])
  }

  /** The label `to_roman` receives for a cell: `str` of it, and Python's None as None. */
  function CardLabel(v: Cell): Option<string>
  {
    if v.Null? then None else Some(Render(v))
  }

  /** `data['card'] = to_roman(data.get('card', ''))`: the row data once the card is rewritten. */
  function Carded(data: map<string, Cell>): map<string, Cell>
  {
    data["card" := Str(ToRoman(CardLabel(Get(data, "card"))))]
  }

  /** `str(v).strip()`: blank gives '', text `int(float(...))` reads gives that integer, anything else stays. */
  function CastIntCell(v: Cell): (r: Cell)
    ensures r == Str([]) <==> Strip(Render(v)) == []
    ensures r == v || r == Str([]) || r.Num?
  {
    var text := Strip(Render(v));
    if text == [] then Str([])
    else
      match FloatToInt(text)
      case Some(n) => Num(n)
      case None => v
  }

  /** The spelling of an integer has no blank edges. */
  lemma IntTextTrimmed(n: int)
    ensures Strip(IntText(n)) == IntText(n)
  {
    StripTrimmed(IntText(n));
  }

  /** A text starting with a sign or digit and ending with a digit or point has no blank edges. */
  lemma NumberTextTrimmed(s: string)
    requires s != [] && (s[0] == '-' || '0' <= s[0] <= '9')
    requires s[|s| - 1] == '.' || '0' <= s[|s| - 1] <= '9'
    ensures Strip(s) == s
  {
    assert s[0] !in Whitespace && s[|s| - 1] !in Whitespace;
    StripTrimmed(s);
  }

  /** An integer, its spelling, and its spelling with a fraction all cast to that integer. */
  lemma CastIntCellReads(n: int, fraction: string)
    requires Digits(fraction)
    ensures CastIntCell(Num(n)) == Num(n)
    ensures CastIntCell(Str(IntText(n))) == Num(n)
    ensures CastIntCell(Str(IntText(n) + "." + fraction)) == Num(n)
  {
    IntTextTrimmed(n);
    FloatToIntOfText(n);
    FloatToIntTruncates(n, fraction);
    var t := IntText(n) + "." + fraction;
    assert t[0] == IntText(n)[0];
    assert t[|t| - 1] == if fraction == [] then '.' else fraction[|fraction| - 1];
    NumberTextTrimmed(t);
  }

  /** Blank text casts to the empty string, and a cast value casts to itself. */
  lemma CastIntCellSettles(v: Cell)
    ensures Blank(v) && !v.Null? ==> CastIntCell(v) == Str([])
    ensures CastIntCell(CastIntCell(v)) == CastIntCell(v)
  {
    var c := CastIntCell(v);
    if c.Num? {
      CastIntCellReads(c.n, []);
    }
  }

  /** One integer key cast in place. */
  function CastStep(data: map<string, Cell>, key: string): map<string, Cell>
  {
    data[key := CastIntCell(Get(data, key))]
  }

  /** The keys cast one after another, in order. */
  function CastAll(data: map<string, Cell>, keys: seq<string>): map<string, Cell>
  {
    if keys == [] then data else CastStep(CastAll(data, keys[..|keys| - 1]), keys[|keys| - 1])
  }

  /** No key repeats. */
  predicate Distinct(keys: seq<string>)
  {
    forall i, j :: 0 <= i < j < |keys| ==> keys[i] != keys[j]
  }

  /** Casting distinct keys adds them and casts each one from its original value. */
  lemma {:induction false} CastAllAt(data: map<string, Cell>, keys: seq<string>)
    requires Distinct(keys)
    ensures CastAll(data, keys).Keys == data.Keys + set k | k in keys
    ensures forall k :: k in keys ==> CastAll(data, keys)[k] == CastIntCell(Get(data, k))
    ensures forall k :: k in data && k !in keys ==> CastAll(data, keys)[k] == data[k]
  {
    if keys != [] {
      var init := keys[..|keys| - 1];
      var last := keys[|keys| - 1];
      CastAllAt(data, init);
      assert last !in init;
      assert forall k :: k in keys <==> k in init || k == last;
    }
  }

  lemma IntKeySet()
    ensures (set k | k in IntKeys) == {"response_num", "loc_num"}
  {
    assert IntKeys[0] == "response_num" && IntKeys[1] == "loc_num";
  }

  lemma CastAllNext(data: map<string, Cell>, keys: seq<string>, i: nat)
    requires i < |keys|
    ensures CastAll(data, keys[..i + 1]) == CastStep(CastAll(data, keys[..i]), keys[i])
  {
    assert keys[..i + 1][..i] == keys[..i];
  }

  // ---------------------------------------------------------------------------
  // reading a data row

  /** Every required field has a column. */
  predicate Covers(index: map<string, nat>)
  {
    forall f :: f in RequiredFields ==> f in index
  }

  /** The row's data: each of the given fields read from its column and cleaned. */
  function ReadFields(row: seq<Cell>, index: map<string, nat>, fields: seq<string>, thinSpace: bool): map<string, Cell>
    requires forall f :: f in fields ==> f in index
  {
    if fields == [] then map[]
    else
      var f := fields[|fields| - 1];
      ReadFields(row, index, fields[..|fields| - 1], thinSpace)[f := NormalizeTextValue(CellAt(row, index[f], Str([])), thinSpace)]
  }

  /** Each field read holds its cleaned cell, and a missing cell reads as empty text. */
  lemma {:induction false} ReadFieldsAt(row: seq<Cell>, index: map<string, nat>, fields: seq<string>, thinSpace: bool)
    requires forall f :: f in fields ==> f in index
    ensures ReadFields(row, index, fields, thinSpace).Keys == set f | f in fields
    ensures forall f :: f in fields ==>
      ReadFields(row, index, fields, thinSpace)[f] == NormalizeTextValue(CellAt(row, index[f], Str([])), thinSpace)
  {
    if fields != [] {
      var init := fields[..|fields| - 1];
      ReadFieldsAt(row, index, init, thinSpace);
      assert forall f :: f in fields <==> f in init || f == fields[|fields| - 1];
    }
  }

  lemma ReadFieldsNext(row: seq<Cell>, index: map<string, nat>, fields: seq<string>, thinSpace: bool, i: nat)
    requires i < |fields| && forall f :: f in fields ==> f in index
    ensures ReadFields(row, index, fields[..i + 1], thinSpace)
      == ReadFields(row, index, fields[..i], thinSpace)[fields[i] := NormalizeTextValue(CellAt(row, index[fields[i]], Str([])), thinSpace)]
  {
    assert fields[..i + 1][..i] == fields[..i];
  }

  /** The loop over the required fields that builds a row's data. */
  method ReadRow(row: seq<Cell>, index: map<string, nat>, thinSpace: bool) returns (data: map<string, Cell>)
    requires Covers(index)
    ensures data == ReadFields(row, index, RequiredFields, thinSpace)
  {
    data := map[];
    var i := 0;
    while i < |RequiredFields|
      invariant 0 <= i <= |RequiredFields|
      invariant data == ReadFields(row, index, RequiredFields[..i], thinSpace)
    {
      var f := RequiredFields[i];
      var idx := index[f];
      var v := if idx < |row| then row[idx] else Str([]);
      data := data[f := NormalizeTextValue(v, thinSpace)];
      ReadFieldsNext(row, index, RequiredFields, thinSpace, i);
      i := i + 1;
    }
    assert RequiredFields[..i] == RequiredFields;
  }
}
