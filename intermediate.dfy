/**
 * The response-entry page for intermediate users: the clean-up applied to a
 * spreadsheet before it pre-fills the form set, the corrections applied when
 * the form set is saved, the Z-score advisory, the size of the form set, and
 * the check that every card has a response before the summary is exported.
 */
module IntermediateViews {
  import opened PyText
  import opened CardBase
  import opened Forms
  import opened UploadText

  /** The most responses a client can have, and the blank forms offered by default. */
  const TotalCap: nat := 100
  const DefaultExtra: nat := 40

  // ---------------------------------------------------------------------------
  // the m'p typo in determinants

  /** `\w` on ASCII text: letters, digits and the underscore. */
  predicate WordChar(c: char)
  {
    'a' <= c <= 'z' || 'A' <= c <= 'Z' || '0' <= c <= '9' || c == '_'
  }

  /** The apostrophes the typo may hold between m and p. */
  const Apostrophes: set<char> := {'\'', '\U{2019}', '`'}

  /** The spellings of the m that the substitution matches: either case, as written. */
  const TypoStartsAsWritten: set<char> := {'m', 'M'}

  /** The spellings of the m that the substitution evidently means: the inanimate m only. */
  const TypoStarts: set<char> := {'m'}

  /**
   * The length of a typo `m['’`]?p` at the start of `s` (the p in either
   * case, the m spelt as one of `starts`) that ends at a word boundary, or 0.
   */
  function TypoAt(s: string, starts: set<char>): (n: nat)
    ensures n == 0 || n == 2 || n == 3
    ensures n > 0 ==> n <= |s| && s[0] in starts && s[n - 1] in {'p', 'P'} && (n == |s| || !WordChar(s[n]))
  {
    if |s| >= 2 && s[0] in starts && s[1] in {'p', 'P'} && (|s| == 2 || !WordChar(s[2])) then 2
    else if |s| >= 3 && s[0] in starts && s[1] in Apostrophes && s[2] in {'p', 'P'}
            && (|s| == 3 || !WordChar(s[3])) then 3
    else 0
  }

  /**
   * `re.sub(r"\bm['’`]?p\b", "mp", s, flags=re.IGNORECASE)` scanning `s`
   * left to right; `afterWord` says whether the character before `s` is a
   * word character, so that no word boundary precedes `s`.
   */
  function FixFrom(s: string, afterWord: bool, starts: set<char>): (r: string)
    ensures |r| <= |s|
    decreases |s|
  {
    if s == [] then []
    else if !afterWord && TypoAt(s, starts) > 0 then "mp" + FixFrom(s[TypoAt(s, starts)..], true, starts)
    else [s[0]] + FixFrom(s[1..], WordChar(s[0]), starts)
  }

  /** The note reported for a row whose determinants were corrected. */
  const TypoNote: string := "결정인 m'p→mp"

  datatype Fixed = Fixed(text: string, notes: seq<string>)

  /** `_fix_determinant_typos`: the corrected determinants, and one note when they changed. */
  function FixDeterminantTypos(s: string, starts: set<char>): (r: Fixed)
    ensures s == [] ==> r == Fixed(s, [])
    ensures r.notes == [] <==> r.text == s
    ensures r.notes != [] ==> r.notes == [TypoNote]
  {
    if s == [] then Fixed(s, [])
    else
      var fixed := FixFrom(s, false, starts);
      Fixed(fixed, if fixed != s then [TypoNote] else [])
  }

  /** Scanning after a word character keeps the first character. */
  lemma FixAfterWord(s: string, starts: set<char>)
    requires s != []
    ensures FixFrom(s, true, starts) == [s[0]] + FixFrom(s[1..], WordChar(s[0]), starts)
  {
  }

  /**
   * After a character that starts no typo, the corrected text does not start
   * one either: the substitution never creates a match it would then rewrite.
   */
  lemma NoTypoCreated(s: string, starts: set<char>)
    requires s != [] && TypoAt(s, starts) == 0
    requires starts <= {'m', 'M'}
    ensures TypoAt([s[0]] + FixFrom(s[1..], WordChar(s[0]), starts), starts) == 0
  {
    var r := [s[0]] + FixFrom(s[1..], WordChar(s[0]), starts);
    if s[0] in starts && |s| >= 2 {
      var t := s[1..];
      FixAfterWord(t, starts);
      assert r[1] == s[1];
      if s[1] in {'p', 'P'} {
        assert |s| > 2 && WordChar(s[2]);
        FixAfterWord(t[1..], starts);
        assert r[2] == s[2];
      } else if s[1] in Apostrophes && |s| >= 3 {
        var u := s[2..];
        assert t[1..] == u;
        if u[0] in {'p', 'P'} {
          assert TypoAt(u, starts) == 0;
          if |s| > 3 {
            assert WordChar(s[3]);
            FixAfterWord(u[1..], starts);
            assert r[3] == s[3];
          }
        } else if TypoAt(u, starts) > 0 {
          assert r[2] == 'm';
        }
      }
    }
  }

  /** Correcting corrected determinants changes nothing. */
  lemma {:induction false} FixFromIdempotent(s: string, afterWord: bool, starts: set<char>)
    requires starts <= {'m', 'M'} && 'm' in starts
    ensures FixFrom(FixFrom(s, afterWord, starts), afterWord, starts) == FixFrom(s, afterWord, starts)
    decreases |s|
  {
    if s != [] {
      var n := TypoAt(s, starts);
      if !afterWord && n > 0 {
        var x := FixFrom(s[n..], true, starts);
        FixFromIdempotent(s[n..], true, starts);
        if s[n..] != [] {
          FixAfterWord(s[n..], starts);
        }
        var r := "mp" + x;
        assert r[0] == 'm' && r[1] == 'p';
        assert TypoAt(r, starts) == 2;
        assert r[2..] == x;
      } else {
        var x := FixFrom(s[1..], WordChar(s[0]), starts);
        FixFromIdempotent(s[1..], WordChar(s[0]), starts);
        var r := [s[0]] + x;
        if !afterWord {
          NoTypoCreated(s, starts);
        }
        assert r[1..] == x;
      }
    }
  }

  lemma FixDeterminantTyposIdempotent(s: string, starts: set<char>)
    requires starts <= {'m', 'M'} && 'm' in starts
    ensures FixDeterminantTypos(FixDeterminantTypos(s, starts).text, starts).text == FixDeterminantTypos(s, starts).text
  {
    FixFromIdempotent(s, false, starts);
  }

  /**
   * As written, the case-insensitive match also rewrites the human-movement
   * code Mp, which the form accepts and keeps apart from the inanimate mp.
   */
  lemma HumanMovementRewritten()
    ensures FixDeterminantTypos("Mp", TypoStartsAsWritten).text == "mp"
    ensures ValidateDeterminants("Mp").Accept? && "Mp" in CaseKept
  {
    MpRewritten();
    MpAccepted();
  }

  lemma MpRewritten()
    ensures FixDeterminantTypos("Mp", TypoStartsAsWritten).text == "mp"
  {
    assert TypoAt("Mp", TypoStartsAsWritten) == 2;
    assert FixFrom("Mp"[2..], true, TypoStartsAsWritten) == [];
  }

  /** The form reads Mp as one code. */
  lemma MpOnePiece()
    ensures CodePieces("Mp") == ["Mp"]
  {
    assert RemoveChar("Mp", ' ') == "Mp";
    assert Avoids("Mp", CodeSeparators);
    SplitRunsWhole("Mp", CodeSeparators);
    StripTrimmed("Mp");
  }

  /** The form accepts Mp as a determinant of its own. */
  lemma MpAccepted()
    ensures ValidateDeterminants("Mp").Accept? && "Mp" in CaseKept
  {
    MpOnePiece();
    assert FoldedDeterminants("Mp") == ["Mp"];
  }

  /** Capital Ms of a concatenation. */
  lemma CapitalsAppend(a: string, b: string)
    ensures multiset(a + b)['M'] == multiset(a)['M'] + multiset(b)['M']
  {
  }

  /** A typo matched with the lower-case m holds no capital M. */
  lemma TypoHoldsNoM(s: string)
    requires TypoAt(s, TypoStarts) > 0
    ensures multiset(s[..TypoAt(s, TypoStarts)])['M'] == 0
  {
    var n := TypoAt(s, TypoStarts);
    assert s[0] == 'm';
    assert forall i :: 0 <= i < n ==> s[..n][i] != 'M';
    assert 'M' !in multiset(s[..n]);
  }

  /** A typo at a word boundary is rewritten to mp. */
  lemma TypoRewritten(s: string, starts: set<char>)
    requires TypoAt(s, starts) > 0
    ensures FixFrom(s, false, starts) == "mp" + FixFrom(s[TypoAt(s, starts)..], true, starts)
  {
  }

  /** Rewriting a typo to mp keeps the capital Ms the rest keeps. */
  lemma TypoStepKeepsM(s: string)
    requires TypoAt(s, TypoStarts) > 0
    requires multiset(FixFrom(s[TypoAt(s, TypoStarts)..], true, TypoStarts))['M'] == multiset(s[TypoAt(s, TypoStarts)..])['M']
    ensures multiset(FixFrom(s, false, TypoStarts))['M'] == multiset(s)['M']
  {
    var n := TypoAt(s, TypoStarts);
    TypoRewritten(s, TypoStarts);
    TypoHoldsNoM(s);
    SpliceKeepsM(s, n, FixFrom(s[n..], true, TypoStarts));
  }

  /** Replacing a prefix without capital Ms by mp, and the rest by text with as many, keeps the count. */
  lemma SpliceKeepsM(s: string, n: nat, x: string)
    requires n <= |s| && multiset(s[..n])['M'] == 0 && multiset(x)['M'] == multiset(s[n..])['M']
    ensures multiset("mp" + x)['M'] == multiset(s)['M']
  {
    CapitalsAppend("mp", x);
    assert multiset("mp")['M'] == 0;
    CapitalsAppend(s[..n], s[n..]);
    assert s[..n] + s[n..] == s;
  }

  /** Copying the first character keeps the capital Ms the rest keeps. */
  lemma CopyStepKeepsM(s: string, afterWord: bool)
    requires s != [] && (afterWord || TypoAt(s, TypoStarts) == 0)
    requires multiset(FixFrom(s[1..], WordChar(s[0]), TypoStarts))['M'] == multiset(s[1..])['M']
    ensures multiset(FixFrom(s, afterWord, TypoStarts))['M'] == multiset(s)['M']
  {
    CapitalsAppend([s[0]], FixFrom(s[1..], WordChar(s[0]), TypoStarts));
    CapitalsAppend([s[0]], s[1..]);
    assert [s[0]] + s[1..] == s;
  }

  /** Matching only the lower-case m, the correction keeps every human-movement M. */
  lemma {:induction false} HumanMovementKept(s: string, afterWord: bool)
    ensures multiset(FixFrom(s, afterWord, TypoStarts))['M'] == multiset(s)['M']
    decreases |s|
  {
    if s != [] {
      if !afterWord && TypoAt(s, TypoStarts) > 0 {
        HumanMovementKept(s[TypoAt(s, TypoStarts)..], true);
        TypoStepKeepsM(s);
      } else {
        HumanMovementKept(s[1..], WordChar(s[0]));
        CopyStepKeepsM(s, afterWord);
      }
    }
  }

  // ---------------------------------------------------------------------------
  // special scores

  /** `[,\s;+/]`: the separators of special-score tokens. */
  const TokenSeparators: set<char> := Whitespace + {',', ';', '+', '/'}

  /** Every string upper-cased. */
  function UpperEach(parts: seq<string>): (r: seq<string>)
    ensures |r| == |parts|
    ensures forall k :: 0 <= k < |parts| ==> r[k] == Upper(parts[k])
  {
    if parts == [] then [] else [Upper(parts[0])] + UpperEach(parts[1..])
  }

  /** The special-score tokens of `s`: split on separator runs, stripped, non-empty, upper-cased, first occurrences. */
  function SpecialTokens(s: string): seq<string>
  {
    Dedupe(UpperEach(NonEmpty(StripEach(SplitRuns(Strip(s), TokenSeparators)))))
  }

  /** `_normalize_special_tokens`: empty input is kept, otherwise the tokens joined by ", ". */
  function NormalizeSpecialTokens(s: string): (r: string)
  {
    if s == [] then s else Join(SpecialTokens(s), ", ")
  }

  /** A token list as the normaliser leaves it: non-empty tokens without separators or lower-case letters, no repeats. */
  predicate SettledTokens(ts: seq<string>)
  {
    (forall k :: 0 <= k < |ts| ==>
      ts[k] != [] && Avoids(ts[k], TokenSeparators) && forall i :: 0 <= i < |ts[k]| ==> !('a' <= ts[k][i] <= 'z'))
    && (forall i, j :: 0 <= i < j < |ts| ==> ts[i] != ts[j])
  }

  /** Upper-casing a character that is no separator gives no separator and no lower-case letter. */
  lemma UpperCharAvoids(c: char)
    requires c !in TokenSeparators
    ensures UpperChar(c) !in TokenSeparators && !('a' <= UpperChar(c) <= 'z')
  {
    if 'a' <= c <= 'z' {
      assert 'A' <= UpperChar(c) <= 'Z';
    }
  }

  /** Upper-casing keeps a piece free of separators. */
  lemma UpperAvoids(t: string)
    requires Avoids(t, TokenSeparators)
    ensures Avoids(Upper(t), TokenSeparators)
    ensures forall i :: 0 <= i < |Upper(t)| ==> !('a' <= Upper(t)[i] <= 'z')
  {
    forall i | 0 <= i < |t|
      ensures Upper(t)[i] !in TokenSeparators && !('a' <= Upper(t)[i] <= 'z')
    {
      UpperCharAvoids(t[i]);
    }
  }

  lemma SpecialTokensSettled(s: string)
    ensures SettledTokens(SpecialTokens(s))
  {
    var pieces := SplitRuns(Strip(s), TokenSeparators);
    SplitRunsPieces(Strip(s), TokenSeparators);
    var stripped := StripEach(pieces);
    forall k | 0 <= k < |pieces| ensures stripped[k] == pieces[k] {
      PieceTrimmed(pieces[k]);
    }
    var kept := NonEmpty(stripped);
    var upper := UpperEach(kept);
    forall k | 0 <= k < |upper|
      ensures upper[k] != [] && Avoids(upper[k], TokenSeparators)
      ensures forall i :: 0 <= i < |upper[k]| ==> !('a' <= upper[k][i] <= 'z')
    {
      assert kept[k] in stripped;
      var j :| 0 <= j < |stripped| && stripped[j] == kept[k];
      UpperAvoids(kept[k]);
    }
    var d := Dedupe(upper);
    forall k | 0 <= k < |d|
      ensures d[k] != [] && Avoids(d[k], TokenSeparators)
      ensures forall i :: 0 <= i < |d[k]| ==> !('a' <= d[k][i] <= 'z')
    {
      assert d[k] in upper;
    }
  }

  /** A piece without separators is already stripped. */
  lemma PieceTrimmed(t: string)
    requires Avoids(t, TokenSeparators)
    ensures Strip(t) == t
  {
    StripTrimmed(t);
  }

  /** Normalising normalised special scores changes nothing. */
  lemma NormalizeSpecialTokensIdempotent(s: string)
    ensures NormalizeSpecialTokens(NormalizeSpecialTokens(s)) == NormalizeSpecialTokens(s)
  {
    if s != [] {
      var ts := SpecialTokens(s);
      SpecialTokensSettled(s);
      if ts != [] {
        SettledTokensFixed(ts);
      }
    }
  }

  /** Settled tokens joined by ", " are their own special tokens. */
  lemma SettledTokensFixed(ts: seq<string>)
    requires ts != [] && SettledTokens(ts)
    ensures Join(ts, ", ") != [] && SpecialTokens(Join(ts, ", ")) == ts
  {
    SettledJoinSplits(ts);
    SettledTokensKept(ts);
  }

  /** A join of settled tokens is already stripped, and splits back into the tokens. */
  lemma SettledJoinSplits(ts: seq<string>)
    requires ts != [] && SettledTokens(ts)
    ensures var joined := Join(ts, ", ");
      joined != [] && Strip(joined) == joined && SplitRuns(joined, TokenSeparators) == ts
  {
    var joined := Join(ts, ", ");
    JoinStarts(ts, ", ");
    JoinEnds(ts, ", ");
    StripTrimmed(joined);
    SplitRunsJoin(ts, ", ", TokenSeparators);
  }

  /** Stripping, dropping empties, upper-casing and de-duplicating leave settled tokens alone. */
  lemma SettledTokensKept(ts: seq<string>)
    requires SettledTokens(ts)
    ensures Dedupe(UpperEach(NonEmpty(StripEach(ts)))) == ts
  {
    forall k | 0 <= k < |ts| ensures Strip(ts[k]) == ts[k] && Upper(ts[k]) == ts[k] {
      PieceTrimmed(ts[k]);
      UpperFixed(ts[k]);
    }
    assert StripEach(ts) == ts;
    NonEmptyKeeps(ts);
    assert UpperEach(ts) == ts;
    DedupeDistinct(ts);
  }

  /** The last character of a join is the last character of the last part. */
  lemma {:induction false} JoinEnds(parts: seq<string>, sep: string)
    requires |parts| >= 1 && parts[|parts| - 1] != []
    ensures Join(parts, sep) != [] && Join(parts, sep)[|Join(parts, sep)| - 1] == parts[|parts| - 1][|parts[|parts| - 1]| - 1]
  {
    if |parts| > 1 {
      JoinEnds(parts[1..], sep);
    }
  }

  // ---------------------------------------------------------------------------
  // looking for a token

  /** `token` occurs in `s` at `i`, in any case, with a separator or the edge of `s` on both sides. */
  predicate TokenAt(s: string, token: string, i: nat)
  {
    i + |token| <= |s| && Lower(s[i..i + |token|]) == Lower(token)
    && (i == 0 || s[i - 1] in TokenSeparators)
    && (i + |token| == |s| || s[i + |token|] in TokenSeparators)
  }

  /** Some position at or after `i` holds the token. */
  function TokenFrom(s: string, token: string, i: nat): (r: bool)
    requires i <= |s|
    ensures r <==> exists j :: i <= j <= |s| && TokenAt(s, token, j)
    decreases |s| - i
  {
    if TokenAt(s, token, i) then true
    else if i == |s| then false
    else TokenFrom(s, token, i + 1)
  }

  /** `_detect_token`: `re.search` for the token between separators or the ends of `s`, ignoring case; false for empty `s`. */
  function DetectToken(s: string, token: string): (r: bool)
    ensures r <==> s != [] && exists j :: 0 <= j <= |s| && TokenAt(s, token, j)
  {
    s != [] && TokenFrom(s, token, 0)
  }

  /** Every token of a ", "-joined list of separator-free tokens is detected in it. */
  lemma DetectJoined(parts: seq<string>, k: nat)
    requires k < |parts|
    requires forall m :: 0 <= m < |parts| ==> parts[m] != [] && Avoids(parts[m], TokenSeparators)
    ensures DetectToken(Join(parts, ", "), parts[k])
  {
    var j := JoinAt(parts, k, ", ");
    var s := Join(parts, ", ");
    assert TokenAt(s, parts[k], j);
  }

  /** Where the `k`-th part sits in a join: bordered by the separator or the ends. */
  lemma {:induction false} JoinAt(parts: seq<string>, k: nat, sep: string) returns (j: nat)
    requires k < |parts| && sep != []
    ensures var s := Join(parts, sep);
      j + |parts[k]| <= |s| && s[j..j + |parts[k]|] == parts[k]
      && (j == 0 || s[j - 1] == sep[|sep| - 1])
      && (j + |parts[k]| == |s| || s[j + |parts[k]|] == sep[0])
  {
    var s := Join(parts, sep);
    if |parts| == 1 {
      j := 0;
    } else if k == 0 {
      j := 0;
      assert s == parts[0] + sep + Join(parts[1..], sep);
      assert s[..|parts[0]|] == parts[0];
    } else {
      var rest := Join(parts[1..], sep);
      var j' := JoinAt(parts[1..], k - 1, sep);
      var head := parts[0] + sep;
      assert s == head + rest;
      j := |head| + j';
      WindowAfter(head, rest, j', |parts[k]|);
      if j' == 0 {
        assert s[j - 1] == head[|head| - 1];
      }
    }
  }

  /** A window of `b` seen inside `a + b`, with its neighbours. */
  lemma WindowAfter(a: string, b: string, i: nat, len: nat)
    requires i + len <= |b|
    ensures (a + b)[|a| + i..|a| + i + len] == b[i..i + len]
    ensures i > 0 ==> (a + b)[|a| + i - 1] == b[i - 1]
    ensures i + len < |b| ==> (a + b)[|a| + i + len] == b[i + len]
  {
  }

  // ---------------------------------------------------------------------------
  // post-processing a row

  /** The keys whose text is cleaned again. */
  const TextKeys: seq<string> :=
    ["dev_qual", "determinants", "form_qual", "pair", "content", "popular", "Z", "special", "location", "rotation", "time"]

  /** One text key cleaned in place, when present. */
  function CleanStep(data: map<string, Cell>, key: string): map<string, Cell>
  {
    if key in data then data[key := NormalizeTextValue(data[key], false)] else data
  }

  function CleanAll(data: map<string, Cell>, keys: seq<string>): map<string, Cell>
  {
    if keys == [] then data else CleanStep(CleanAll(data, keys[..|keys| - 1]), keys[|keys| - 1])
  }

  /** Cleaning distinct keys cleans each present one and leaves the keys alone. */
  lemma {:induction false} CleanAllAt(data: map<string, Cell>, keys: seq<string>)
    requires Distinct(keys)
    ensures CleanAll(data, keys).Keys == data.Keys
    ensures forall k :: k in keys && k in data ==> CleanAll(data, keys)[k] == NormalizeTextValue(data[k], false)
    ensures forall k :: k in data && k !in keys ==> CleanAll(data, keys)[k] == data[k]
  {
    if keys != [] {
      var init := keys[..|keys| - 1];
      var last := keys[|keys| - 1];
      CleanAllAt(data, init);
      assert last !in init;
      assert forall k :: k in keys <==> k in init || k == last;
    }
  }

  /** The key lists hold no repeats, and no key is in two of them. */
  lemma KeyListsApart()
    ensures Distinct(IntKeys) && Distinct(TextKeys)
    ensures "card" !in IntKeys && "card" !in TextKeys
    ensures forall k :: k in IntKeys ==> k !in TextKeys
  {
    assert Distinct(IntKeys);
    assert Distinct(TextKeys);
  }

  /** `_apply_row_postprocess` on a row's data. */
  function Postprocessed(data: map<string, Cell>): map<string, Cell>
  {
    CleanAll(CastAll(Carded(data), IntKeys), TextKeys)
  }

  /** What post-processing does to each key: the parts below, put together for one key at a time. */
  lemma PostprocessedSteps(data: map<string, Cell>)
    ensures Postprocessed(data) == CleanAll(CastAll(Carded(data), IntKeys), TextKeys)
    ensures Distinct(IntKeys) && Distinct(TextKeys)
    ensures CastAll(Carded(data), IntKeys).Keys == data.Keys + {"card", "response_num", "loc_num"}
  {
    KeyListsApart();
    CastAllAt(Carded(data), IntKeys);
    IntKeySet();
  }

  /** Post-processing adds the card and number keys and no other. */
  lemma PostprocessedKeys(data: map<string, Cell>)
    ensures Postprocessed(data).Keys == data.Keys + {"card", "response_num", "loc_num"}
  {
    PostprocessedSteps(data);
    CleanAllAt(CastAll(Carded(data), IntKeys), TextKeys);
  }

  /** The card becomes the numeral `to_roman` gives. */
  lemma PostprocessedCard(data: map<string, Cell>)
    ensures "card" in Postprocessed(data)
    ensures Postprocessed(data)["card"] == Str(ToRoman(CardLabel(Get(data, "card"))))
  {
    PostprocessedKeys(data);
    PostprocessedSteps(data);
    KeyListsApart();
    CastAllAt(Carded(data), IntKeys);
    CleanAllAt(CastAll(Carded(data), IntKeys), TextKeys);
  }

  /** Each number key holds its cast value. */
  lemma PostprocessedNumber(data: map<string, Cell>, k: string)
    requires k in IntKeys
    ensures k in Postprocessed(data) && Postprocessed(data)[k] == CastIntCell(Get(data, k))
  {
    PostprocessedKeys(data);
    PostprocessedSteps(data);
    KeyListsApart();
    CastAllAt(Carded(data), IntKeys);
    CleanAllAt(CastAll(Carded(data), IntKeys), TextKeys);
    assert Get(Carded(data), k) == Get(data, k);
  }

  /** Each text key present is cleaned. */
  lemma PostprocessedText(data: map<string, Cell>, k: string)
    requires k in TextKeys && k in data
    ensures k in Postprocessed(data) && Postprocessed(data)[k] == NormalizeTextValue(data[k], false)
  {
    PostprocessedKeys(data);
    PostprocessedSteps(data);
    KeyListsApart();
    CastAllAt(Carded(data), IntKeys);
    CleanAllAt(CastAll(Carded(data), IntKeys), TextKeys);
  }

  /** Every other key keeps its value. */
  lemma PostprocessedOther(data: map<string, Cell>, k: string)
    requires k in data && k !in TextKeys && k !in IntKeys && k != "card"
    ensures k in Postprocessed(data) && Postprocessed(data)[k] == data[k]
  {
    PostprocessedKeys(data);
    PostprocessedSteps(data);
    CastAllAt(Carded(data), IntKeys);
    CleanAllAt(CastAll(Carded(data), IntKeys), TextKeys);
  }

  /** Post-processing a post-processed row changes nothing. */
  lemma PostprocessIdempotent(data: map<string, Cell>)
    ensures Postprocessed(Postprocessed(data)) == Postprocessed(data)
  {
    var r := Postprocessed(data);
    var rr := Postprocessed(r);
    PostprocessedKeys(data);
    PostprocessedKeys(r);
    forall k | k in r ensures rr[k] == r[k] {
      if k == "card" {
        PostprocessedCard(data);
        PostprocessedCard(r);
        ToRomanIdempotent(CardLabel(Get(data, "card")));
      } else if k in IntKeys {
        PostprocessedNumber(data, k);
        PostprocessedNumber(r, k);
        CastIntCellSettles(Get(data, k));
      } else if k in TextKeys {
        KeyListsApart();
        assert k in data;
        PostprocessedText(r, k);
        PostprocessedText(data, k);
        NormalizeTextValueIdempotent(data[k], false);
      } else {
        PostprocessedOther(r, k);
      }
    }
    assert rr.Keys == r.Keys;
  }

  lemma CleanAllNext(data: map<string, Cell>, keys: seq<string>, i: nat)
    requires i < |keys|
    ensures CleanAll(data, keys[..i + 1]) == CleanStep(CleanAll(data, keys[..i]), keys[i])
  {
    assert keys[..i + 1][..i] == keys[..i];
  }

  /** `_apply_row_postprocess`, updating the row's data key by key. */
  method PostprocessRow(data: map<string, Cell>) returns (r: map<string, Cell>)
    ensures r == Postprocessed(data)
  {
    r := data["card" := Str(ToRoman(CardLabel(Get(data, "card"))))];
    r := CastNumberKeys(r);
    r := CleanTextKeys(r);
  }

  /** The loop over the number keys: blank becomes '', a number its integer, other text stays. */
  method CastNumberKeys(data: map<string, Cell>) returns (r: map<string, Cell>)
    ensures r == CastAll(data, IntKeys)
  {
    r := data;
    var i := 0;
    while i < |IntKeys|
      invariant 0 <= i <= |IntKeys|
      invariant r == CastAll(data, IntKeys[..i])
    {
      var key := IntKeys[i];
      ghost var before := r;
      var text := Strip(Render(Get(r, key)));
      if text == [] {
        r := r[key := Str([])];
      } else {
        var n := FloatToInt(text);
        if n.Some? {
          r := r[key := Num(n.value)];
        }
      }
      assert r == CastStep(before, key);
      CastAllNext(data, IntKeys, i);
      i := i + 1;
    }
    assert IntKeys[..i] == IntKeys;
  }

  /** The loop over the text keys: each one present is cleaned. */
  method CleanTextKeys(data: map<string, Cell>) returns (r: map<string, Cell>)
    ensures r == CleanAll(data, TextKeys)
  {
    r := data;
    var i := 0;
    while i < |TextKeys|
      invariant 0 <= i <= |TextKeys|
      invariant r == CleanAll(data, TextKeys[..i])
    {
      var key := TextKeys[i];
      if key in r {
        r := r[key := NormalizeTextValue(r[key], false)];
      }
      CleanAllNext(data, TextKeys, i);
      i := i + 1;
    }
    assert TextKeys[..i] == TextKeys;
  }

  // ---------------------------------------------------------------------------
  // the size of the form set

  /** `_make_formset_factory`: the requested blank forms, kept within 0..100. */
  function SafeExtra(extra: int): (r: nat)
    ensures r <= TotalCap
    ensures 0 <= extra <= TotalCap ==> r == extra
    ensures extra < 0 ==> r == 0
    ensures extra > TotalCap ==> r == TotalCap
  {
    if extra < 0 then 0 else if extra > TotalCap then TotalCap else extra
  }

  /**
   * `_make_dynamic_formset_for_initial`: the blank forms offered after a
   * pre-filled preview, at most 40 and never past 100 rows in all.
   */
  function PreviewExtra(initialLen: int): (r: nat)
    ensures r <= DefaultExtra
    ensures 0 <= initialLen <= TotalCap ==> initialLen + r <= TotalCap
    ensures initialLen <= TotalCap - DefaultExtra ==> r == DefaultExtra
    ensures initialLen >= TotalCap ==> r == 0
  {
    var remain := if TotalCap - initialLen > 0 then TotalCap - initialLen else 0;
    SafeExtra(if DefaultExtra < remain then DefaultExtra else remain)
  }

  /** The form count after "add a row": one more, up to 100. */
  function AddItemsTotal(total: int): (r: int)
    ensures r <= TotalCap
    ensures total < TotalCap ==> r == total + 1
    ensures total >= TotalCap ==> r == TotalCap
  {
    if total + 1 < TotalCap then total + 1 else TotalCap
  }

  // ---------------------------------------------------------------------------
  // the spreadsheet preview

  /** The row's required cells are all null or blank, so the preview skips it. */
  predicate RequiredBlank(row: seq<Cell>, index: map<string, nat>)
    requires Covers(index)
  {
    forall f :: f in RequiredFields ==> Blank(CellAt(row, index[f], Null))
  }

  /** The rows the preview keeps, in sheet order. */
  function KeptRows(rows: seq<seq<Cell>>, index: map<string, nat>): (r: seq<seq<Cell>>)
    requires Covers(index)
    ensures |r| <= |rows|
    ensures forall x :: x in r ==> x in rows && !RequiredBlank(x, index)
    ensures forall x :: x in rows && !RequiredBlank(x, index) ==> x in r
  {
    if rows == [] then []
    else
      var init := rows[..|rows| - 1];
      var last := rows[|rows| - 1];
      assert rows == init + [last];
      var kept := KeptRows(init, index);
      if RequiredBlank(last, index) then kept else kept + [last]
  }

  /** A row ready for the form set, and whether its determinants were corrected. */
  datatype RowFix = RowFix(data: map<string, Cell>, fixed: bool)

  /** A cell holding a number other than 0, which Python treats as true. */
  predicate NonZeroNumber(c: Cell)
  {
    c.Num? && c.n != 0
  }

  /**
   * The corrections raise on the row: the typo fix hands a true number in the
   * determinants to `re.sub`, or the special scores call `.strip()` on one.
   * A 0 or an empty cell is false and passed over.
   */
  predicate CorrectionRaises(data: map<string, Cell>)
  {
    NonZeroNumber(Get(data, "determinants")) || NonZeroNumber(Get(data, "special"))
  }

  /**
   * The corrections after post-processing: the determinant typos, then the
   * special scores when there are any; None when they raise.
   */
  function Corrected(data: map<string, Cell>): (r: Option<RowFix>)
    ensures r.None? <==> CorrectionRaises(data)
    ensures r.Some? ==> r.value.data.Keys == data.Keys
  {
    if CorrectionRaises(data) then None
    else
    var det := Get(data, "determinants");
    var fix := if det.Str? then FixDeterminantTypos(det.s, TypoStartsAsWritten) else Fixed([], []);
    var withDet := if det.Str? && fix.text != det.s then data["determinants" := Str(fix.text)] else data;
    var special := Get(withDet, "special");
    var withSpecial :=
      if special.Str? && special.s != [] then withDet["special" := Str(NormalizeSpecialTokens(special.s))] else withDet;
    Some(RowFix(withSpecial, fix.notes != []))
  }

  /** One kept row as the preview pre-fills it, or None when its corrections raise. */
  function PreviewRow(row: seq<Cell>, index: map<string, nat>): Option<RowFix>
    requires Covers(index)
  {
    Corrected(Postprocessed(ReadFields(row, index, RequiredFields, false)))
  }

  /**
   * The corrections raise exactly on a true number in the determinants or
   * special scores; otherwise the corrected row holds no typo the correction
   * would rewrite, and its special scores are normalised.
   */
  lemma CorrectedSettled(data: map<string, Cell>)
    ensures Corrected(data).None? <==> CorrectionRaises(data)
    ensures Corrected(data).Some? ==> var r := Corrected(data).value.data;
      (Get(r, "determinants").Str? ==>
        FixDeterminantTypos(Get(r, "determinants").s, TypoStartsAsWritten).text == Get(r, "determinants").s)
      && (Get(r, "special").Str? && Get(r, "special").s != [] ==>
        NormalizeSpecialTokens(Get(r, "special").s) == Get(r, "special").s)
      && Corrected(data).value.fixed == (Get(data, "determinants") != Get(r, "determinants"))
  {
    var det := Get(data, "determinants");
    if det.Str? {
      FixDeterminantTyposIdempotent(det.s, TypoStartsAsWritten);
    }
    var special := Get(data, "special");
    var withDet := if det.Str? && FixDeterminantTypos(det.s, TypoStartsAsWritten).text != det.s
      then data["determinants" := Str(FixDeterminantTypos(det.s, TypoStartsAsWritten).text)] else data;
    assert Get(withDet, "special") == special;
    if special.Str? && special.s != [] {
      NormalizeSpecialTokensIdempotent(special.s);
    }
  }

  /** The pre-filled rows, and the sheet-style numbers (from 2) of the rows whose determinants were corrected. */
  datatype Loading = Loading(initial: seq<map<string, Cell>>, fixedRows: seq<int>)

  /**
   * `rows` numbers, in ascending order and from `base`, exactly the positions
   * whose flag is set.
   */
  predicate Numbered(rows: seq<int>, flags: seq<bool>, base: int)
  {
    (forall n :: n in rows ==> base <= n < |flags| + base)
    && (forall i, j :: 0 <= i < j < |rows| ==> rows[i] < rows[j])
    && (forall i :: 0 <= i < |flags| ==> (i + base in rows <==> flags[i]))
  }

  /** The numbers, from `base`, of the flagged positions, gathered as a loop appends them. */
  function Marks(flags: seq<bool>, base: int): (r: seq<int>)
    ensures Numbered(r, flags, base)
  {
    if flags == [] then []
    else
      var n := |flags| - 1;
      var prev := Marks(flags[..n], base);
      assert forall i :: 0 <= i < n ==> flags[..n][i] == flags[i];
      assert forall k :: 0 <= k < |prev| ==> prev[k] in prev;
      SnocMembers(prev, n + base, flags[n]);
      if flags[n] then prev + [n + base] else prev
  }

  /** Appending a number above all the others, or not, leaves the membership of the others alone. */
  lemma SnocMembers(prev: seq<int>, last: int, add: bool)
    requires forall x :: x in prev ==> x < last
    ensures forall x :: x != last ==> (x in (if add then prev + [last] else prev) <==> x in prev)
    ensures last in (if add then prev + [last] else prev) <==> add
  {
  }

  /** The loaded rows gathered in order from their corrections. */
  function LoadRows(fixes: seq<RowFix>): (r: Loading)
    ensures |r.initial| == |fixes|
    ensures forall i :: 0 <= i < |fixes| ==> r.initial[i] == fixes[i].data
  {
    if fixes == [] then Loading([], [])
    else
      var n := |fixes| - 1;
      var init := LoadRows(fixes[..n]);
      assert forall i :: 0 <= i < n ==> fixes[..n][i] == fixes[i];
      Loading(init.initial + [fixes[n].data], if fixes[n].fixed then init.fixedRows + [n + 2] else init.fixedRows)
  }

  /** Which rows were corrected. */
  function FixFlags(fixes: seq<RowFix>): (r: seq<bool>)
    ensures |r| == |fixes|
  {
    seq(|fixes|, i requires 0 <= i < |fixes| => fixes[i].fixed)
  }

  /** The noted rows are exactly the corrected ones, numbered from 2 as the sheet numbers them, in order. */
  lemma {:induction false} LoadRowsNumbered(fixes: seq<RowFix>)
    ensures LoadRows(fixes).fixedRows == Marks(FixFlags(fixes), 2)
    ensures Numbered(LoadRows(fixes).fixedRows, FixFlags(fixes), 2)
  {
    if fixes != [] {
      var n := |fixes| - 1;
      LoadRowsNumbered(fixes[..n]);
      assert FixFlags(fixes)[..n] == FixFlags(fixes[..n]);
    }
  }

  /** Every kept row as the preview pre-fills it. */
  function PreviewRows(kept: seq<seq<Cell>>, index: map<string, nat>): (r: seq<Option<RowFix>>)
    requires Covers(index)
    ensures |r| == |kept|
  {
    seq(|kept|, i requires 0 <= i < |kept| => PreviewRow(kept[i], index))
  }

  /** No row's corrections raised. */
  predicate AllCorrected(fixes: seq<Option<RowFix>>)
  {
    forall i :: 0 <= i < |fixes| ==> fixes[i].Some?
  }

  /** The corrected rows, when none raised. */
  function Fixes(fixes: seq<Option<RowFix>>): (r: seq<RowFix>)
    requires AllCorrected(fixes)
    ensures |r| == |fixes| && forall i :: 0 <= i < |fixes| ==> fixes[i] == Some(r[i])
  {
    seq(|fixes|, i requires 0 <= i < |fixes| => fixes[i].value)
  }

  /**
   * A kept row's corrections raise exactly when the sheet holds a true number
   * in its determinants or special column: reading and post-processing keep
   * numbers as they are.
   */
  lemma PreviewRowRaises(row: seq<Cell>, index: map<string, nat>)
    requires Covers(index)
    ensures PreviewRow(row, index).None? <==>
      NonZeroNumber(CellAt(row, index["determinants"], Str([]))) || NonZeroNumber(CellAt(row, index["special"], Str([])))
  {
    var data := ReadFields(row, index, RequiredFields, false);
    ReadFieldsAt(row, index, RequiredFields, false);
    assert "determinants" in RequiredFields && "special" in RequiredFields;
    assert "determinants" in TextKeys && "special" in TextKeys;
    PostprocessedText(data, "determinants");
    PostprocessedText(data, "special");
    CorrectedSettled(Postprocessed(data));
  }

  /**
   * What the preview shows: the required columns the sheet lacks, or the
   * pre-filled form set; `Raised` is a request that fails in the correction
   * loop, which no `except` covers.
   */
  datatype PreviewOutcome =
    | MissingColumns(missing: seq<string>)
    | Loaded(initial: seq<map<string, Cell>>, fixedRows: seq<int>, capped: bool, extra: nat)
    | Raised

  function PreviewIndex(header: seq<Cell>): map<string, nat>
  {
    IndexByField(MappedHeaders(header))
  }

  /** The upload branch of the intermediate page, from the first row of the sheet and the rows below it. */
  function PreviewOf(header: seq<Cell>, rows: seq<seq<Cell>>): PreviewOutcome
  {
    var index := PreviewIndex(header);
    var missing := MissingFields(RequiredFields, index);
    if missing != [] then MissingColumns(missing)
    else
      LoadedPreview(PreviewRows(KeptRows(rows, index), index))
  }

  /** The preview of the corrected rows: a failure if one raised, else the first 100 rows and the noted ones. */
  function LoadedPreview(fixes: seq<Option<RowFix>>): PreviewOutcome
  {
    if !AllCorrected(fixes) then Raised
    else
      var loading := LoadRows(Fixes(fixes));
      var capped := |loading.initial| > TotalCap;
      var initial := if capped then loading.initial[..TotalCap] else loading.initial;
      Loaded(initial, loading.fixedRows, capped, PreviewExtra(|initial|))
  }

  lemma KeptRowsNext(rows: seq<seq<Cell>>, index: map<string, nat>, i: nat)
    requires Covers(index) && i < |rows|
    ensures KeptRows(rows[..i + 1], index)
      == KeptRows(rows[..i], index) + (if RequiredBlank(rows[i], index) then [] else [rows[i]])
  {
    assert rows[..i + 1][..i] == rows[..i];
  }

  lemma LoadRowsNext(fixes: seq<RowFix>, i: nat)
    requires i < |fixes|
    ensures var prev := LoadRows(fixes[..i]);
      LoadRows(fixes[..i + 1])
        == Loading(prev.initial + [fixes[i].data], if fixes[i].fixed then prev.fixedRows + [i + 2] else prev.fixedRows)
  {
    assert fixes[..i + 1][..i] == fixes[..i];
  }

  /** The loop that skips the rows whose required cells are all blank. */
  method KeepRows(rows: seq<seq<Cell>>, index: map<string, nat>) returns (kept: seq<seq<Cell>>)
    requires Covers(index)
    ensures kept == KeptRows(rows, index)
  {
    kept := [];
    var i := 0;
    while i < |rows|
      invariant 0 <= i <= |rows|
      invariant kept == KeptRows(rows[..i], index)
    {
      KeptRowsNext(rows, index, i);
      if !RequiredBlank(rows[i], index) {
        kept := kept + [rows[i]];
      }
      i := i + 1;
    }
    assert rows[..i] == rows;
  }

  /**
   * The loop that reads, post-processes and corrects each kept row, noting
   * the corrected ones; it stops when a row's corrections raise.
   */
  method LoadKept(kept: seq<seq<Cell>>, index: map<string, nat>)
    returns (raised: bool, initial: seq<map<string, Cell>>, fixedRows: seq<int>)
    requires Covers(index)
    ensures raised <==> !AllCorrected(PreviewRows(kept, index))
    ensures !raised ==> Loading(initial, fixedRows) == LoadRows(Fixes(PreviewRows(kept, index)))
  {
    raised, initial, fixedRows := false, [], [];
    ghost var fixes := PreviewRows(kept, index);
    var i := 0;
    while i < |kept|
      invariant 0 <= i <= |kept|
      invariant AllCorrected(fixes[..i])
      invariant Loading(initial, fixedRows) == LoadRows(Fixes(fixes[..i]))
    {
      var data := ReadRow(kept[i], index, false);
      data := PostprocessRow(data);
      var fix := Corrected(data);
      assert fix == fixes[i];
      if fix.None? {
        raised := true;
        return;
      }
      FixesNext(fixes, i);
      if fix.value.fixed {
        fixedRows := fixedRows + [i + 2];
      }
      initial := initial + [fix.value.data];
      i := i + 1;
    }
    assert fixes[..i] == fixes;
  }

  lemma FixesNext(fixes: seq<Option<RowFix>>, i: nat)
    requires i < |fixes| && AllCorrected(fixes[..i]) && fixes[i].Some?
    ensures AllCorrected(fixes[..i + 1])
    ensures var prev := LoadRows(Fixes(fixes[..i]));
      var fix := fixes[i].value;
      LoadRows(Fixes(fixes[..i + 1]))
        == Loading(prev.initial + [fix.data], if fix.fixed then prev.fixedRows + [i + 2] else prev.fixedRows)
  {
    assert forall j :: 0 <= j < i + 1 ==> fixes[..i + 1][j] == fixes[j];
    var done := Fixes(fixes[..i + 1]);
    assert done[..i] == Fixes(fixes[..i]);
    LoadRowsNext(done, i);
    assert done[..i + 1] == done;
  }

  /** The upload branch: map the headers, skip blank rows, clean each row, and cap the rows at 100. */
  method Preview(header: seq<Cell>, rows: seq<seq<Cell>>) returns (r: PreviewOutcome)
    ensures r == PreviewOf(header, rows)
  {
    var mapped := seq(|header|, i requires 0 <= i < |header| => NormalizeHeader(HeaderText(header[i])));
    var index := IndexByField(mapped);
    var missing := MissingFields(RequiredFields, index);
    if missing != [] {
      return MissingColumns(missing);
    }
    var kept := KeepRows(rows, index);
    var raised, initial, fixedRows := LoadKept(kept, index);
    if raised {
      return Raised;
    }
    var capped := false;
    if |initial| > TotalCap {
      initial := initial[..TotalCap];
      capped := true;
    }
    r := Loaded(initial, fixedRows, capped, PreviewExtra(|initial|));
  }

  /**
   * The preview reports missing columns exactly when a required field has
   * none, and fails exactly when a kept row's corrections raise. A loaded
   * preview holds the first 100 non-blank rows, each cleaned, says whether
   * rows were cut, and offers blank forms up to 100 rows in all.
   */
  lemma PreviewBounds(header: seq<Cell>, rows: seq<seq<Cell>>)
    ensures var p := PreviewOf(header, rows);
      var index := PreviewIndex(header);
      p.MissingColumns? <==> !Covers(index)
    ensures var p := PreviewOf(header, rows);
      var index := PreviewIndex(header);
      p.Loaded? ==>
        Covers(index)
        && var kept := KeptRows(rows, index);
        |p.initial| <= TotalCap && |p.initial| + p.extra <= TotalCap && p.extra <= DefaultExtra
        && (p.capped <==> |kept| > TotalCap)
        && |p.initial| == (if |kept| > TotalCap then TotalCap else |kept|)
        && forall i :: 0 <= i < |p.initial| ==> p.initial[i] == PreviewRows(kept, index)[i].value.data
  {
    var index := PreviewIndex(header);
    var missing := MissingFields(RequiredFields, index);
    if missing != [] {
      var f := missing[0];
      assert f in missing;
    } else {
      LoadedPreviewBounds(PreviewRows(KeptRows(rows, index), index));
    }
  }

  lemma LoadedPreviewBounds(fixes: seq<Option<RowFix>>)
    ensures var p := LoadedPreview(fixes);
      !p.MissingColumns? && (p.Raised? <==> !AllCorrected(fixes))
    ensures var p := LoadedPreview(fixes);
      p.Loaded? ==>
        |p.initial| <= TotalCap && |p.initial| + p.extra <= TotalCap && p.extra <= DefaultExtra
        && (p.capped <==> |fixes| > TotalCap)
        && |p.initial| == (if |fixes| > TotalCap then TotalCap else |fixes|)
        && forall i :: 0 <= i < |p.initial| ==> p.initial[i] == fixes[i].value.data
  {
  }

  /** With every required column present, the preview fails exactly when a kept row's corrections raise. */
  lemma PreviewRaisesExactly(header: seq<Cell>, rows: seq<seq<Cell>>)
    ensures var index := PreviewIndex(header);
      PreviewOf(header, rows).Raised? <==> Covers(index) && !AllCorrected(PreviewRows(KeptRows(rows, index), index))
  {
    var index := PreviewIndex(header);
    var missing := MissingFields(RequiredFields, index);
    if missing != [] {
      var f := missing[0];
      assert f in missing;
    } else {
      LoadedPreviewBounds(PreviewRows(KeptRows(rows, index), index));
    }
  }

  // ---------------------------------------------------------------------------
  // saving the form set

  /** What the save loop writes into a response code besides the cleaned fields. */
  datatype SavedCode = SavedCode(card: string, determinants: string, special: string)

  /** `str(v or '')`. */
  function ShownText(v: FieldValue): string
  {
    match v
    case Text(t) => t
    case Number(n) => if n == 0 then [] else IntText(n)
    case Absent => []
  }

  /** A form the loop saves: it has a card and a response. */
  predicate HasCardAndResponse(cd: map<string, FieldValue>)
  {
    "card" in cd && Truthy(cd["card"]) && "response" in cd && Truthy(cd["response"])
  }

  /** The advisory: card 1, a W location, a synthesised DQ and ZW, which calls for a higher Z. */
  predicate ZAdvisory(cd: map<string, FieldValue>, card: string)
  {
    NormalizeCardToNum(Some(card)) == "1" && HasSubstring(TextField(cd, "location"), "W")
    && '+' in TextField(cd, "dev_qual")
    && Upper(Strip(ShownText(if "Z" in cd then cd["Z"] else Absent))) == "ZW"
  }

  /** One saved form: the record written, whether its determinants were corrected, whether it is advised. */
  datatype SaveStep = SaveStep(code: SavedCode, fixed: bool, advised: bool)

  /** One saved form; it counts as fixed exactly when the determinants saved differ from those typed. */
  function SaveForm(cd: map<string, FieldValue>): (st: SaveStep)
    ensures st.fixed <==> st.code.determinants != TextField(cd, "determinants")
  {
    var card := ToRoman(Some(TextField(cd, "card")));
    var fix := FixDeterminantTypos(TextField(cd, "determinants"), TypoStartsAsWritten);
    SaveStep(SavedCode(card, fix.text, NormalizeSpecialTokens(TextField(cd, "special"))),
             fix.notes != [], ZAdvisory(cd, card))
  }

  /** Each form's step, or None for a form the loop skips. */
  function SaveSteps(forms: seq<map<string, FieldValue>>): (r: seq<Option<SaveStep>>)
    ensures |r| == |forms|
  {
    seq(|forms|, i requires 0 <= i < |forms| => if HasCardAndResponse(forms[i]) then Some(SaveForm(forms[i])) else None)
  }

  /** The records written, the 1-based numbers of the advised forms, and the number of corrected forms. */
  datatype Saving = Saving(saved: seq<SavedCode>, warnings: seq<int>, fixCount: nat)

  function Collect(steps: seq<Option<SaveStep>>): (r: Saving)
    ensures |r.saved| <= |steps| && r.fixCount <= |r.saved|
  {
    if steps == [] then Saving([], [], 0)
    else
      var n := |steps| - 1;
      var prev := Collect(steps[..n]);
      match steps[n]
      case None => prev
      case Some(step) =>
        Saving(prev.saved + [step.code],
               if step.advised then prev.warnings + [n + 1] else prev.warnings,
               if step.fixed then prev.fixCount + 1 else prev.fixCount)
  }

  /** Which forms were saved with the advisory. */
  function AdvisedFlags(steps: seq<Option<SaveStep>>): (r: seq<bool>)
    ensures |r| == |steps|
  {
    seq(|steps|, i requires 0 <= i < |steps| => steps[i].Some? && steps[i].value.advised)
  }

  /** The warnings name exactly the advised forms, numbered from 1, in order. */
  lemma {:induction false} CollectNumbered(steps: seq<Option<SaveStep>>)
    ensures Collect(steps).warnings == Marks(AdvisedFlags(steps), 1)
    ensures Numbered(Collect(steps).warnings, AdvisedFlags(steps), 1)
  {
    if steps != [] {
      var n := |steps| - 1;
      CollectNumbered(steps[..n]);
      assert AdvisedFlags(steps)[..n] == AdvisedFlags(steps[..n]);
    }
  }

  /** The save loop's outcome over the forms of the form set. */
  function SaveAll(forms: seq<map<string, FieldValue>>): Saving
  {
    Collect(SaveSteps(forms))
  }

  lemma CollectNext(steps: seq<Option<SaveStep>>, i: nat)
    requires i < |steps|
    ensures var prev := Collect(steps[..i]);
      Collect(steps[..i + 1]) ==
        match steps[i]
        case None => prev
        case Some(step) =>
          Saving(prev.saved + [step.code],
                 if step.advised then prev.warnings + [i + 1] else prev.warnings,
                 if step.fixed then prev.fixCount + 1 else prev.fixCount)
  {
    assert steps[..i + 1][..i] == steps[..i];
  }

  /** The save loop over a valid form set. */
  method SaveForms(forms: seq<map<string, FieldValue>>) returns (saved: seq<SavedCode>, warnings: seq<int>, fixCount: nat)
    ensures Saving(saved, warnings, fixCount) == SaveAll(forms)
  {
    saved, warnings, fixCount := [], [], 0;
    ghost var steps := SaveSteps(forms);
    var i := 0;
    while i < |forms|
      invariant 0 <= i <= |forms|
      invariant Saving(saved, warnings, fixCount) == Collect(steps[..i])
    {
      CollectNext(steps, i);
      var cd := forms[i];
      if HasCardAndResponse(cd) {
        var card := ToRoman(Some(TextField(cd, "card")));
        var fix := FixDeterminantTypos(TextField(cd, "determinants"), TypoStartsAsWritten);
        if fix.notes != [] {
          fixCount := fixCount + 1;
        }
        var special := NormalizeSpecialTokens(TextField(cd, "special"));
        if ZAdvisory(cd, card) {
          warnings := warnings + [i + 1];
        }
        saved := saved + [SavedCode(card, fix.text, special)];
      }
      i := i + 1;
    }
    assert steps[..i] == steps;
  }

  /** A card the form accepts that reads as card 1 after `to_roman` is "1" or "I", both higher-Z cards. */
  lemma FirstCardSpelt(card: string)
    requires card in CardSymbols
    requires NormalizeCardToNum(Some(ToRoman(Some(card)))) == "1"
    ensures card in HigherZCards
  {
    RomanTablesInverse();
    if card in CardNumbers {
      RoundTrip(card);
      assert card == "1";
    } else {
      assert card in RomanToNum;
      UpperRomanPlain(card);
      RomanAnyCase(card);
      var n := RomanToNum[card];
      NumeralInverse(card);
      RoundTrip(n);
      assert n == "1";
      NumeralOne();
      assert card == "I";
    }
  }

  lemma NumeralOne()
    ensures NumToRoman["1"] == "I"
  {
  }

  /** A Z value the form accepts that reads as ZW once trimmed and upper-cased is ZW. */
  lemma ZWSpelt(z: string)
    requires z in ZSymbols
    requires Upper(Strip(z)) == "ZW"
    ensures z == "ZW"
  {
    assert z[0] == 'Z' && z[|z| - 1] in {'A', 'W', 'D', 'S'};
    StripTrimmed(z);
    UpperFixed(z);
  }

  /** The fields the form validated: a card and a Z from their vocabularies. */
  predicate FieldsValidated(pre: map<string, FieldValue>)
  {
    ("card" in pre ==> pre["card"].Text? && pre["card"].text in CardSymbols)
    && ("Z" in pre && Truthy(pre["Z"]) ==> pre["Z"].Text? && pre["Z"].text in ZSymbols)
  }

  /**
   * The advisory fires only where the form's clean() has already rejected the
   * Z score as too low, so a form set that passed validation is never advised.
   */
  lemma AdvisoryImpliesHigherZ(pre: map<string, FieldValue>)
    requires FieldsValidated(pre)
    ensures var cleaned := CleanResponse(pre);
      (HasCardAndResponse(cleaned.data) && ZAdvisory(cleaned.data, ToRoman(Some(TextField(cleaned.data, "card")))))
        ==> cleaned.zError == Some(HigherZ)
  {
    var cleaned := CleanResponse(pre);
    var cd := cleaned.data;
    var card := ToRoman(Some(TextField(cd, "card")));
    if HasCardAndResponse(cd) && ZAdvisory(cd, card) {
      assert TextField(cd, "card") == TextField(pre, "card");
      FirstCardSpelt(TextField(cd, "card"));
      var z := ShownText(if "Z" in cd then cd["Z"] else Absent);
      assert z == TextField(pre, "Z");
      ZWSpelt(z);
      assert TextField(cd, "location") == TextField(pre, "location");
      assert TextField(cd, "dev_qual") == TextField(pre, "dev_qual");
    }
  }

  /** Saving a form set whose every form passed clean() without a Z error advises nothing. */
  lemma ValidFormSetNotAdvised(pres: seq<map<string, FieldValue>>, forms: seq<map<string, FieldValue>>)
    requires |forms| == |pres|
    requires forall i :: 0 <= i < |pres| ==>
      FieldsValidated(pres[i]) && CleanResponse(pres[i]).zError.None? && forms[i] == CleanResponse(pres[i]).data
    ensures SaveAll(forms).warnings == []
  {
    var steps := SaveSteps(forms);
    forall i | 0 <= i < |steps| ensures !(steps[i].Some? && steps[i].value.advised) {
      AdvisoryImpliesHigherZ(pres[i]);
    }
    NothingAdvised(steps);
  }

  lemma NothingAdvised(steps: seq<Option<SaveStep>>)
    requires forall i :: 0 <= i < |steps| ==> !(steps[i].Some? && steps[i].value.advised)
    ensures Collect(steps).warnings == []
  {
    CollectNumbered(steps);
  }

  /** Saved determinants hold no typo the correction would rewrite, and saved special scores are normalised. */
  lemma SavedSettled(cd: map<string, FieldValue>)
    ensures var code := SaveForm(cd).code;
      FixDeterminantTypos(code.determinants, TypoStartsAsWritten).text == code.determinants
      && NormalizeSpecialTokens(code.special) == code.special
      && ToRoman(Some(code.card)) == code.card
  {
    FixDeterminantTyposIdempotent(TextField(cd, "determinants"), TypoStartsAsWritten);
    NormalizeSpecialTokensIdempotent(TextField(cd, "special"));
    ToRomanIdempotent(Some(TextField(cd, "card")));
  }

  // ---------------------------------------------------------------------------
  // the export's completeness check

  /** The card number `k`, as the summary stores it. */
  function CardNumber(k: nat): string
    requires 1 <= k <= 10
  {
    if k == 1 then "1" else if k == 2 then "2" else if k == 3 then "3" else if k == 4 then "4"
    else if k == 5 then "5" else if k == 6 then "6" else if k == 7 then "7" else if k == 8 then "8"
    else if k == 9 then "9" else "10"
  }

  lemma CardNumberIn(k: nat)
    requires 1 <= k <= 10
    ensures CardNumber(k) in CardNumbers
  {
  }

  /** The sort key `int(n)` of each card number is its rank, so ascending keys are ascending cards. */
  lemma CardNumberKey(k: nat)
    requires 1 <= k <= 10
    ensures Digits(CardNumber(k)) && DigitsValue(CardNumber(k)) == k
  {
    CardNumberIn(k);
    CardNumbersAreDigits(CardNumber(k));
    if k == 10 {
      assert CardNumber(k)[..1] == "1";
    }
  }

  /** Every card number is the number of some rank. */
  lemma CardNumberOnto(n: string)
    requires n in CardNumbers
    ensures exists k :: 1 <= k <= 10 && CardNumber(k) == n
  {
    if n == "1" { assert CardNumber(1) == n; }
    else if n == "2" { assert CardNumber(2) == n; }
    else if n == "3" { assert CardNumber(3) == n; }
    else if n == "4" { assert CardNumber(4) == n; }
    else if n == "5" { assert CardNumber(5) == n; }
    else if n == "6" { assert CardNumber(6) == n; }
    else if n == "7" { assert CardNumber(7) == n; }
    else if n == "8" { assert CardNumber(8) == n; }
    else if n == "9" { assert CardNumber(9) == n; }
    else { assert CardNumber(10) == n; }
  }

  /** `{normalize_card_to_num(rc.card) for rc in codes if rc.card}`. */
  function FoundCards(cards: seq<string>): set<string>
  {
    set c | c in cards && c != [] :: NormalizeCardToNum(Some(c))
  }

  /** The ranks `k..10` whose card number is not found, ascending. */
  function MissingFrom(found: set<string>, k: nat): (r: seq<nat>)
    requires k >= 1
    ensures forall x :: x in r <==> k <= x <= 10 && CardNumber(x) !in found
    ensures forall i, j :: 0 <= i < j < |r| ==> r[i] < r[j]
    ensures forall i :: 0 <= i < |r| ==> k <= r[i] <= 10
    decreases 11 - k
  {
    if k > 10 then []
    else (if CardNumber(k) in found then [] else [k]) + MissingFrom(found, k + 1)
  }

  /** The numeral `to_roman` gives the card of rank `k`. */
  function RankRoman(k: nat): string
    requires 1 <= k <= 10
  {
    ToRoman(Some(CardNumber(k)))
  }

  /** What the export does: report the cards without a response, or go on to the summary. */
  datatype ExportCheck = MissingCards(romans: seq<string>) | Summarise

  /** No rank is missing exactly when every card number is found. */
  lemma NothingMissing(found: set<string>)
    ensures MissingFrom(found, 1) == [] <==> CardNumbers <= found
  {
    var missing := MissingFrom(found, 1);
    if missing != [] {
      assert missing[0] in missing;
      CardNumberIn(missing[0]);
    } else {
      forall n | n in CardNumbers ensures n in found {
        CardNumberOnto(n);
      }
    }
  }

  /** The numerals of the ranks whose card number is not found, in ascending order. */
  function MissingRomans(found: set<string>): seq<string>
  {
    var missing := MissingFrom(found, 1);
    seq(|missing|, i requires 0 <= i < |missing| => RankRoman(missing[i]))
  }

  function CheckExport(cards: seq<string>): (r: ExportCheck)
    ensures r.Summarise? <==> CardNumbers <= FoundCards(cards)
    ensures r.MissingCards? ==> r.romans == MissingRomans(FoundCards(cards))
  {
    var found := FoundCards(cards);
    NothingMissing(found);
    if MissingFrom(found, 1) != [] then MissingCards(MissingRomans(found)) else Summarise
  }

  /** Each numeral of the report reads back as the card number of a missing rank. */
  lemma MissingReportReadsBack(found: set<string>)
    ensures var missing := MissingFrom(found, 1);
      var romans := MissingRomans(found);
      |romans| == |missing|
      && forall i :: 0 <= i < |romans| ==>
           var n := NormalizeCardToNum(Some(romans[i]));
           n == CardNumber(missing[i]) && n in CardNumbers && n !in found && Digits(n) && DigitsValue(n) == missing[i]
  {
    var missing := MissingFrom(found, 1);
    forall i | 0 <= i < |missing|
      ensures var n := NormalizeCardToNum(Some(RankRoman(missing[i])));
        n == CardNumber(missing[i]) && n in CardNumbers && Digits(n) && DigitsValue(n) == missing[i]
    {
      RankRomanReadsBack(missing[i]);
    }
  }

  /** The report lists the cards in ascending order of their integer card number. */
  lemma MissingReportOrdered(found: set<string>)
    ensures var romans := MissingRomans(found);
      forall i, j :: 0 <= i < j < |romans| ==>
        var a, b := NormalizeCardToNum(Some(romans[i])), NormalizeCardToNum(Some(romans[j]));
        Digits(a) && Digits(b) && DigitsValue(a) < DigitsValue(b)
  {
    MissingReportReadsBack(found);
  }

  /** Every card number that has no response is named in the report. */
  lemma MissingReportComplete(found: set<string>, n: string)
    requires n in CardNumbers && n !in found
    ensures exists i :: 0 <= i < |MissingRomans(found)| && NormalizeCardToNum(Some(MissingRomans(found)[i])) == n
  {
    var missing := MissingFrom(found, 1);
    MissingReportReadsBack(found);
    CardNumberOnto(n);
    var k :| 1 <= k <= 10 && CardNumber(k) == n;
    assert k in missing;
    var i :| 0 <= i < |missing| && missing[i] == k;
    assert NormalizeCardToNum(Some(MissingRomans(found)[i])) == n;
  }

  /** The numeral of a rank reads back as the card number of that rank, whose integer value is the rank. */
  lemma RankRomanReadsBack(k: nat)
    requires 1 <= k <= 10
    ensures var n := NormalizeCardToNum(Some(RankRoman(k)));
      n == CardNumber(k) && n in CardNumbers && Digits(n) && DigitsValue(n) == k
  {
    CardNumberIn(k);
    RoundTrip(CardNumber(k));
    CardNumberKey(k);
  }
}
