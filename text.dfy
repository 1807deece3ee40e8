/**
 * The Python string operations the scoring code relies on, written out over
 * `seq<char>`: whitespace stripping, ASCII case mapping, `re.split` on runs of
 * separator characters, `str.split` on one character, `str.split()` with no
 * argument, `str.join`, substring tests and `dict.fromkeys` de-duplication.
 */
module PyText {

  /** A value Python may hold as `None`. */
  datatype Option<T> = None | Some(value: T)

  /** The characters for which Python's `str.isspace()` holds; `\s` in a `re` pattern matches the same set. */
  const Whitespace: set<char> := {
    '\t', '\n', '\U{b}', '\U{c}', '\r', '\U{1c}', '\U{1d}', '\U{1e}', '\U{1f}', ' ',
    '\U{85}', '\U{a0}', '\U{1680}',
    '\U{2000}', '\U{2001}', '\U{2002}', '\U{2003}', '\U{2004}', '\U{2005}',
    '\U{2006}', '\U{2007}', '\U{2008}', '\U{2009}', '\U{200a}',
    '\U{2028}', '\U{2029}', '\U{202f}', '\U{205f}', '\U{3000}'
  }

  /** No character of `s` is in `cs`. */
  predicate Avoids(s: string, cs: set<char>)
  {
    forall i :: 0 <= i < |s| ==> s[i] !in cs
  }

  /** Every character of `s` is in `cs`. */
  predicate Within(s: string, cs: set<char>)
  {
    forall i :: 0 <= i < |s| ==> s[i] in cs
  }

  // ---------------------------------------------------------------------------
  // strip / rstrip

  /** `s.lstrip()`: the suffix of `s` left after its leading whitespace. */
  function LStrip(s: string): (r: string)
    ensures |r| <= |s|
  {
    if s != [] && s[0] in Whitespace then LStrip(s[1..]) else s
  }

  /** `s.rstrip()`: the prefix of `s` left after its trailing whitespace. */
  function RStrip(s: string): (r: string)
    ensures |r| <= |s|
  {
    if s != [] && s[|s| - 1] in Whitespace then RStrip(s[..|s| - 1]) else s
  }

  /** `s.strip()`: what is left once the leading and trailing whitespace is removed. */
  function Strip(s: string): (r: string)
    ensures |r| <= |s|
  {
    RStrip(LStrip(s))
  }

  /** `strip()` leaves no whitespace at either end. */
  lemma StripEdges(s: string)
    ensures Strip(s) == [] || (Strip(s)[0] !in Whitespace && Strip(s)[|Strip(s)| - 1] !in Whitespace)
  {
    LStripEdge(s);
    RStripEdges(LStrip(s));
  }

  /** `strip()` keeps one slice of `s` and removes only whitespace before and after it. */
  lemma StripSlice(s: string)
    ensures var r := Strip(s);
      exists i :: 0 <= i <= |s| - |r| && r == s[i..i + |r|]
        && Within(s[..i], Whitespace) && Within(s[i + |r|..], Whitespace)
  {
    var l := LStrip(s);
    LStripSuffix(s);
    RStripPrefix(l);
    var r := RStrip(l);
    var i := |s| - |l|;
    assert r == s[i..i + |r|];
    assert s[i + |r|..] == l[|r|..];
  }

  /** `lstrip()` removes a run of whitespace from the front and keeps the rest. */
  lemma {:induction false} LStripSuffix(s: string)
    ensures LStrip(s) == s[|s| - |LStrip(s)|..] && Within(s[..|s| - |LStrip(s)|], Whitespace)
  {
    if s != [] && s[0] in Whitespace {
      LStripSuffix(s[1..]);
      assert s[1..][..|s| - 1 - |LStrip(s)|] == s[1..|s| - |LStrip(s)|];
    }
  }

  /** `rstrip()` removes a run of whitespace from the end and keeps the rest. */
  lemma {:induction false} RStripPrefix(s: string)
    ensures RStrip(s) == s[..|RStrip(s)|] && Within(s[|RStrip(s)|..], Whitespace)
  {
    if s != [] && s[|s| - 1] in Whitespace {
      RStripPrefix(s[..|s| - 1]);
    }
  }

  lemma {:induction false} LStripEdge(s: string)
    ensures LStrip(s) == [] || LStrip(s)[0] !in Whitespace
  {
    if s != [] && s[0] in Whitespace {
      LStripEdge(s[1..]);
    }
  }

  lemma {:induction false} RStripEdges(s: string)
    requires s == [] || s[0] !in Whitespace
    ensures RStrip(s) == [] || (RStrip(s)[0] !in Whitespace && RStrip(s)[|RStrip(s)| - 1] !in Whitespace)
  {
    if s != [] && s[|s| - 1] in Whitespace {
      assert s[..|s| - 1] == [] || s[..|s| - 1][0] == s[0];
      RStripEdges(s[..|s| - 1]);
    }
  }

  /** A string that neither starts nor ends with whitespace is its own `strip()`. */
  lemma StripTrimmed(s: string)
    requires s == [] || (s[0] !in Whitespace && s[|s| - 1] !in Whitespace)
    ensures Strip(s) == s
  {
  }

  lemma StripIdempotent(s: string)
    ensures Strip(Strip(s)) == Strip(s)
  {
    StripEdges(s);
    StripTrimmed(Strip(s));
  }

  /** `s.rstrip(c)`: `s` without its trailing run of `c`. */
  function RStripChar(s: string, c: char): (r: string)
    ensures |r| <= |s| && r == s[..|r|]
    ensures r == [] || r[|r| - 1] != c
    ensures forall i :: |r| <= i < |s| ==> s[i] == c
  {
    if s != [] && s[|s| - 1] == c then RStripChar(s[..|s| - 1], c) else s
  }

  // ---------------------------------------------------------------------------
  // ASCII case mapping

  function LowerChar(c: char): (d: char)
    ensures 'A' <= c <= 'Z' ==> 'a' <= d <= 'z'
    ensures !('A' <= c <= 'Z') ==> d == c
  {
    if 'A' <= c <= 'Z' then (c as int + 32) as char else c
  }

  function UpperChar(c: char): (d: char)
    ensures 'a' <= c <= 'z' ==> 'A' <= d <= 'Z'
    ensures !('a' <= c <= 'z') ==> d == c
  {
    if 'a' <= c <= 'z' then (c as int - 32) as char else c
  }

  /** `s.lower()` on the ASCII letters. */
  function Lower(s: string): (r: string)
    ensures |r| == |s|
    ensures forall i :: 0 <= i < |s| ==> r[i] == LowerChar(s[i])
  {
    if s == [] then [] else [LowerChar(s[0])] + Lower(s[1..])
  }

  /** `s.upper()` on the ASCII letters. */
  function Upper(s: string): (r: string)
    ensures |r| == |s|
    ensures forall i :: 0 <= i < |s| ==> r[i] == UpperChar(s[i])
  {
    if s == [] then [] else [UpperChar(s[0])] + Upper(s[1..])
  }

  /** A string with no lower-case ASCII letter is its own `upper()`. */
  lemma UpperFixed(s: string)
    requires forall i :: 0 <= i < |s| ==> !('a' <= s[i] <= 'z')
    ensures Upper(s) == s
  {
  }

  lemma UpperIdempotent(s: string)
    ensures Upper(Upper(s)) == Upper(s)
  {
    UpperFixed(Upper(s));
  }

  // ---------------------------------------------------------------------------
  // substrings and character removal

  /** Python's `sub in s` on strings. */
  predicate HasSubstring(s: string, sub: string)
  {
    exists i :: 0 <= i <= |s| - |sub| && sub <= s[i..]
  }

  /** `s.replace(c, "")`. */
  function RemoveChar(s: string, c: char): (r: string)
    ensures c !in r
    ensures |r| <= |s|
    ensures c !in s ==> r == s
    ensures forall d :: d in r ==> d in s
  {
    if s == [] then []
    else (if s[0] == c then [] else [s[0]]) + RemoveChar(s[1..], c)
  }

  /** `s.replace(c, t)` for a single character `c`. */
  function ReplaceChar(s: string, c: char, t: string): (r: string)
    ensures c !in s ==> r == s
  {
    if s == [] then []
    else (if s[0] == c then t else [s[0]]) + ReplaceChar(s[1..], c, t)
  }

  /** `s.replace(c, t)` leaves no `c` behind when `t` holds none. */
  lemma {:induction false} ReplaceCharGone(s: string, c: char, t: string)
    requires c !in t
    ensures c !in ReplaceChar(s, c, t)
  {
    if s != [] {
      ReplaceCharGone(s[1..], c, t);
    }
  }

  /** `strip()` keeps only characters of its input. */
  lemma StripChars(s: string)
    ensures forall c :: c in Strip(s) ==> c in s
  {
    LStripSuffix(s);
    RStripPrefix(LStrip(s));
  }

  // ---------------------------------------------------------------------------
  // joining and splitting

  /** `sep.join(parts)`. */
  function Join(parts: seq<string>, sep: string): string
  {
    if |parts| == 0 then []
    else if |parts| == 1 then parts[0]
    else parts[0] + sep + Join(parts[1..], sep)
  }

  lemma JoinChars(parts: seq<string>, sep: string, c: char)
    requires c in Join(parts, sep)
    ensures c in sep || exists k :: 0 <= k < |parts| && c in parts[k]
  {
    if |parts| > 1 {
      if c !in parts[0] && c !in sep {
        JoinChars(parts[1..], sep, c);
        var k :| 0 <= k < |parts[1..]| && c in parts[1..][k];
        assert c in parts[k + 1];
      }
    }
  }

  /** The leading run of separator characters of `s`, removed. */
  function DropSeps(s: string, seps: set<char>): (r: string)
    ensures |r| <= |s| && r == s[|s| - |r|..]
    ensures s != [] && s[0] in seps ==> |r| < |s|
  {
    if s != [] && s[0] in seps then DropSeps(s[1..], seps) else s
  }

  /**
   * `re.split("[...]+", s)` where the character class is `seps`: the pieces
   * between maximal runs of separators, keeping the empty piece before a
   * leading run and after a trailing run ("" gives [""], "," gives ["", ""]).
   */
  function SplitRuns(s: string, seps: set<char>): (r: seq<string>)
    ensures |r| >= 1
    decreases |s|
  {
    if s == [] then [[]]
    else if s[0] in seps then [[]] + SplitRuns(DropSeps(s, seps), seps)
    else
      var rest := SplitRuns(s[1..], seps);
      [[s[0]] + rest[0]] + rest[1..]
  }

  /** The pieces of a split hold no separator and only characters of the input. */
  lemma {:induction false} SplitRunsPieces(s: string, seps: set<char>)
    ensures forall k :: 0 <= k < |SplitRuns(s, seps)| ==> Avoids(SplitRuns(s, seps)[k], seps)
    ensures forall k, c :: 0 <= k < |SplitRuns(s, seps)| && c in SplitRuns(s, seps)[k] ==> c in s
    decreases |s|
  {
    if s == [] {
    } else if s[0] in seps {
      var d := DropSeps(s, seps);
      SplitRunsPieces(d, seps);
      forall k, c | 0 <= k < |SplitRuns(s, seps)| && c in SplitRuns(s, seps)[k] ensures c in s {
        assert c in SplitRuns(d, seps)[k - 1];
        assert c in d;
      }
    } else {
      SplitRunsPieces(s[1..], seps);
      var rest := SplitRuns(s[1..], seps);
      forall k, c | 0 <= k < |SplitRuns(s, seps)| && c in SplitRuns(s, seps)[k] ensures c in s {
        if k == 0 {
          assert c in [s[0]] + rest[0];
          if c != s[0] {
            assert c in rest[0];
            assert c in s[1..];
          }
        } else {
          assert c in rest[k];
          assert c in s[1..];
        }
      }
    }
  }

  /** A non-separator character in front of `t` joins the first piece of `t`. */
  lemma SplitRunsCons(c: char, t: string, seps: set<char>)
    requires c !in seps
    ensures SplitRuns([c] + t, seps) == [[c] + SplitRuns(t, seps)[0]] + SplitRuns(t, seps)[1..]
  {
    assert ([c] + t)[1..] == t;
  }

  /** Splitting a separator-free prefix followed by `b`: the prefix joins the first piece of `b`. */
  lemma {:induction false} SplitRunsPrefix(a: string, b: string, seps: set<char>)
    requires Avoids(a, seps)
    ensures SplitRuns(a + b, seps) == [a + SplitRuns(b, seps)[0]] + SplitRuns(b, seps)[1..]
    decreases |a|
  {
    var rb := SplitRuns(b, seps);
    if a == [] {
      assert a + b == b && a + rb[0] == rb[0];
      assert [rb[0]] + rb[1..] == rb;
    } else {
      var t := a[1..];
      assert Avoids(t, seps) by {
        forall k | 0 <= k < |t| ensures t[k] !in seps {
          assert t[k] == a[k + 1];
        }
      }
      SplitRunsPrefix(t, b, seps);
      SplitRunsPrefixStep(a[0], t, b, seps);
      assert [a[0]] + t == a;
    }
  }

  /** One more separator-free character in front of the prefix joins the first piece too. */
  lemma SplitRunsPrefixStep(c: char, t: string, b: string, seps: set<char>)
    requires c !in seps
    requires SplitRuns(t + b, seps) == [t + SplitRuns(b, seps)[0]] + SplitRuns(b, seps)[1..]
    ensures SplitRuns([c] + t + b, seps) == [[c] + t + SplitRuns(b, seps)[0]] + SplitRuns(b, seps)[1..]
  {
    assert [c] + t + b == [c] + (t + b);
    SplitRunsCons(c, t + b, seps);
    assert [c] + (t + SplitRuns(b, seps)[0]) == [c] + t + SplitRuns(b, seps)[0];
  }

  /** A string without separators is split into itself alone. */
  lemma SplitRunsWhole(s: string, seps: set<char>)
    requires Avoids(s, seps)
    ensures SplitRuns(s, seps) == [s]
  {
    SplitRunsPrefix(s, [], seps);
    assert s + [] == s;
  }

  /** Splitting a run of separators followed by a piece that does not start with one. */
  lemma SplitRunsSeparator(sep: string, b: string, seps: set<char>)
    requires sep != [] && Within(sep, seps)
    requires b == [] || b[0] !in seps
    ensures SplitRuns(sep + b, seps) == [[]] + SplitRuns(b, seps)
  {
    DropAll(sep, b, seps);
  }

  lemma {:induction false} DropAll(sep: string, b: string, seps: set<char>)
    requires Within(sep, seps)
    requires b == [] || b[0] !in seps
    ensures DropSeps(sep + b, seps) == b
    decreases |sep|
  {
    if sep != [] {
      assert (sep + b)[1..] == sep[1..] + b;
      DropAll(sep[1..], b, seps);
    }
  }

  /** Pieces that are non-empty and separator-free, joined by separators, split back into the same pieces. */
  lemma {:induction false} SplitRunsJoin(parts: seq<string>, sep: string, seps: set<char>)
    requires |parts| >= 1
    requires forall k :: 0 <= k < |parts| ==> parts[k] != [] && Avoids(parts[k], seps)
    requires sep != [] && Within(sep, seps)
    ensures SplitRuns(Join(parts, sep), seps) == parts
  {
    if |parts| == 1 {
      SplitRunsPrefix(parts[0], [], seps);
      assert parts[0] + [] == parts[0];
    } else {
      var tail := Join(parts[1..], sep);
      SplitRunsJoin(parts[1..], sep, seps);
      assert Join(parts, sep) == parts[0] + (sep + tail);
      assert tail == [] || tail[0] !in seps by {
        JoinStarts(parts[1..], sep);
      }
      SplitRunsSeparator(sep, tail, seps);
      SplitRunsPrefix(parts[0], sep + tail, seps);
      assert parts[0] + [] == parts[0];
      assert [parts[0]] + parts[1..] == parts;
    }
  }

  lemma JoinStarts(parts: seq<string>, sep: string)
    requires |parts| >= 1 && parts[0] != []
    ensures Join(parts, sep) != [] && Join(parts, sep)[0] == parts[0][0]
  {
  }

  /** `s.split()`: the maximal runs of non-whitespace characters. */
  function WordsOf(s: string): (r: seq<string>)
    ensures forall k :: 0 <= k < |r| ==> r[k] != [] && Avoids(r[k], Whitespace)
  {
    SplitRunsPieces(s, Whitespace);
    NonEmpty(SplitRuns(s, Whitespace))
  }

  /** Every character of a word of `s` is a character of `s`. */
  lemma WordsChars(s: string)
    ensures forall k, c :: 0 <= k < |WordsOf(s)| && c in WordsOf(s)[k] ==> c in s
  {
    SplitRunsPieces(s, Whitespace);
    var parts := SplitRuns(s, Whitespace);
    forall k, c | 0 <= k < |WordsOf(s)| && c in WordsOf(s)[k]
      ensures c in s
    {
      var w := WordsOf(s)[k];
      assert w in parts;
      var j :| 0 <= j < |parts| && parts[j] == w;
    }
  }

  /** The non-empty strings of `parts`, in order. */
  function NonEmpty(parts: seq<string>): (r: seq<string>)
    ensures forall k :: 0 <= k < |r| ==> r[k] != [] && r[k] in parts
  {
    if parts == [] then []
    else (if parts[0] == [] then [] else [parts[0]]) + NonEmpty(parts[1..])
  }

  lemma NonEmptyKeeps(parts: seq<string>)
    requires forall k :: 0 <= k < |parts| ==> parts[k] != []
    ensures NonEmpty(parts) == parts
  {
  }

  /** Whitespace-free words joined by spaces split back into the same words. */
  lemma WordsOfJoin(words: seq<string>)
    requires forall k :: 0 <= k < |words| ==> words[k] != [] && Avoids(words[k], Whitespace)
    ensures WordsOf(Join(words, " ")) == words
  {
    if words == [] {
      assert SplitRuns([], Whitespace) == [[]];
    } else {
      SplitRunsJoin(words, " ", Whitespace);
      NonEmptyKeeps(words);
    }
  }

  /**
   * `s.split(c)`: the pieces between single occurrences of `c`, empty pieces
   * included (so "" gives [""] and "a,,b" gives ["a", "", "b"]).
   */
  function SplitOn(s: string, c: char): (r: seq<string>)
    ensures |r| >= 1
    ensures forall k :: 0 <= k < |r| ==> c !in r[k]
    ensures Join(r, [c]) == s
  {
    if s == [] then [[]]
    else
      var rest := SplitOn(s[1..], c);
      if s[0] == c then
        assert ([[]] + rest)[1..] == rest;
        [[]] + rest
      else
        JoinHead(rest, [s[0]], [c]);
        [[s[0]] + rest[0]] + rest[1..]
  }

  /** Prefixing the first part prefixes the join. */
  lemma JoinHead(parts: seq<string>, x: string, sep: string)
    requires |parts| >= 1
    ensures Join([x + parts[0]] + parts[1..], sep) == x + Join(parts, sep)
  {
    assert ([x + parts[0]] + parts[1..])[1..] == parts[1..];
  }

  /** `s.count(c)` for a single character. */
  function Occurrences(s: string, c: char): nat
  {
    multiset(s)[c]
  }

  /** `s.split(c)` has one piece more than `s` has occurrences of `c`. */
  lemma {:induction false} SplitOnPieces(s: string, c: char)
    ensures |SplitOn(s, c)| == Occurrences(s, c) + 1
  {
    if s != [] {
      SplitOnPieces(s[1..], c);
      assert s == [s[0]] + s[1..];
    }
  }

  // ---------------------------------------------------------------------------
  // de-duplication

  /** Whatever precedes an item of `r` appeared in `s` before any occurrence of that item. */
  ghost predicate FirstSeenOrder(s: seq<string>, r: seq<string>)
  {
    forall i, j, q :: 0 <= i < j < |r| && 0 <= q < |s| && s[q] == r[j] ==> r[i] in s[..q]
  }

  /**
   * `list(dict.fromkeys(s))`: each element of `s` once, in the order of its
   * first occurrence.
   */
  function Dedupe(s: seq<string>): (r: seq<string>)
    ensures forall x :: x in r <==> x in s
    ensures forall i, j :: 0 <= i < j < |r| ==> r[i] != r[j]
    ensures FirstSeenOrder(s, r)
  {
    if s == [] then []
    else
      var p := s[..|s| - 1];
      var d := Dedupe(p);
      assert forall x :: x in s <==> x in p || x == s[|s| - 1];
      DedupeStep(p, d, s[|s| - 1]);
      assert p + [s[|s| - 1]] == s;
      if s[|s| - 1] in d then d else d + [s[|s| - 1]]
  }

  /** Appending `x` to the input keeps the first-seen order of the de-duplicated list. */
  lemma DedupeStep(p: seq<string>, d: seq<string>, x: string)
    requires forall y :: y in d <==> y in p
    requires FirstSeenOrder(p, d)
    ensures FirstSeenOrder(p + [x], if x in d then d else d + [x])
  {
    var s := p + [x];
    var r := if x in d then d else d + [x];
    forall i, j, q | 0 <= i < j < |r| && 0 <= q < |s| && s[q] == r[j] ensures r[i] in s[..q] {
      assert r[i] == d[i];
      if q < |p| {
        assert s[q] == p[q] && s[q] in d;
        assert j < |d|;
        assert p[..q] == s[..q];
      } else {
        assert d[i] in p;
        assert s[..q] == p;
      }
    }
  }

  /** A sequence without repeats is its own de-duplication. */
  lemma {:induction false} DedupeDistinct(s: seq<string>)
    requires forall i, j :: 0 <= i < j < |s| ==> s[i] != s[j]
    ensures Dedupe(s) == s
  {
    if s != [] {
      var p := s[..|s| - 1];
      DedupeDistinct(p);
      assert s[|s| - 1] !in p;
      assert p + [s[|s| - 1]] == s;
    }
  }
}
