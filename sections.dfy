/**
 * The sections of the structural summary, each computed from the responses
 * (cards already mapped to Arabic numbers) and from the lists gathered in
 * one pass over them.
 */
module ScoringSections {
  import opened PyText
  import opened Forms
  import opened ScoringTables
  import opened ScoringRecords
  import CardBase

  /** `xs.count(x)`, and `Counter(xs)[x]`. */
  function Count(xs: seq<string>, x: string): nat
  {
    multiset(xs)[x]
  }

  /** No element is counted under two values: four distinct values occur together at most as often as the list is long. */
  lemma {:induction false} FourCounts(xs: seq<string>, a: string, b: string, c: string, d: string)
    requires a != b && a != c && a != d && b != c && b != d && c != d
    ensures Count(xs, a) + Count(xs, b) + Count(xs, c) + Count(xs, d) <= |xs|
  {
    if xs != [] {
      var init := xs[..|xs| - 1];
      var x := xs[|xs| - 1];
      FourCounts(init, a, b, c, d);
      assert xs == init + [x];
      CountSnoc(init, x, a); CountSnoc(init, x, b); CountSnoc(init, x, c); CountSnoc(init, x, d);
    }
  }

  /** Appending `x` adds one to the count of `x` and leaves every other count alone. */
  lemma CountSnoc(init: seq<string>, x: string, v: string)
    ensures Count(init + [x], v) == Count(init, v) + (if x == v then 1 else 0)
  {
    assert multiset(init + [x]) == multiset(init) + multiset{x};
  }

  /** Five distinct values occur together at most as often as the list is long. */
  lemma {:induction false} FiveCounts(xs: seq<string>, a: string, b: string, c: string, d: string, e: string)
    requires a != b && a != c && a != d && a != e && b != c && b != d && b != e && c != d && c != e && d != e
    ensures Count(xs, a) + Count(xs, b) + Count(xs, c) + Count(xs, d) + Count(xs, e) <= |xs|
  {
    if xs != [] {
      var init := xs[..|xs| - 1];
      var x := xs[|xs| - 1];
      FiveCounts(init, a, b, c, d, e);
      assert xs == init + [x];
      CountSnoc(init, x, a); CountSnoc(init, x, b); CountSnoc(init, x, c); CountSnoc(init, x, d); CountSnoc(init, x, e);
    }
  }

  /** The sum of a list of counts. */
  function Sum(ns: seq<nat>): nat
  {
    if ns == [] then 0 else Sum(ns[..|ns| - 1]) + ns[|ns| - 1]
  }

  /** The union of a list of vocabularies. */
  function Union(groups: seq<set<string>>): set<string>
  {
    if groups == [] then {} else Union(groups[..|groups| - 1]) + groups[|groups| - 1]
  }

  /** No code belongs to two of the vocabularies. */
  predicate Disjoint(groups: seq<set<string>>)
  {
    forall i, j :: 0 <= i < j < |groups| ==> groups[i] !! groups[j]
  }

  /** The codes of two disjoint vocabularies are counted apart: their counts add up to the count of their union. */
  lemma {:induction false} CountInUnion(xs: seq<string>, a: set<string>, b: set<string>)
    requires a !! b
    ensures CountIn(xs, a + b) == CountIn(xs, a) + CountIn(xs, b)
  {
    if xs != [] {
      CountInUnion(xs[..|xs| - 1], a, b);
    }
  }

  /** `Count` is the count of a vocabulary of one code. */
  lemma {:induction false} CountAsCountIn(xs: seq<string>, x: string)
    ensures Count(xs, x) == CountIn(xs, {x})
  {
    if xs != [] {
      var init := xs[..|xs| - 1];
      CountAsCountIn(init, x);
      assert xs == init + [xs[|xs| - 1]];
      CountSnoc(init, xs[|xs| - 1], x);
    }
  }

  /** A set that meets none of the vocabularies does not meet their union. */
  lemma {:induction false} UnionAvoids(groups: seq<set<string>>, s: set<string>)
    requires forall i :: 0 <= i < |groups| ==> groups[i] !! s
    ensures Union(groups) !! s
  {
    if groups != [] {
      UnionAvoids(groups[..|groups| - 1], s);
    }
  }

  /**
   * The counts of disjoint vocabularies in one list add up to the count of
   * their union, so no code is counted twice and together they are at most
   * the list's length.
   */
  lemma {:induction false} DisjointCounts(xs: seq<string>, groups: seq<set<string>>, ns: seq<nat>)
    requires Disjoint(groups) && |ns| == |groups|
    requires forall i :: 0 <= i < |ns| ==> ns[i] == CountIn(xs, groups[i])
    ensures Sum(ns) == CountIn(xs, Union(groups)) <= |xs|
  {
    if groups == [] {
      CountInNone(xs, {});
    } else {
      var k := |groups| - 1;
      DisjointCounts(xs, groups[..k], ns[..k]);
      UnionAvoids(groups[..k], groups[k]);
      CountInUnion(xs, Union(groups[..k]), groups[k]);
      assert Sum(ns) == Sum(ns[..k]) + ns[k];
      assert Union(groups) == Union(groups[..k]) + groups[k];
    }
  }

  /** No code is listed twice. */
  predicate Distinct(codes: seq<string>)
  {
    forall i, j :: 0 <= i < j < |codes| ==> codes[i] != codes[j]
  }

  /** The counts of distinct codes in one list add up to at most its length. */
  lemma DistinctCounts(xs: seq<string>, codes: seq<string>, ns: seq<nat>)
    requires Distinct(codes) && |ns| == |codes|
    requires forall i :: 0 <= i < |ns| ==> ns[i] == Count(xs, codes[i])
    ensures Sum(ns) <= |xs|
  {
    var groups := Singletons(codes);
    forall i | 0 <= i < |ns|
      ensures ns[i] == CountIn(xs, groups[i])
    {
      CountAsCountIn(xs, codes[i]);
    }
    DisjointCounts(xs, groups, ns);
  }

  /** The one-code vocabularies of a list of codes. */
  function Singletons(codes: seq<string>): (r: seq<set<string>>)
    ensures |r| == |codes| && forall i :: 0 <= i < |codes| ==> r[i] == {codes[i]}
  {
    seq(|codes|, i requires 0 <= i < |codes| => {codes[i]})
  }

  /** Disjoint vocabularies followed by distinct codes outside them stay disjoint. */
  lemma JoinedDisjoint(groups: seq<set<string>>, codes: seq<string>)
    requires Disjoint(groups) && Distinct(codes)
    requires forall i, j :: 0 <= i < |codes| && 0 <= j < |groups| ==> codes[i] !in groups[j]
    ensures Disjoint(groups + Singletons(codes))
  {
    var all := groups + Singletons(codes);
    forall i, j | 0 <= i < j < |all|
      ensures all[i] !! all[j]
    {
      if j >= |groups| && i >= |groups| {
        assert all[i] == {codes[i - |groups|]} && all[j] == {codes[j - |groups|]};
      } else if j >= |groups| {
        assert all[j] == {codes[j - |groups|]} && codes[j - |groups|] !in groups[i];
      }
    }
  }

  /**
   * The counts of disjoint vocabularies and of distinct codes outside them,
   * in one list, add up to at most its length.
   */
  lemma GroupedCounts(xs: seq<string>, groups: seq<set<string>>, gs: seq<nat>, codes: seq<string>, ns: seq<nat>)
    requires Disjoint(groups) && |gs| == |groups|
    requires forall i :: 0 <= i < |gs| ==> gs[i] == CountIn(xs, groups[i])
    requires Distinct(codes) && |ns| == |codes|
    requires forall i :: 0 <= i < |ns| ==> ns[i] == Count(xs, codes[i])
    requires forall i, j :: 0 <= i < |codes| && 0 <= j < |groups| ==> codes[i] !in groups[j]
    ensures Sum(gs + ns) <= |xs|
  {
    var all := groups + Singletons(codes);
    var counts := gs + ns;
    forall i | 0 <= i < |counts|
      ensures counts[i] == CountIn(xs, all[i])
    {
      if i >= |gs| {
        CountAsCountIn(xs, codes[i - |gs|]);
      }
    }
    JoinedDisjoint(groups, codes);
    DisjointCounts(xs, all, counts);
  }

  /** Three distinct codes are counted together as the vocabulary they make up. */
  lemma ThreeCountIn(xs: seq<string>, a: string, b: string, c: string)
    requires a != b && a != c && b != c
    ensures Count(xs, a) + Count(xs, b) + Count(xs, c) == CountIn(xs, {a, b, c})
  {
    CountAsCountIn(xs, a); CountAsCountIn(xs, b); CountAsCountIn(xs, c);
    CountInUnion(xs, {a}, {b});
    CountInUnion(xs, {a, b}, {c});
    assert {a} + {b} == {a, b};
    assert {a, b} + {c} == {a, b, c};
  }

  /** A "left:right" ratio field, held as its two numbers. */
  datatype Ratio = Ratio(left: real, right: real)

  // ---------------------------------------------------------------------------
  // columns of the response list

  function Cards(rs: seq<Response>): (r: seq<string>)
    ensures |r| == |rs| && forall k :: 0 <= k < |rs| ==> r[k] == rs[k].card
  {
    if rs == [] then [] else Cards(rs[..|rs| - 1]) + [rs[|rs| - 1].card]
  }

  function ZColumn(rs: seq<Response>): (r: seq<string>)
    ensures |r| == |rs| && forall k :: 0 <= k < |rs| ==> r[k] == rs[k].z
  {
    if rs == [] then [] else ZColumn(rs[..|rs| - 1]) + [rs[|rs| - 1].z]
  }

  function Locations(rs: seq<Response>): (r: seq<string>)
    ensures |r| == |rs| && forall k :: 0 <= k < |rs| ==> r[k] == rs[k].location
  {
    if rs == [] then [] else Locations(rs[..|rs| - 1]) + [rs[|rs| - 1].location]
  }

  function DevQuals(rs: seq<Response>): (r: seq<string>)
    ensures |r| == |rs| && forall k :: 0 <= k < |rs| ==> r[k] == rs[k].devQual
  {
    if rs == [] then [] else DevQuals(rs[..|rs| - 1]) + [rs[|rs| - 1].devQual]
  }

  function FormQuals(rs: seq<Response>): (r: seq<string>)
    ensures |r| == |rs| && forall k :: 0 <= k < |rs| ==> r[k] == rs[k].formQual
  {
    if rs == [] then [] else FormQuals(rs[..|rs| - 1]) + [rs[|rs| - 1].formQual]
  }

  function Populars(rs: seq<Response>): (r: seq<string>)
    ensures |r| == |rs| && forall k :: 0 <= k < |rs| ==> r[k] == rs[k].popular
  {
    if rs == [] then [] else Populars(rs[..|rs| - 1]) + [rs[|rs| - 1].popular]
  }

  /** How many of `xs` contain `sub`: a `__contains` filter's count. */
  function CountContaining(xs: seq<string>, sub: string): (n: nat)
    ensures n <= |xs|
    ensures n == |set i | 0 <= i < |xs| && HasSubstring(xs[i], sub)|
  {
    if xs == [] then 0
    else
      var m := |xs| - 1;
      var b := seq(|xs|, i requires 0 <= i < |xs| => HasSubstring(xs[i], sub));
      HitsSnoc(b);
      assert (set i | 0 <= i < |b| && b[i]) == set i | 0 <= i < |xs| && HasSubstring(xs[i], sub);
      assert (set i | 0 <= i < |b| - 1 && b[i]) == set i | 0 <= i < |xs[..m]| && HasSubstring(xs[..m][i], sub);
      CountContaining(xs[..m], sub) + (if HasSubstring(xs[m], sub) then 1 else 0)
  }

  /** One more flag adds one to the number of set flags when it is set. */
  lemma HitsSnoc(b: seq<bool>)
    requires b != []
    ensures |set i | 0 <= i < |b| && b[i]| == |set i | 0 <= i < |b| - 1 && b[i]| + (if b[|b| - 1] then 1 else 0)
  {
    var m := |b| - 1;
    var before := set i | 0 <= i < m && b[i];
    var all := set i | 0 <= i < |b| && b[i];
    if b[m] {
      assert all == before + {m};
    } else {
      assert all == before;
    }
  }

  /** `(?<!F)M` found in the determinants: an M not preceded by F. */
  predicate HumanM(determinants: string)
  {
    exists i :: 0 <= i < |determinants| && determinants[i] == 'M' && (i == 0 || determinants[i - 1] != 'F')
  }

  /** A regular-expression word character, taken as an ASCII letter, digit or underscore. */
  predicate WordChar(c: char)
  {
    'a' <= c <= 'z' || 'A' <= c <= 'Z' || '0' <= c <= '9' || c == '_'
  }

  /** `\b(W|D|DS|WS)\b` found in the location: one of the four codes with a word boundary on each side. */
  predicate WholeOrCommonDetail(location: string)
  {
    exists i, code :: 0 <= i <= |location| && code in {"W", "D", "DS", "WS"}
      && code <= location[i..]
      && (i == 0 || !WordChar(location[i - 1]))
      && (i + |code| == |location| || !WordChar(location[i + |code|]))
  }

  /** How many of the responses `pick` selects have the form quality `q`. */
  function QualityCount(rs: seq<Response>, pick: Response -> bool, q: string): nat
  {
    |set i | 0 <= i < |rs| && pick(rs[i]) && rs[i].formQual == q|
  }

  lemma QualityCountStep(rs: seq<Response>, pick: Response -> bool)
    requires rs != []
    ensures var n := |rs| - 1;
      forall q :: QualityCount(rs, pick, q) == QualityCount(rs[..n], pick, q) + (if pick(rs[n]) && rs[n].formQual == q then 1 else 0)
  {
    var n := |rs| - 1;
    forall q
      ensures QualityCount(rs, pick, q) == QualityCount(rs[..n], pick, q) + (if pick(rs[n]) && rs[n].formQual == q then 1 else 0)
    {
      var b := seq(|rs|, i requires 0 <= i < |rs| => pick(rs[i]) && rs[i].formQual == q);
      HitsSnoc(b);
      assert (set i | 0 <= i < |b| && b[i]) == set i | 0 <= i < |rs| && pick(rs[i]) && rs[i].formQual == q;
      assert (set i | 0 <= i < |b| - 1 && b[i]) == set i | 0 <= i < |rs[..n]| && pick(rs[..n][i]) && rs[..n][i].formQual == q;
    }
  }

  /** A response whose determinants hold an M not preceded by F. */
  predicate HasHumanM(r: Response)
  {
    HumanM(r.determinants)
  }

  /** The form qualities of the responses with a human movement M. */
  function MFormQuals(rs: seq<Response>): (r: seq<string>)
    ensures |r| <= |rs|
    ensures forall q :: Count(r, q) == QualityCount(rs, HasHumanM, q)
  {
    if rs == [] then []
    else
      var n := |rs| - 1;
      QualityCountStep(rs, HasHumanM);
      MFormQuals(rs[..n]) + (if HasHumanM(rs[n]) then [rs[n].formQual] else [])
  }

  /** A response located at W, D, WS or DS. */
  predicate IsWholeOrCommonDetail(r: Response)
  {
    WholeOrCommonDetail(r.location)
  }

  /** The form qualities of the W and D responses. */
  function WdFormQuals(rs: seq<Response>): (r: seq<string>)
    ensures |r| <= |rs|
    ensures forall q :: Count(r, q) == QualityCount(rs, IsWholeOrCommonDetail, q)
  {
    if rs == [] then []
    else
      var n := |rs| - 1;
      QualityCountStep(rs, IsWholeOrCommonDetail);
      WdFormQuals(rs[..n]) + (if IsWholeOrCommonDetail(rs[n]) then [rs[n].formQual] else [])
  }

  /** A response whose location uses white space. */
  predicate UsesWhiteSpace(r: Response)
  {
    HasSubstring(r.location, "S")
  }

  /** The form qualities of the responses using white space. */
  function SFormQuals(rs: seq<Response>): (r: seq<string>)
    ensures |r| <= |rs|
    ensures forall q :: Count(r, q) == QualityCount(rs, UsesWhiteSpace, q)
  {
    if rs == [] then []
    else
      var n := |rs| - 1;
      QualityCountStep(rs, UsesWhiteSpace);
      SFormQuals(rs[..n]) + (if UsesWhiteSpace(rs[n]) then [rs[n].formQual] else [])
  }

  /** The sum of the Z weights of the responses. */
  function ZSum(rs: seq<Response>): real
  {
    if rs == [] then 0.0 else ZSum(rs[..|rs| - 1]) + ZWeight(rs[|rs| - 1].card, rs[|rs| - 1].z)
  }

  // ---------------------------------------------------------------------------
  // the pass over the responses

  const ShadingCodes: set<string> := {"fy", "yf", "y", "ft", "tf", "t", "fv", "vf", "v", "c'f", "fc'", "c'"}
  const ColorCodes: set<string> := {"c", "cf", "fc"}

  /** The distinct elements of `xs`. */
  function Elements(xs: seq<string>): set<string>
  {
    set k | 0 <= k < |xs| :: xs[k]
  }

  /** A blend with both a shading and a chromatic colour determinant. */
  predicate ColorShadingBlend(codes: seq<string>)
  {
    AnyIn(codes, ShadingCodes) && AnyIn(codes, ColorCodes)
  }

  /** A blend with at least two different shading determinants. */
  predicate ShadingBlend(codes: seq<string>)
  {
    |ShadingCodes * Elements(codes)| >= 2
  }

  /** The pair marker of a response, if it has one. */
  function PairMark(r: Response): seq<string>
  {
    if r.pair != [] then [r.pair] else []
  }

  /**
   * What the pass over the responses gathers: the codes of single-determinant
   * responses and the pair markers, the codes of every response, the content
   * codes, the blend text, the final special scores, and two blend counts.
   */
  datatype Tally = Tally(
    singles: seq<string>,
    allCodes: seq<string>,
    contents: seq<string>,
    blends: string,
    specials: seq<string>,
    colorShadingBlends: nat,
    shadingBlends: nat)

  /** The pass's work for one response. */
  function Step(t: Tally, r: Response): Tally
  {
    var codes := FoldedCodes(r);
    var blend := IsBlend(r);
    Tally(
      t.singles + (if blend then [] else codes) + PairMark(r),
      t.allCodes + codes,
      t.contents + LoweredCodes(r),
      if blend then t.blends + Join(Determinants(r), ".") + "," else t.blends,
      t.specials + FinalSpecials(r),
      t.colorShadingBlends + (if blend && ColorShadingBlend(codes) then 1 else 0),
      t.shadingBlends + (if blend && ShadingBlend(codes) then 1 else 0))
  }

  /** The pass over the responses in order; only blend responses add to the two blend counts. */
  function TallyOf(rs: seq<Response>): (t: Tally)
    ensures t.colorShadingBlends <= BlendTotal(rs) && t.shadingBlends <= BlendTotal(rs)
  {
    if rs == [] then Tally([], [], [], [], [], 0, 0)
    else Step(TallyOf(rs[..|rs| - 1]), rs[|rs| - 1])
  }

  // ---------------------------------------------------------------------------
  // 1. location features

  datatype LocationFeatures = LocationFeatures(
    zf: nat, zsum: real, zest: real, zd: real, w: nat, d: nat, dd: nat, s: nat)

  /** Zd is Zsum minus Zest when the estimate is positive, and 0 otherwise. */
  function ZDifference(zsum: real, zest: real): real
  {
    if zest > 0.0 then zsum - zest else 0.0
  }

  /** The location features; each count is over the responses, so none exceeds R. */
  function LocationSection(rs: seq<Response>): (l: LocationFeatures)
    ensures l.zf <= |rs| && l.w <= |rs| && l.d <= |rs| && l.dd <= |rs| && l.s <= |rs|
  {
    var zf := CountIn(ZColumn(rs), ZCodes);
    var zsum := ZSum(rs);
    var zest := Zest(zf);
    var locations := Locations(rs);
    LocationFeatures(
      zf, zsum, zest, ZDifference(zsum, zest),
      CountContaining(locations, "W"),
      CountIn(locations, {"D", "DS"}),
      CountContaining(locations, "Dd"),
      CountContaining(locations, "S"))
  }

  // ---------------------------------------------------------------------------
  // 2. developmental quality, 3. form quality

  datatype DevQuality = DevQuality(plus: nat, o: nat, vPlus: nat, v: nat)

  /** The developmental-quality counts; a response has one quality, so together they are at most R. */
  function DevSection(rs: seq<Response>): (d: DevQuality)
    ensures d.plus + d.o + d.vPlus + d.v <= |rs|
  {
    var dq := DevQuals(rs);
    FourCounts(dq, "+", "o", "v/+", "v");
    DevQuality(Count(dq, "+"), Count(dq, "o"), Count(dq, "v/+"), Count(dq, "v"))
  }

  /** The counts of +, o, u, - and no form quality in a list of form qualities. */
  datatype QualityCounts = QualityCounts(plus: nat, o: nat, u: nat, minus: nat, none: nat)

  /** The five columns of a quality row; no quality is counted twice, so together they are at most the list's length. */
  function Qualities(fq: seq<string>): (q: QualityCounts)
    ensures q.plus + q.o + q.u + q.minus + q.none <= |fq|
  {
    FiveCounts(fq, "+", "o", "u", "-", "no");
    QualityCounts(Count(fq, "+"), Count(fq, "o"), Count(fq, "u"), Count(fq, "-"), Count(fq, "no"))
  }

  /**
   * The FQx and M-quality rows as written: the "none" column counts the text
   * "none", which no stored form quality can be.
   */
  function QualitiesAsWritten(fq: seq<string>): (q: QualityCounts)
    ensures q == Qualities(fq).(none := Count(fq, "none"))
  {
    QualityCounts(Count(fq, "+"), Count(fq, "o"), Count(fq, "u"), Count(fq, "-"), Count(fq, "none"))
  }

  datatype FormQuality = FormQuality(fqx: QualityCounts, mq: QualityCounts, wd: QualityCounts)

  /**
   * The FQx, M-quality and W+D rows; each row counts at most R responses.
   * The FQx and M-quality rows are counted as written, their last column
   * holding "none"; the W+D row's last column holds "no".
   */
  function FormSection(rs: seq<Response>): (f: FormQuality)
    ensures f.fqx.plus + f.fqx.o + f.fqx.u + f.fqx.minus + f.fqx.none <= |rs|
    ensures f.mq.plus + f.mq.o + f.mq.u + f.mq.minus + f.mq.none <= |rs|
    ensures f.wd.plus + f.wd.o + f.wd.u + f.wd.minus + f.wd.none <= |rs|
    ensures f.fqx.none == Count(FormQuals(rs), "none") && f.wd.none == Count(WdFormQuals(rs), "no")
  {
    FiveCounts(FormQuals(rs), "+", "o", "u", "-", "none");
    FiveCounts(MFormQuals(rs), "+", "o", "u", "-", "none");
    FormQuality(QualitiesAsWritten(FormQuals(rs)), QualitiesAsWritten(MFormQuals(rs)), Qualities(WdFormQuals(rs)))
  }

  // ---------------------------------------------------------------------------
  // 4. determinants, 5. contents

  datatype DeterminantCounts = DeterminantCounts(
    blends: string,
    m: nat, fm: nat, mInanimate: nat,
    fc: nat, cf: nat, c: nat, cn: nat,
    fcPrime: nat, cPrimeF: nat, cPrime: nat,
    ft: nat, tf: nat, t: nat, fv: nat, vf: nat, v: nat, fy: nat, yf: nat, y: nat,
    fr: nat, rf: nat, fd: nat, f: nat, pair: nat)

  function HumanMovementCount(xs: seq<string>): nat
  {
    Count(xs, "Ma") + Count(xs, "Mp") + Count(xs, "Ma-p")
  }

  function AnimalMovementCount(xs: seq<string>): nat
  {
    Count(xs, "fma") + Count(xs, "fmp") + Count(xs, "fma-p")
  }

  function InanimateMovementCount(xs: seq<string>): nat
  {
    Count(xs, "ma") + Count(xs, "mp") + Count(xs, "ma-p")
  }

  function DeterminantSection(t: Tally): DeterminantCounts
  {
    var s := t.singles;
    DeterminantCounts(
      t.blends,
      HumanMovementCount(s), AnimalMovementCount(s), InanimateMovementCount(s),
      Count(s, "fc"), Count(s, "cf"), Count(s, "c"), Count(s, "cn"),
      Count(s, "fc'"), Count(s, "c'f"), Count(s, "c'"),
      Count(s, "ft"), Count(s, "tf"), Count(s, "t"),
      Count(s, "fv"), Count(s, "vf"), Count(s, "v"),
      Count(s, "fy"), Count(s, "yf"), Count(s, "y"),
      Count(s, "fr"), Count(s, "rf"), Count(s, "fd"), Count(s, "f"), Count(s, "2"))
  }

  /** The codes the one-code determinant fields count, in field order. */
  const SingleDeterminantCodes: seq<string> := [
    "fc", "cf", "c", "cn", "fc'", "c'f", "c'", "ft", "tf", "t",
    "fv", "vf", "v", "fy", "yf", "y", "fr", "rf", "fd", "f", "2"]

  /** The one-code fields of the determinant section, in order. */
  function SingleDeterminantFields(dc: DeterminantCounts): seq<nat>
  {
    [dc.fc, dc.cf, dc.c, dc.cn, dc.fcPrime, dc.cPrimeF, dc.cPrime, dc.ft, dc.tf, dc.t,
     dc.fv, dc.vf, dc.v, dc.fy, dc.yf, dc.y, dc.fr, dc.rf, dc.fd, dc.f, dc.pair]
  }

  /** The three movement vocabularies, in field order. */
  const MovementGroups: seq<set<string>> := [HumanMovement, AnimalMovement, InanimateMovement]

  /** No one-code field is listed twice, and none counts a movement code. */
  lemma SingleDeterminantCodesApart()
    ensures Distinct(SingleDeterminantCodes)
    ensures forall i, j :: 0 <= i < |SingleDeterminantCodes| && 0 <= j < |MovementGroups| ==>
      SingleDeterminantCodes[i] !in MovementGroups[j]
  {
    SingleDeterminantCodesDistinct();
  }

  /** No one-code determinant field is listed twice. */
  lemma SingleDeterminantCodesDistinct()
    ensures Distinct(SingleDeterminantCodes)
  {
  }

  /** Each one-code field of the determinant section counts its own code. */
  lemma SingleDeterminantFieldsCount(t: Tally)
    ensures |SingleDeterminantFields(DeterminantSection(t))| == |SingleDeterminantCodes|
    ensures forall i :: 0 <= i < |SingleDeterminantCodes| ==>
      SingleDeterminantFields(DeterminantSection(t))[i] == Count(t.singles, SingleDeterminantCodes[i])
  {
  }

  /**
   * The numeric fields of the determinant section count the single-response
   * determinant codes: M the three human movement codes, FM the animal ones,
   * m the inanimate ones, and every other field its own code. No code is
   * counted under two fields, so together they are at most the number of codes.
   */
  lemma DeterminantSectionCounts(t: Tally)
    ensures var dc := DeterminantSection(t);
      dc.m == CountIn(t.singles, HumanMovement) && dc.fm == CountIn(t.singles, AnimalMovement)
      && dc.mInanimate == CountIn(t.singles, InanimateMovement)
    ensures |SingleDeterminantFields(DeterminantSection(t))| == |SingleDeterminantCodes|
    ensures forall i :: 0 <= i < |SingleDeterminantCodes| ==>
      SingleDeterminantFields(DeterminantSection(t))[i] == Count(t.singles, SingleDeterminantCodes[i])
    ensures var dc := DeterminantSection(t);
      Sum([dc.m, dc.fm, dc.mInanimate] + SingleDeterminantFields(dc)) <= |t.singles|
  {
    var s := t.singles;
    var dc := DeterminantSection(t);
    ThreeCountIn(s, "Ma", "Mp", "Ma-p");
    ThreeCountIn(s, "fma", "fmp", "fma-p");
    ThreeCountIn(s, "ma", "mp", "ma-p");
    SingleDeterminantFieldsCount(t);
    SingleDeterminantCodesApart();
    assert MovementGroups[0] !! MovementGroups[1] && MovementGroups[0] !! MovementGroups[2] && MovementGroups[1] !! MovementGroups[2];
    GroupedCounts(s, MovementGroups, [dc.m, dc.fm, dc.mInanimate], SingleDeterminantCodes, SingleDeterminantFields(dc));
  }

  datatype ContentCounts = ContentCounts(
    h: nat, hParen: nat, hd: nat, hdParen: nat, hx: nat,
    a: nat, aParen: nat, ad: nat, adParen: nat,
    an: nat, art: nat, ay: nat, bl: nat, bt: nat, cg: nat, cl: nat, ex: nat,
    fd: nat, fi: nat, ge: nat, hh: nat, ls: nat, na: nat, sc: nat, sx: nat, xy: nat, idio: nat)

  function ContentSection(t: Tally): ContentCounts
  {
    var c := t.contents;
    ContentCounts(
      Count(c, "h"), Count(c, "(h)"), Count(c, "hd"), Count(c, "(hd)"), Count(c, "hx"),
      Count(c, "a"), Count(c, "(a)"), Count(c, "ad"), Count(c, "(ad)"),
      Count(c, "an"), Count(c, "art"), Count(c, "ay"), Count(c, "bl"), Count(c, "bt"),
      Count(c, "cg"), Count(c, "cl"), Count(c, "ex"), Count(c, "fd"), Count(c, "fi"),
      Count(c, "ge"), Count(c, "hh"), Count(c, "ls"), Count(c, "na"), Count(c, "sc"),
      Count(c, "sx"), Count(c, "xy"), Count(c, "id"))
  }

  /** The content codes the content fields count, in field order. */
  const ContentCodes: seq<string> := [
    "h", "(h)", "hd", "(hd)", "hx", "a", "(a)", "ad", "(ad)",
    "an", "art", "ay", "bl", "bt", "cg", "cl", "ex", "fd", "fi",
    "ge", "hh", "ls", "na", "sc", "sx", "xy", "id"]

  /** The fields of the content section, in order. */
  function ContentFields(cc: ContentCounts): seq<nat>
  {
    [cc.h, cc.hParen, cc.hd, cc.hdParen, cc.hx, cc.a, cc.aParen, cc.ad, cc.adParen,
     cc.an, cc.art, cc.ay, cc.bl, cc.bt, cc.cg, cc.cl, cc.ex, cc.fd, cc.fi,
     cc.ge, cc.hh, cc.ls, cc.na, cc.sc, cc.sx, cc.xy, cc.idio]
  }

  /** No content code is listed twice. */
  lemma ContentCodesDistinct()
    ensures Distinct(ContentCodes)
  {
    HumanContentCodesApart();
    AnimalContentCodesApart();
    OtherContentCodesApart();
  }

  /** The five human content codes differ from every later one. */
  lemma HumanContentCodesApart()
    ensures forall i, j :: 0 <= i < 5 && i < j < |ContentCodes| ==> ContentCodes[i] != ContentCodes[j]
  {
  }

  /** The animal and anatomy content codes differ from every later one. */
  lemma AnimalContentCodesApart()
    ensures forall i, j :: 5 <= i < 12 && i < j < |ContentCodes| ==> ContentCodes[i] != ContentCodes[j]
  {
  }

  /** The remaining content codes differ from one another. */
  lemma OtherContentCodesApart()
    ensures forall i, j :: 12 <= i < j < |ContentCodes| ==> ContentCodes[i] != ContentCodes[j]
  {
  }

  /** Each field of the content section counts its own code. */
  lemma ContentFieldsCount(t: Tally)
    ensures |ContentFields(ContentSection(t))| == |ContentCodes|
    ensures forall i :: 0 <= i < |ContentCodes| ==> ContentFields(ContentSection(t))[i] == Count(t.contents, ContentCodes[i])
  {
  }

  /**
   * Each field of the content section is the number of times its code
   * occurs among the content codes of the responses; no code is counted
   * under two fields, so together they are at most the number of codes.
   */
  lemma ContentSectionCounts(t: Tally)
    ensures |ContentFields(ContentSection(t))| == |ContentCodes|
    ensures forall i :: 0 <= i < |ContentCodes| ==> ContentFields(ContentSection(t))[i] == Count(t.contents, ContentCodes[i])
    ensures Sum(ContentFields(ContentSection(t))) <= |t.contents|
  {
    ContentFieldsCount(t);
    ContentCodesDistinct();
    DistinctCounts(t.contents, ContentCodes, ContentFields(ContentSection(t)));
  }

  // ---------------------------------------------------------------------------
  // 6. approach

  /** The locations of the responses to one card, in order. */
  function CardLocations(rs: seq<Response>, card: string): seq<string>
  {
    if rs == [] then []
    else CardLocations(rs[..|rs| - 1], card)
         + (if rs[|rs| - 1].card == card then [rs[|rs| - 1].location] else [])
  }

  /** How many of the first `i` responses answer `card`. */
  function AnsweredBefore(rs: seq<Response>, card: string, i: nat): nat
    requires i <= |rs|
  {
    |set j | 0 <= j < i && rs[j].card == card|
  }

  lemma AnsweredBeforeStep(rs: seq<Response>, card: string, i: nat)
    requires i < |rs|
    ensures AnsweredBefore(rs, card, i + 1) == AnsweredBefore(rs, card, i) + (if rs[i].card == card then 1 else 0)
  {
    var b := seq(i + 1, j requires 0 <= j <= i => rs[j].card == card);
    HitsSnoc(b);
    assert (set j | 0 <= j < |b| && b[j]) == set j | 0 <= j < i + 1 && rs[j].card == card;
    assert (set j | 0 <= j < |b| - 1 && b[j]) == set j | 0 <= j < i && rs[j].card == card;
  }

  /**
   * The list for a card holds one location per response to that card, and
   * its k-th entry is the location of the response with k earlier responses
   * to the same card: the responses' own order.
   */
  lemma {:induction false} CardLocationsInOrder(rs: seq<Response>, card: string)
    ensures |CardLocations(rs, card)| == AnsweredBefore(rs, card, |rs|)
    ensures forall k :: 0 <= k < |CardLocations(rs, card)| ==> NthLocation(rs, card, k, CardLocations(rs, card)[k])
  {
    if rs != [] {
      var n := |rs| - 1;
      var init := rs[..n];
      CardLocationsInOrder(init, card);
      AnsweredBeforeStep(rs, card, n);
      AnsweredBeforePrefix(rs, n, card, n);
      var prev := CardLocations(init, card);
      var r := CardLocations(rs, card);
      assert r == prev + (if rs[n].card == card then [rs[n].location] else []);
      assert |init| == n && |prev| == AnsweredBefore(init, card, n) == AnsweredBefore(rs, card, n);
      forall k | 0 <= k < |r|
        ensures NthLocation(rs, card, k, r[k])
      {
        if k < |prev| {
          assert NthLocation(init, card, k, prev[k]);
          var i :| 0 <= i < |init| && init[i].card == card && AnsweredBefore(init, card, i) == k && init[i].location == prev[k];
          AnsweredBeforePrefix(rs, n, card, i);
          assert r[k] == prev[k] && rs[i] == init[i];
        } else {
          assert rs[n].card == card && r[k] == rs[n].location && AnsweredBefore(rs, card, n) == k;
        }
      }
    }
  }

  /** `loc` is the location of the response to `card` that has `k` earlier responses to the same card. */
  predicate NthLocation(rs: seq<Response>, card: string, k: nat, loc: string)
  {
    exists i :: 0 <= i < |rs| && rs[i].card == card && AnsweredBefore(rs, card, i) == k && rs[i].location == loc
  }

  /** The responses before `i` are the same in a prefix that holds them. */
  lemma AnsweredBeforePrefix(rs: seq<Response>, n: nat, card: string, i: nat)
    requires i <= n <= |rs|
    ensures AnsweredBefore(rs[..n], card, i) == AnsweredBefore(rs, card, i)
  {
    assert (set j | 0 <= j < i && rs[..n][j].card == card) == set j | 0 <= j < i && rs[j].card == card;
  }

  /** The card numbers in order, "1".."10". */
  const CardOrder: seq<string> := ["1", "2", "3", "4", "5", "6", "7", "8", "9", "10"]

  /** The ten approach fields, cards I..X: each card's locations joined by periods. */
  function ApproachSection(rs: seq<Response>): (a: seq<string>)
    ensures |a| == 10
    ensures forall k :: 0 <= k < 10 ==> a[k] == Join(CardLocations(rs, CardOrder[k]), ".")
  {
    seq(10, k requires 0 <= k < 10 => Join(CardLocations(rs, CardOrder[k]), "."))
  }

  /** Every card is one of "1".."10"; otherwise the approach table has no list for it. */
  predicate CardsKnown(rs: seq<Response>)
  {
    forall k :: 0 <= k < |rs| ==> rs[k].card in CardBase.CardNumbers
  }

  // ---------------------------------------------------------------------------
  // 7. special scores

  datatype SpecialScores = SpecialScores(
    dv: nat, dv2: nat, dr: nat, dr2: nat, inc: nat, inc2: nat, fab: nat, fab2: nat,
    alog: nat, con: nat, sum6: nat, wsum6: nat,
    psv: nat, ab: nat, ag: nat, cop: nat, mor: nat, per: nat, cp: nat, ghr: nat, phr: nat)

  /** The special scores; every level weight of WSum6 is between 1 and 7, so WSum6 lies between Sum6 and seven times Sum6. */
  function SpecialSection(t: Tally): (sp: SpecialScores)
    ensures sp.sum6 <= sp.wsum6 <= 7 * sp.sum6 && (sp.wsum6 == 0 <==> sp.sum6 == 0)
  {
    var s := t.specials;
    var dv, dv2, dr, dr2 := Count(s, "DV"), Count(s, "DV2"), Count(s, "DR"), Count(s, "DR2");
    var inc, inc2, fab, fab2 := Count(s, "INC"), Count(s, "INC2"), Count(s, "FAB"), Count(s, "FAB2");
    var alog, con := Count(s, "ALOG"), Count(s, "CON");
    SpecialScores(
      dv, dv2, dr, dr2, inc, inc2, fab, fab2, alog, con,
      dv + dv2 + dr + dr2 + inc + inc2 + fab + fab2 + alog + con,
      dv + 2 * dv2 + 2 * inc + 4 * inc2 + 3 * dr + 6 * dr2 + 4 * fab + 7 * fab2 + 5 * alog + 7 * con,
      Count(s, "PSV"), Count(s, "AB"), Count(s, "AG"), Count(s, "COP"), Count(s, "MOR"),
      Count(s, "PER"), Count(s, "CP"), Count(s, "GHR"), Count(s, "PHR"))
  }

  // ---------------------------------------------------------------------------
  // 8. core

  datatype Core = Core(
    r: nat, lambda: real,
    erlebnistypus: Ratio, ea: real, ebPer: real, eb: Ratio, es: real,
    dScore: int, adjEs: real, adjD: int,
    sumFM: nat, sumInanimateM: nat, sumCPrime: nat, sumV: nat, sumT: nat, sumY: nat)

  /** `int(x)` on a float: truncation toward zero. */
  function Trunc(x: real): int
  {
    if x >= 0.0 then x.Floor else -((-x).Floor)
  }

  /** The weighted colour sum: FC counts one half, CF one, C one and a half. */
  function WeightedColor(allCodes: seq<string>): real
  {
    0.5 * Count(allCodes, "fc") as real + Count(allCodes, "cf") as real + 1.5 * Count(allCodes, "c") as real
  }

  /** Lambda: F over the other responses, with 0.001 added to a zero denominator. */
  function Lambda(r: nat, f: nat): (l: real)
    ensures f <= r ==> 0.0 <= l
    ensures f < r ==> l * (r - f) as real == f as real
  {
    if r - f != 0 then f as real / (r - f) as real
    else f as real / ((r - f) as real + 0.001)
  }

  /** The experience-balance pervasiveness gate: EA of 4 or more, Lambda under 1, and a wide enough M/colour gap. */
  predicate EbPerApplies(ea: real, lambda: real, sumM: real, wsumc: real)
  {
    var gap := if sumM >= wsumc then sumM - wsumc else wsumc - sumM;
    ea >= 4.0 && lambda < 1.0 && ((4.0 <= ea <= 10.0 && gap > 2.0) || (ea > 10.0 && gap > 2.5))
  }

  function Max(a: real, b: real): real { if a >= b then a else b }
  function Min(a: real, b: real): real { if a <= b then a else b }

  /** EBper: the larger of M and WSumC over the smaller when the gate applies, 0 otherwise; None where the smaller is 0. */
  function EbPerValue(ea: real, lambda: real, sumM: real, wsumc: real): (v: Option<real>)
    ensures v.None? <==> EbPerApplies(ea, lambda, sumM, wsumc) && Min(sumM, wsumc) == 0.0
  {
    if EbPerApplies(ea, lambda, sumM, wsumc) then
      if Min(sumM, wsumc) == 0.0 then None else Some(Max(sumM, wsumc) / Min(sumM, wsumc))
    else Some(0.0)
  }

  /** The divisor of the D scores. */
  const DDivisor: real := 2.5000001

  /**
   * The core section with the EBper value `ebPer`: EA is the sum of EB's
   * two sides, es the sum of eb's, and the adjusted es never exceeds es.
   */
  function CoreSection(rs: seq<Response>, t: Tally, ebPer: real): (c: Core)
    ensures c.r == |rs| && c.ebPer == ebPer
    ensures c.ea == c.erlebnistypus.left + c.erlebnistypus.right
    ensures c.es == c.eb.left + c.eb.right && c.adjEs <= c.es
  {
    var all := t.allCodes;
    var r := |rs|;
    var f := Count(t.singles, "f");
    var sumM := HumanMovementCount(all);
    var wsumc := WeightedColor(all);
    var ea := sumM as real + wsumc;
    var sumFM := AnimalMovementCount(all);
    var summ := InanimateMovementCount(all);
    var sumCPrime := Count(all, "c'") + Count(all, "fc'") + Count(all, "c'f");
    var sumV := Count(all, "v") + Count(all, "vf") + Count(all, "fv");
    var sumT := Count(all, "t") + Count(all, "tf") + Count(all, "ft");
    var sumY := Count(all, "y") + Count(all, "yf") + Count(all, "fy");
    var shading := sumCPrime + sumT + sumV + sumY;
    var movement := sumFM + summ;
    var es := (movement + shading) as real;
    var extraM := if summ > 1 then summ - 1 else 0;
    var extraY := if sumY > 1 then sumY - 1 else 0;
    var adjEs := es - (extraM + extraY) as real;
    Core(
      r, Lambda(r, f),
      Ratio(sumM as real, wsumc), ea, ebPer, Ratio(movement as real, shading as real), es,
      Trunc((ea - es) / DDivisor), adjEs, Trunc((ea - adjEs) / DDivisor),
      sumFM, summ, sumCPrime, sumV, sumT, sumY)
  }

  /** The EBper of the responses, None where it divides by zero. */
  function EbPerOf(rs: seq<Response>, t: Tally): Option<real>
  {
    // the EA, lambda and EB sides of CoreSection(rs, t, _)
    var sumM := HumanMovementCount(t.allCodes) as real;
    var wsumc := WeightedColor(t.allCodes);
    EbPerValue(sumM + wsumc, Lambda(|rs|, Count(t.singles, "f")), sumM, wsumc)
  }

  // ---------------------------------------------------------------------------
  // 9. affect

  datatype Affect = Affect(fcProp: Ratio, pureC: nat, cPrimeProp: Ratio, afr: real, blendsR: Ratio)

  const LateCards: set<string> := {"8", "9", "10"}
  const EarlyCards: set<string> := {"1", "2", "3", "4", "5", "6", "7"}

  /** The affective ratio: responses to cards 8..10 over responses to cards 1..7, or 1 when there are none of the latter. */
  function Afr(cards: seq<string>): (a: real)
    ensures 0.0 <= a
    ensures CountIn(cards, EarlyCards) > 0 ==> a * CountIn(cards, EarlyCards) as real == CountIn(cards, LateCards) as real
  {
    var late := CountIn(cards, LateCards);
    var early := CountIn(cards, EarlyCards);
    if early != 0 then Quotient(late, early) else 1.0
  }

  /** `n / d` for counts, as Python's true division gives it. */
  function Quotient(n: nat, d: nat): (q: real)
    requires d > 0
    ensures 0.0 <= q && q * d as real == n as real
  {
    n as real / d as real
  }

  /** `len(blends.rstrip(',').split(','))`, the blend count as written. */
  function BlendsNumAsWritten(blends: string): (n: nat)
    ensures n >= 1
  {
    |SplitOn(RStripChar(blends, ','), ',')|
  }

  /** The blend count: the blend text ends every blend with one comma. */
  function BlendsNum(blends: string): (n: nat)
    ensures n == 0 <==> ',' !in blends
  {
    Occurrences(blends, ',')
  }

  /**
   * The affect section; over the record's own tally, the left of blends:R is
   * the number of blend responses, or 1 as written when there is none.
   */
  function AffectSection(rs: seq<Response>, t: Tally): (a: Affect)
    ensures a.blendsR.right == |rs| as real && 0.0 <= a.afr
    ensures t == TallyOf(rs) ==> a.blendsR.left == (if BlendTotal(rs) == 0 then 1 else BlendTotal(rs)) as real
  {
    BlendsCountedAsWritten(rs);
    var all := t.allCodes;
    var fc, cf, c := Count(all, "fc"), Count(all, "cf"), Count(all, "c");
    var sumCPrime := Count(all, "c'") + Count(all, "fc'") + Count(all, "c'f");
    Affect(
      Ratio(fc as real, (cf + c) as real), c,
      Ratio(sumCPrime as real, WeightedColor(all)),
      Afr(Cards(rs)),
      Ratio(BlendsNumAsWritten(t.blends) as real, |rs| as real))
  }

  // ---------------------------------------------------------------------------
  // 10. interpersonal, 11. ideation

  datatype Interpersonal = Interpersonal(ghrPhr: Ratio, aP: Ratio, humanCont: nat, isol: real)

  function ActiveCount(all: seq<string>): nat
  {
    Count(all, "ma") + Count(all, "Ma") + Count(all, "fma")
    + Count(all, "ma-p") + Count(all, "Ma-p") + Count(all, "fma-p")
  }

  function PassiveCount(all: seq<string>): nat
  {
    Count(all, "mp") + Count(all, "Mp") + Count(all, "fmp")
    + Count(all, "ma-p") + Count(all, "Ma-p") + Count(all, "fma-p")
  }

  /** The isolation index over `r` responses. */
  function Isolation(cc: ContentCounts, r: nat): real
    requires r > 0
  {
    (cc.bt + 2 * cc.cl + cc.ge + cc.ls + 2 * cc.na) as real / r as real
  }

  /** The interpersonal section with the isolation index `isol`; the human contents are at most the contents listed. */
  function InterpersonalSection(t: Tally, isol: real): (i: Interpersonal)
    ensures i.isol == isol && i.humanCont <= |t.contents|
  {
    FourCounts(t.contents, "h", "(h)", "hd", "(hd)");
    var sp := SpecialSection(t);
    var cc := ContentSection(t);
    Interpersonal(
      Ratio(sp.ghr as real, sp.phr as real),
      Ratio(ActiveCount(t.allCodes) as real, PassiveCount(t.allCodes) as real),
      cc.h + cc.hParen + cc.hd + cc.hdParen,
      isol)
  }

  datatype Ideation = Ideation(maMp: Ratio, lvl2: nat, intel: nat)

  /** The ideation section; the level-2 scores are among Sum6, and the intellectualisation index counts AB twice. */
  function IdeationSection(t: Tally): (i: Ideation)
    ensures i.lvl2 <= SpecialSection(t).sum6 && 2 * SpecialSection(t).ab <= i.intel
  {
    var all := t.allCodes;
    var sp := SpecialSection(t);
    var cc := ContentSection(t);
    Ideation(
      Ratio((Count(all, "Ma") + Count(all, "Ma-p")) as real, (Count(all, "Mp") + Count(all, "Ma-p")) as real),
      sp.dv2 + sp.dr2 + sp.inc2 + sp.fab2,
      2 * sp.ab + cc.art + cc.ay)
  }

  // ---------------------------------------------------------------------------
  // 12. mediation, 13. processing, 14. self perception

  datatype Mediation = Mediation(
    xMinusPer: real, xaPer: real, wdaPer: real, sMinus: nat, popular: nat, xPlusPer: real, xuPer: real)

  /** The denominator of WDA%: the W and D responses of +, o, u, - or no form quality. */
  function WdaDenominator(fq: FormQuality): nat
  {
    fq.wd.plus + fq.wd.o + fq.wd.u + fq.wd.minus + fq.wd.none
  }

  function XMinusPer(fq: FormQuality, r: nat): real
    requires r > 0
  {
    fq.fqx.minus as real / r as real
  }

  function XaPer(fq: FormQuality, r: nat): real
    requires r > 0
  {
    (fq.fqx.plus + fq.fqx.o + fq.fqx.u) as real / r as real
  }

  /** The mediation section; WDA% is a proportion, and S- and the populars are counts over the responses. */
  function MediationSection(rs: seq<Response>, fq: FormQuality): (m: Mediation)
    requires |rs| > 0 && WdaDenominator(fq) > 0
    ensures 0.0 <= m.wdaPer <= 1.0 && m.sMinus <= |rs| && m.popular <= |rs|
  {
    var r := |rs|;
    QuotientAtMost((fq.wd.plus + fq.wd.o + fq.wd.u) as real, WdaDenominator(fq) as real);
    FiveCounts(SFormQuals(rs), "-", "+", "o", "u", "no");
    Mediation(
      XMinusPer(fq, r), XaPer(fq, r),
      (fq.wd.plus + fq.wd.o + fq.wd.u) as real / WdaDenominator(fq) as real,
      Count(SFormQuals(rs), "-"),
      CountContaining(Populars(rs), "P"),
      (fq.fqx.plus + fq.fqx.o) as real / r as real,
      fq.fqx.u as real / r as real)
  }

  datatype Processing = Processing(w: nat, d: nat, dd: nat, wM: Ratio)

  function ProcessingSection(loc: LocationFeatures, core: Core): Processing
  {
    Processing(loc.w, loc.d, loc.dd, Ratio(loc.w as real, core.erlebnistypus.left))
  }

  /**
   * The processing section of the responses: W, D and Dd are the location
   * counts, and W:M sets W against EB's left side, the human movement sum
   * (Ma, Mp and Ma-p over all determinant codes), not the inanimate m.
   */
  lemma ProcessingCounts(rs: seq<Response>, t: Tally, ebPer: real)
    ensures var p := ProcessingSection(LocationSection(rs), CoreSection(rs, t, ebPer));
      p.w == CountContaining(Locations(rs), "W") && p.w <= |rs| && p.d <= |rs| && p.dd <= |rs|
      && p.wM == Ratio(p.w as real, CountIn(t.allCodes, HumanMovement) as real)
      && p.wM.right == CoreSection(rs, t, ebPer).erlebnistypus.left
  {
    ThreeCountIn(t.allCodes, "Ma", "Mp", "Ma-p");
  }

  datatype SelfPerception = SelfPerception(ego: real, frRf: nat, fdn: nat, anXy: nat, hProp: Ratio)

  /** The egocentricity index: three per reflection plus one per pair, over R. */
  function EgoIndex(reflections: nat, pairs: nat, r: nat): (ego: real)
    requires r > 0
    ensures 0.0 <= ego && ego * r as real == (3 * reflections + pairs) as real
  {
    (3 * reflections + pairs) as real / r as real
  }

  /** The self-perception section; the egocentricity index times R is three reflections per reflection response plus the pairs. */
  function SelfPerceptionSection(rs: seq<Response>, t: Tally, cc: ContentCounts): (s: SelfPerception)
    requires |rs| > 0
    ensures 0.0 <= s.ego && s.ego * |rs| as real == (3 * s.frRf + Count(t.singles, "2")) as real
  {
    var all := t.allCodes;
    var reflections := Count(all, "fr") + Count(all, "rf");
    SelfPerception(
      EgoIndex(reflections, Count(t.singles, "2"), |rs|),
      reflections, Count(all, "fd"), cc.an + cc.xy,
      Ratio(cc.h as real, (cc.hParen + cc.hd + cc.hdParen) as real))
  }

  // ---------------------------------------------------------------------------
  // properties of the sections

  /**
   * The Z sum never exceeds 6.5 per organisational response, and when every
   * card is one of the ten it is at least 1 per organisational response.
   */
  lemma {:induction false} ZSumBounds(rs: seq<Response>)
    ensures 0.0 <= ZSum(rs) <= 6.5 * CountIn(ZColumn(rs), ZCodes) as real
    ensures CardsKnown(rs) ==> CountIn(ZColumn(rs), ZCodes) as real <= ZSum(rs)
  {
    if rs != [] {
      var init := rs[..|rs| - 1];
      var r := rs[|rs| - 1];
      ZSumBounds(init);
      assert ZColumn(rs)[..|rs| - 1] == ZColumn(init);
      ZWeightBounds(r.card, r.z);
      if CardsKnown(rs) {
        assert CardsKnown(init);
        assert r.card in CardBase.CardNumbers;
        assert r.card in ZSumTable;
      }
    }
  }

  /** Zd is 0 for fewer than two organisational responses, and Zsum minus Zest otherwise. */
  lemma ZdOfLocation(rs: seq<Response>)
    ensures var loc := LocationSection(rs);
            (loc.zf < 2 ==> loc.zd == 0.0 && loc.zest == 0.0)
            && (loc.zf >= 2 ==> loc.zd == loc.zsum - loc.zest && loc.zest > 0.0)
  {
    ZestPositive(CountIn(ZColumn(rs), ZCodes));
  }

  /** The blend responses. */
  function BlendTotal(rs: seq<Response>): (n: nat)
    ensures n <= |rs|
  {
    if rs == [] then 0 else BlendTotal(rs[..|rs| - 1]) + (if IsBlend(rs[|rs| - 1]) then 1 else 0)
  }

  /** The text one blend adds is not empty and holds no comma. */
  lemma BlendPiece(r: Response)
    requires IsBlend(r)
    ensures Join(Determinants(r), ".") != [] && ',' !in Join(Determinants(r), ".")
  {
    var parts := Determinants(r);
    SplitRunsPieces(RemoveChar(r.determinants, ' '), CodeSeparators);
    if ',' in Join(parts, ".") {
      JoinChars(parts, ".", ',');
      assert false;
    }
  }

  /** The blend text of the responses: each blend's determinants joined by dots, then a comma. */
  function BlendsText(rs: seq<Response>): string
  {
    if rs == [] then []
    else
      var r := rs[|rs| - 1];
      BlendsText(rs[..|rs| - 1]) + (if IsBlend(r) then Join(Determinants(r), ".") + "," else [])
  }

  /** The pass gathers the blend text. */
  lemma {:induction false} TallyBlends(rs: seq<Response>)
    ensures TallyOf(rs).blends == BlendsText(rs)
  {
    if rs != [] {
      TallyBlends(rs[..|rs| - 1]);
    }
  }

  /** The blend text holds one comma per blend. */
  lemma {:induction false} BlendCommas(rs: seq<Response>)
    ensures BlendsNum(BlendsText(rs)) == BlendTotal(rs)
  {
    if rs != [] {
      var init := rs[..|rs| - 1];
      var r := rs[|rs| - 1];
      BlendCommas(init);
      if IsBlend(r) {
        BlendPiece(r);
        var p := Join(Determinants(r), ".");
        assert multiset(p)[','] == 0;
        assert multiset(BlendsText(rs)) == multiset(BlendsText(init)) + multiset(p) + multiset{','};
      } else {
        assert BlendsText(rs) == BlendsText(init) + [];
      }
    }
  }

  /** The blend text is empty or ends with a comma that no other comma precedes. */
  lemma {:induction false} BlendTextEnds(rs: seq<Response>)
    ensures var b := BlendsText(rs);
            b == [] || (b[|b| - 1] == ',' && (|b| >= 2 ==> b[|b| - 2] != ','))
  {
    if rs != [] {
      var init := rs[..|rs| - 1];
      var r := rs[|rs| - 1];
      if IsBlend(r) {
        BlendPiece(r);
        var p := Join(Determinants(r), ".");
        var b := BlendsText(rs);
        assert b == BlendsText(init) + p + ",";
        assert b[|b| - 2] == p[|p| - 1];
      } else {
        BlendTextEnds(init);
        assert BlendsText(rs) == BlendsText(init) + [];
      }
    }
  }

  /** The corrected blend count is the number of blend responses. */
  lemma BlendsCounted(rs: seq<Response>)
    ensures BlendsNum(TallyOf(rs).blends) == BlendTotal(rs)
  {
    TallyBlends(rs);
    BlendCommas(rs);
  }

  /**
   * The blend count as written agrees with the number of blend responses,
   * except that it reports 1 when there is no blend.
   */
  lemma BlendsCountedAsWritten(rs: seq<Response>)
    ensures BlendsNumAsWritten(TallyOf(rs).blends) == if BlendTotal(rs) == 0 then 1 else BlendTotal(rs)
  {
    TallyBlends(rs);
    BlendsCounted(rs);
    BlendTextEnds(rs);
    CountAsWritten(TallyOf(rs).blends);
  }

  /** On text that is empty or ends with one comma, the count as written is the comma count, or 1 when there is none. */
  lemma CountAsWritten(b: string)
    requires b == [] || (b[|b| - 1] == ',' && (|b| >= 2 ==> b[|b| - 2] != ','))
    ensures BlendsNumAsWritten(b) == if BlendsNum(b) == 0 then 1 else BlendsNum(b)
  {
    if b != [] {
      var stripped := RStripChar(b, ',');
      assert stripped == b[..|b| - 1];
      assert b == stripped + [','];
      SplitOnPieces(stripped, ',');
      assert multiset(b)[','] == multiset(stripped)[','] + 1;
    } else {
      assert SplitOn(RStripChar(b, ','), ',') == [[]];
    }
  }

  /** The codes of the blend responses, in order. */
  function BlendCodes(rs: seq<Response>): seq<string>
  {
    if rs == [] then []
    else BlendCodes(rs[..|rs| - 1]) + (if IsBlend(rs[|rs| - 1]) then FoldedCodes(rs[|rs| - 1]) else [])
  }

  /** The pair markers of the responses, in order. */
  function PairMarks(rs: seq<Response>): seq<string>
  {
    if rs == [] then [] else PairMarks(rs[..|rs| - 1]) + PairMark(rs[|rs| - 1])
  }

  /**
   * The single list and the blend codes together are every code plus the
   * pair markers: a code lands in the single list exactly when its response
   * is not a blend.
   */
  lemma {:induction false} SinglesAndPairs(rs: seq<Response>)
    ensures multiset(TallyOf(rs).singles) + multiset(BlendCodes(rs))
            == multiset(TallyOf(rs).allCodes) + multiset(PairMarks(rs))
  {
    if rs != [] {
      var init := rs[..|rs| - 1];
      var r := rs[|rs| - 1];
      SinglesAndPairs(init);
      var before, after := TallyOf(init), TallyOf(rs);
      var codes := FoldedCodes(r);
      var blend := IsBlend(r);
      assert after.singles == before.singles + (if blend then [] else codes) + PairMark(r);
      assert after.allCodes == before.allCodes + codes;
      assert BlendCodes(rs) == BlendCodes(init) + (if blend then codes else []);
      assert PairMarks(rs) == PairMarks(init) + PairMark(r);
      MoveCodes(multiset(before.singles), multiset(BlendCodes(init)), multiset(before.allCodes),
                multiset(PairMarks(init)), multiset(codes), multiset(PairMark(r)), blend);
    }
  }

  /** One response's step keeps the balance between the single list and all codes. */
  lemma MoveCodes(singles: multiset<string>, blends: multiset<string>, all: multiset<string>,
                  pairs: multiset<string>, codes: multiset<string>, pair: multiset<string>, blend: bool)
    requires singles + blends == all + pairs
    ensures (singles + (if blend then multiset{} else codes) + pair) + (blends + (if blend then codes else multiset{}))
            == (all + codes) + (pairs + pair)
  {
    var left := (singles + (if blend then multiset{} else codes) + pair) + (blends + (if blend then codes else multiset{}));
    var right := (all + codes) + (pairs + pair);
    forall x
      ensures left[x] == right[x]
    {
      assert (singles + blends)[x] == (all + pairs)[x];
    }
  }

  /** The pair markers of responses whose pair is blank or "2" are all "2". */
  lemma {:induction false} PairMarksOfTwos(rs: seq<Response>)
    requires forall k :: 0 <= k < |rs| ==> rs[k].pair in {"", "2"}
    ensures forall x :: x != "2" ==> multiset(PairMarks(rs))[x] == 0
  {
    if rs != [] {
      PairMarksOfTwos(rs[..|rs| - 1]);
    }
  }

  /** With pair fields blank or "2", no determinant is counted more often among the single responses than among all responses. */
  lemma SinglesWithinAll(rs: seq<Response>)
    requires forall k :: 0 <= k < |rs| ==> rs[k].pair in {"", "2"}
    ensures forall x :: x != "2" ==> Count(TallyOf(rs).singles, x) <= Count(TallyOf(rs).allCodes, x)
  {
    var t := TallyOf(rs);
    SinglesAndPairs(rs);
    PairMarksOfTwos(rs);
    forall x | x != "2"
      ensures Count(t.singles, x) <= Count(t.allCodes, x)
    {
      assert (multiset(t.singles) + multiset(BlendCodes(rs)))[x]
             == (multiset(t.allCodes) + multiset(PairMarks(rs)))[x];
    }
  }

  /** So the M, FM and m of the determinant section are within the core's sums. */
  lemma MovementWithinSums(rs: seq<Response>, ebPer: real)
    requires forall k :: 0 <= k < |rs| ==> rs[k].pair in {"", "2"}
    ensures var t := TallyOf(rs);
            var dc := DeterminantSection(t);
            var core := CoreSection(rs, t, ebPer);
            dc.m as real <= core.erlebnistypus.left && dc.fm <= core.sumFM && dc.mInanimate <= core.sumInanimateM
  {
    SinglesWithinAll(rs);
    var t := TallyOf(rs);
    MovementCountsBelow(t.singles, t.allCodes);
  }

  lemma MovementCountsBelow(singles: seq<string>, all: seq<string>)
    requires forall x :: x != "2" ==> Count(singles, x) <= Count(all, x)
    ensures HumanMovementCount(singles) <= HumanMovementCount(all)
    ensures AnimalMovementCount(singles) <= AnimalMovementCount(all)
    ensures InanimateMovementCount(singles) <= InanimateMovementCount(all)
  {
    assert Count(singles, "Ma") <= Count(all, "Ma");
    assert Count(singles, "Mp") <= Count(all, "Mp");
    assert Count(singles, "Ma-p") <= Count(all, "Ma-p");
    assert Count(singles, "fma") <= Count(all, "fma");
    assert Count(singles, "fmp") <= Count(all, "fmp");
    assert Count(singles, "fma-p") <= Count(all, "fma-p");
    assert Count(singles, "ma") <= Count(all, "ma");
    assert Count(singles, "mp") <= Count(all, "mp");
    assert Count(singles, "ma-p") <= Count(all, "ma-p");
  }

  /** `int` truncates toward zero: the result has the sign of `x` and lies within 1 of it. */
  lemma TruncTowardZero(x: real)
    ensures x >= 0.0 ==> 0 <= Trunc(x) && Trunc(x) as real <= x < Trunc(x) as real + 1.0
    ensures x < 0.0 ==> Trunc(x) <= 0 && Trunc(x) as real - 1.0 < x <= Trunc(x) as real
  {
  }

  lemma TruncMonotone(x: real, y: real)
    requires x <= y
    ensures Trunc(x) <= Trunc(y)
  {
    TruncTowardZero(x);
    TruncTowardZero(y);
  }

  /** The adjusted es never exceeds es, so the adjusted D score is never below the D score. */
  lemma AdjustedDNotBelow(rs: seq<Response>, t: Tally, ebPer: real)
    ensures var core := CoreSection(rs, t, ebPer);
            core.adjEs <= core.es && core.dScore <= core.adjD
            && core.es == core.eb.left + core.eb.right
  {
    var core := CoreSection(rs, t, ebPer);
    TruncMonotone((core.ea - core.es) / DDivisor, (core.ea - core.adjEs) / DDivisor);
  }

  /** With F among the R responses, Lambda is non-negative, and below 1 exactly when F is less than R - F. */
  lemma LambdaBelowOne(r: nat, f: nat)
    requires f <= r
    ensures 0.0 <= Lambda(r, f)
    ensures 0 < r ==> (Lambda(r, f) < 1.0 <==> 2 * f < r)
  {
    if r - f != 0 {
      QuotientBelow(f as real, (r - f) as real, 1.0);
    } else {
      QuotientBelow(f as real, 0.001, 1.0);
    }
  }

  /** A part over its whole lies between 0 and 1. */
  lemma QuotientAtMost(a: real, d: real)
    requires 0.0 <= a <= d && 0.0 < d
    ensures 0.0 <= a / d <= 1.0
  {
    QuotientBelow(a, d, 1.0);
  }

  /** For a positive divisor, a quotient is below a bound exactly when the dividend is below the bound times the divisor. */
  lemma QuotientBelow(a: real, d: real, bound: real)
    requires 0.0 <= a && 0.0 < d
    ensures 0.0 <= a / d
    ensures a / d < bound <==> a < bound * d
  {
    var q := a / d;
    assert q * d == a;
    if q < bound {
      assert q * d < bound * d;
    } else {
      assert q * d >= bound * d;
    }
  }

  /** EBper is 0 unless the gate applies, and above 1 when it applies. */
  lemma EbPerAboveOne(ea: real, lambda: real, sumM: real, wsumc: real)
    requires 0.0 <= sumM && 0.0 <= wsumc
    ensures !EbPerApplies(ea, lambda, sumM, wsumc) ==> EbPerValue(ea, lambda, sumM, wsumc) == Some(0.0)
    ensures EbPerApplies(ea, lambda, sumM, wsumc) && EbPerValue(ea, lambda, sumM, wsumc).Some?
            ==> EbPerValue(ea, lambda, sumM, wsumc).value > 1.0
  {
    if EbPerApplies(ea, lambda, sumM, wsumc) && Min(sumM, wsumc) != 0.0 {
      var v := Max(sumM, wsumc) / Min(sumM, wsumc);
      assert v * Min(sumM, wsumc) == Max(sumM, wsumc);
    }
  }

  /** With every card one of the ten, each response is on an early card (I..VII) or a late one (VIII..X). */
  lemma {:induction false} CardsPartition(rs: seq<Response>)
    requires CardsKnown(rs)
    ensures CountIn(Cards(rs), LateCards) + CountIn(Cards(rs), EarlyCards) == |rs|
  {
    if rs != [] {
      var init := rs[..|rs| - 1];
      CardsPartition(init);
      var cs := Cards(init);
      assert Cards(rs) == cs + [rs[|rs| - 1].card];
      assert (cs + [rs[|rs| - 1].card])[..|cs|] == cs;
    }
  }

  /**
   * Over cards that are each late or early, as CardsPartition shows for a
   * record whose cards are known, the Afr is the late-card responses over
   * the rest; with none of the latter it is the placeholder 1.
   */
  lemma AfrValue(cards: seq<string>)
    requires CountIn(cards, LateCards) + CountIn(cards, EarlyCards) == |cards|
    ensures var late := CountIn(cards, LateCards);
            (late == |cards| ==> Afr(cards) == 1.0)
            && (late < |cards| ==> Afr(cards) == late as real / (|cards| - late) as real)
  {
    var late := CountIn(cards, LateCards);
    var early := CountIn(cards, EarlyCards);
    if late < |cards| {
      assert (|cards| - late) as real == early as real;
    }
  }

  /** Every W+D code starts with W or D, and only the code D is followed by a letter in DdS. */
  lemma WdCodeStart(code: string)
    requires code in {"W", "D", "DS", "WS"}
    ensures code != [] && (code[0] == 'W' || code[0] == 'D')
    ensures code == "D" || (|code| >= 1 && code != [code[0]] ==> |code| == 2 && code[1] == 'S')
  {
  }

  /** The pattern does not match Dd or DdS: their D runs into the letter d. */
  lemma WdRejected(location: string)
    requires location == "Dd" || location == "DdS"
    ensures !WholeOrCommonDetail(location)
  {
    forall i, code | 0 <= i <= |location| && code in {"W", "D", "DS", "WS"} && code <= location[i..]
      ensures i + |code| < |location| && WordChar(location[i + |code|])
    {
      WdCodeStart(code);
      assert location[i] == code[0];
      assert i == 0;
      assert code == "D";
    }
  }

  /** The pattern matches W, WS, D and DS whole. */
  lemma WdAccepted(location: string)
    requires location in {"W", "WS", "D", "DS"}
    ensures WholeOrCommonDetail(location)
  {
    assert location <= location[0..];
    assert location in {"W", "D", "DS", "WS"} && 0 + |location| == |location|;
  }

  /** Among the location codes the form accepts, the W+D pattern picks W, WS, D and DS. */
  lemma WdLocations(location: string)
    requires location in LocationSymbols
    ensures WholeOrCommonDetail(location) <==> location in {"W", "WS", "D", "DS"}
  {
    if location in {"W", "WS", "D", "DS"} {
      WdAccepted(location);
    } else {
      WdRejected(location);
    }
  }

  /**
   * Every stored form quality is one of +, o, u, - and "no", so the corrected
   * rows count each response exactly once, while the "none" column as written
   * never counts anything.
   */
  lemma {:induction false} QualitiesPartition(fq: seq<string>)
    requires forall k :: 0 <= k < |fq| ==> fq[k] in FormQualitySymbols
    ensures var q := Qualities(fq);
            q.plus + q.o + q.u + q.minus + q.none == |fq|
  {
    if fq != [] {
      var init := fq[..|fq| - 1];
      QualitiesPartition(init);
      assert fq == init + [fq[|fq| - 1]];
    }
  }

  /**
   * As written, the "none" column never counts a stored form quality, so the
   * rows miss exactly the responses whose form quality is "no".
   */
  lemma {:induction false} QualitiesMissNo(fq: seq<string>)
    requires forall k :: 0 <= k < |fq| ==> fq[k] in FormQualitySymbols
    ensures var q := QualitiesAsWritten(fq);
            q.none == 0 && q.plus + q.o + q.u + q.minus + q.none == |fq| - Count(fq, "no")
  {
    QualitiesPartition(fq);
    if fq != [] {
      var init := fq[..|fq| - 1];
      QualitiesMissNo(init);
      assert fq == init + [fq[|fq| - 1]];
    }
  }
}
