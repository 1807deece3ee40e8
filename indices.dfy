/**
 * The special indices of the structural summary: each is a string of "o"
 * (criterion met) and "x" (not met) marks, with the number of marks met.
 */
module ScoringIndices {
  import opened PyText
  import opened ScoringTables
  import opened ScoringSections

  /** One mark per criterion: 'o' when it is met, 'x' otherwise. */
  function Marks(criteria: seq<bool>): (s: string)
    ensures |s| == |criteria|
    ensures forall k :: 0 <= k < |criteria| ==> s[k] == (if criteria[k] then 'o' else 'x')
  {
    if criteria == [] then []
    else Marks(criteria[..|criteria| - 1]) + [if criteria[|criteria| - 1] then 'o' else 'x']
  }

  /** The number of criteria met. */
  function Met(criteria: seq<bool>): nat
  {
    if criteria == [] then 0
    else Met(criteria[..|criteria| - 1]) + (if criteria[|criteria| - 1] then 1 else 0)
  }

  /** `marks.count("o")` is the number of criteria met, at most the number of criteria. */
  lemma {:induction false} MarksCounted(criteria: seq<bool>)
    ensures Occurrences(Marks(criteria), 'o') == Met(criteria) <= |criteria|
  {
    if criteria != [] {
      var init := criteria[..|criteria| - 1];
      MarksCounted(init);
      assert Marks(criteria) == Marks(init) + [if criteria[|criteria| - 1] then 'o' else 'x'];
    }
  }

  // ---------------------------------------------------------------------------
  // the criteria

  /** The perceptual-thinking index, PTI1..PTI5. */
  function PtiCriteria(r: nat, fq: FormQuality, med: Mediation, idea: Ideation, sp: SpecialScores, age: int): (c: seq<bool>)
    ensures |c| == 5
  {
    [med.xaPer < 0.70 && med.wdaPer < 0.75,
     med.xMinusPer > 0.29,
     idea.lvl2 > 2 && sp.fab2 > 0,
     (r < 17 && sp.wsum6 > LowRWsum6(age)) || (r > 16 && sp.wsum6 > HighRWsum6(age)),
     fq.mq.minus > 1 || med.xMinusPer > 0.40]
  }

  /** DEPI3: the egocentricity index above the age's normal range without reflections, or below it. */
  function EgoCriterion(ego: real, frRf: nat, age: int): (met: bool)
    ensures EgoTable(age).first <= ego <= EgoTable(age).second ==> !met
    ensures ego < EgoTable(age).first ==> met
  {
    var range := EgoTable(age);
    (ego > range.second && frRf == 0) || ego < range.first
  }

  /**
   * DEPI3 as written: the table's lower bound is read as the upper cut-off
   * and its upper bound as the lower one.
   */
  function EgoCriterionAsWritten(ego: real, frRf: nat, age: int): (met: bool)
    ensures ego < EgoTable(age).second ==> met
  {
    var range := EgoTable(age);
    (ego > range.first && frRf == 0) || ego < range.second
  }

  /** The depression index, DEPI1..DEPI7. */
  function DepiCriteria(loc: LocationFeatures, core: Core, affect: Affect, inter: Interpersonal,
                        idea: Ideation, sp: SpecialScores, self: SelfPerception,
                        colorShadingBlends: nat, age: int): (c: seq<bool>)
    ensures |c| == 7
  {
    [core.sumV > 0 || self.fdn > 2,
     colorShadingBlends > 0 || loc.s > 2,
     EgoCriterionAsWritten(self.ego, self.frRf, age),
     affect.afr < AfrCriterion(age) || affect.blendsR.left < 4.0,
     core.eb.right > core.eb.left || core.sumCPrime > 2,
     sp.mor > 2 || idea.intel > 3,
     sp.cop < 2 || inter.isol > 0.24]
  }

  /** The coping-deficit index, CDI1..CDI5. */
  function CdiCriteria(core: Core, affect: Affect, inter: Interpersonal, sp: SpecialScores,
                       cc: ContentCounts, age: int): (c: seq<bool>)
    ensures |c| == 5
  {
    [core.ea < 6.0 || core.adjD < 0,
     sp.cop < 2 && sp.ag < 2,
     core.erlebnistypus.right < 2.5 || affect.afr < AfrCriterion(age),
     inter.aP.right > inter.aP.left + 1.0 || cc.h < 2,
     core.sumT > 1 || inter.isol > 0.24 || cc.fd > 0]
  }

  /** The suicide constellation, SCON1..SCON12. */
  function SconCriteria(loc: LocationFeatures, core: Core, affect: Affect, med: Mediation,
                        sp: SpecialScores, self: SelfPerception, cc: ContentCounts,
                        colorShadingBlends: nat): (c: seq<bool>)
    ensures |c| == 12
  {
    [core.sumV + self.fdn > 2,
     colorShadingBlends > 0,
     self.ego < 0.31 || self.ego > 0.44,
     sp.mor > 3,
     loc.zd > 3.5 || loc.zd < -3.5,
     core.es > core.ea,
     affect.fcProp.right > affect.fcProp.left,
     med.xPlusPer < 0.70,
     loc.s > 3,
     med.popular < 3 || med.popular > 8,
     cc.h < 2,
     core.r < 17]
  }

  /**
   * HVI7 as the summary computes it: the ratio of whole human and animal
   * contents to partial ones under 4; a ratio over no partial contents
   * raises, and the criterion is then unmet.
   */
  predicate WholePartQuotient(cc: ContentCounts)
  {
    cc.hd + cc.ad > 0 && (cc.h + cc.a) as real / (cc.hd + cc.ad) as real < 4.0
  }

  /** HVI7 without the division: whole contents under four times the partial ones, which must exist. */
  predicate WholePartCriterion(cc: ContentCounts)
  {
    cc.hd + cc.ad > 0 && cc.h + cc.a < 4 * (cc.hd + cc.ad)
  }

  /** The hypervigilance index, HVI2..HVI8 (HVI1 is the premise, no texture). */
  function HviCriteria(loc: LocationFeatures, inter: Interpersonal, cc: ContentCounts): (c: seq<bool>)
    ensures |c| == 7
  {
    [loc.zf > 12,
     loc.zd > 3.5,
     loc.s > 3,
     inter.humanCont > 6,
     cc.hParen + cc.aParen + cc.hdParen + cc.adParen > 3,
     WholePartCriterion(cc),
     cc.cg > 3]
  }

  /** The obsessive style index, OBS1..OBS9. */
  function ObsCriteria(loc: LocationFeatures, fq: FormQuality, med: Mediation): (c: seq<bool>)
    ensures |c| == 9
  {
    var o1, o2, o3, o4, o5 := loc.dd > 3, loc.zf > 12, loc.zd > 3.0, med.popular > 7, fq.fqx.plus > 1;
    [o1, o2, o3, o4, o5,
     o1 && o2 && o3 && o4 && o5,
     Met([o1, o2, o3, o4]) >= 2 && fq.fqx.plus > 3,
     Met([o1, o2, o3, o4, o5]) >= 3 && med.xPlusPer > 0.89,
     fq.fqx.plus > 3 && med.xPlusPer > 0.89]
  }

  // ---------------------------------------------------------------------------
  // the index fields

  datatype Indices = Indices(
    pti: string, sumPti: nat,
    depi: string, sumDepi: nat,
    cdi: string, sumCdi: nat,
    scon: string, sumScon: nat,
    hviPremise: bool, hvi: string, sumHvi: nat,
    obs: string, obsPosi: bool)

  /**
   * The index fields of a summary whose sections are computed: one mark per
   * criterion, each sum at most the number of criteria, and the HVI premise
   * exactly when there is no texture.
   */
  function IndexSection(loc: LocationFeatures, fq: FormQuality, cc: ContentCounts, sp: SpecialScores,
                        core: Core, affect: Affect, inter: Interpersonal, idea: Ideation,
                        med: Mediation, self: SelfPerception, colorShadingBlends: nat, age: int): (ix: Indices)
    ensures |ix.pti| == 5 && |ix.depi| == 7 && |ix.cdi| == 5 && |ix.scon| == 12 && |ix.hvi| == 7 && |ix.obs| == 9
    ensures ix.sumPti <= 5 && ix.sumDepi <= 7 && ix.sumCdi <= 5 && ix.sumScon <= 12 && ix.sumHvi <= 7
    ensures ix.hviPremise <==> core.sumT == 0
  {
    var pti := Marks(PtiCriteria(core.r, fq, med, idea, sp, age));
    var depi := Marks(DepiCriteria(loc, core, affect, inter, idea, sp, self, colorShadingBlends, age));
    var cdi := Marks(CdiCriteria(core, affect, inter, sp, cc, age));
    var scon := Marks(SconCriteria(loc, core, affect, med, sp, self, cc, colorShadingBlends));
    var hvi := Marks(HviCriteria(loc, inter, cc));
    var obs := Marks(ObsCriteria(loc, fq, med));
    MarksCounted(PtiCriteria(core.r, fq, med, idea, sp, age));
    MarksCounted(DepiCriteria(loc, core, affect, inter, idea, sp, self, colorShadingBlends, age));
    MarksCounted(CdiCriteria(core, affect, inter, sp, cc, age));
    MarksCounted(SconCriteria(loc, core, affect, med, sp, self, cc, colorShadingBlends));
    MarksCounted(HviCriteria(loc, inter, cc));
    Indices(
      pti, Occurrences(pti, 'o'),
      depi, Occurrences(depi, 'o'),
      cdi, Occurrences(cdi, 'o'),
      scon, Occurrences(scon, 'o'),
      core.sumT == 0, hvi, Occurrences(hvi, 'o'),
      obs, 'o' in obs[|obs| - 4..])
  }

  // ---------------------------------------------------------------------------
  // properties

  /** Each index has its number of criteria, and each count is the number of criteria met. */
  lemma IndexCounts(loc: LocationFeatures, fq: FormQuality, cc: ContentCounts, sp: SpecialScores,
                    core: Core, affect: Affect, inter: Interpersonal, idea: Ideation,
                    med: Mediation, self: SelfPerception, colorShadingBlends: nat, age: int)
    ensures var ix := IndexSection(loc, fq, cc, sp, core, affect, inter, idea, med, self, colorShadingBlends, age);
            |ix.pti| == 5 && ix.sumPti == Met(PtiCriteria(core.r, fq, med, idea, sp, age)) <= 5
            && |ix.depi| == 7 && ix.sumDepi == Met(DepiCriteria(loc, core, affect, inter, idea, sp, self, colorShadingBlends, age)) <= 7
            && |ix.cdi| == 5 && ix.sumCdi == Met(CdiCriteria(core, affect, inter, sp, cc, age)) <= 5
            && |ix.scon| == 12 && ix.sumScon == Met(SconCriteria(loc, core, affect, med, sp, self, cc, colorShadingBlends)) <= 12
            && |ix.hvi| == 7 && ix.sumHvi == Met(HviCriteria(loc, inter, cc)) <= 7
            && |ix.obs| == 9
            && (ix.hviPremise <==> core.sumT == 0)
  {
    MarksCounted(PtiCriteria(core.r, fq, med, idea, sp, age));
    MarksCounted(DepiCriteria(loc, core, affect, inter, idea, sp, self, colorShadingBlends, age));
    MarksCounted(CdiCriteria(core, affect, inter, sp, cc, age));
    MarksCounted(SconCriteria(loc, core, affect, med, sp, self, cc, colorShadingBlends));
    MarksCounted(HviCriteria(loc, inter, cc));
  }

  /**
   * The obsessive style is positive exactly when one of OBS6..OBS9 is met;
   * OBS6 needs all of OBS1..OBS5, and OBS7 and OBS9 each imply OBS5.
   */
  lemma ObsPositive(loc: LocationFeatures, fq: FormQuality, med: Mediation)
    ensures var c := ObsCriteria(loc, fq, med);
            var obs := Marks(c);
            (obs[5] == 'o' <==> forall k :: 0 <= k < 5 ==> obs[k] == 'o')
            && (obs[6] == 'o' ==> obs[4] == 'o')
            && (obs[8] == 'o' ==> obs[4] == 'o')
            && (('o' in obs[|obs| - 4..]) <==> c[5] || c[6] || c[7] || c[8])
  {
    var c := ObsCriteria(loc, fq, med);
    var obs := Marks(c);
    var tail := obs[|obs| - 4..];
    assert tail == [obs[5], obs[6], obs[7], obs[8]];
    if c[0] && c[1] && c[2] && c[3] && c[4] {
      forall k | 0 <= k < 5
        ensures obs[k] == 'o'
      {
      }
    } else {
      assert exists k :: 0 <= k < 5 && obs[k] == 'x';
    }
  }

  /** HVI7 reads the same with the division as without it. */
  lemma WholePartRatio(cc: ContentCounts)
    ensures WholePartQuotient(cc) <==> WholePartCriterion(cc)
  {
    if cc.hd + cc.ad > 0 {
      QuotientBelow((cc.h + cc.a) as real, (cc.hd + cc.ad) as real, 4.0);
    }
  }

  /** PTI4 met at some age stays met at every older age with the same record: its WSum6 cut-offs only fall with age. */
  lemma PtiAgeMonotone(r: nat, fq: FormQuality, med: Mediation, idea: Ideation, sp: SpecialScores,
                       younger: int, older: int)
    requires younger <= older
    ensures PtiCriteria(r, fq, med, idea, sp, younger)[3] ==> PtiCriteria(r, fq, med, idea, sp, older)[3]
  {
    AgeBandsNonIncreasing(younger, older);
  }

  /**
   * The corrected DEPI3 is met exactly outside the age's normal range: below
   * it, or above it without reflections.
   */
  lemma EgoCriterionOutsideRange(ego: real, frRf: nat, age: int)
    ensures var range := EgoTable(age);
            (range.first <= ego <= range.second ==> !EgoCriterion(ego, frRf, age))
            && (ego < range.first ==> EgoCriterion(ego, frRf, age))
            && (ego > range.second && frRf == 0 ==> EgoCriterion(ego, frRf, age))
  {
  }

  /**
   * As written, every index below the range's upper bound meets DEPI3, so an
   * adult index of 0.40 with no reflection is flagged although it lies inside
   * the normal range 0.33..0.44.
   */
  lemma EgoCriterionSwapped(ego: real, frRf: nat, age: int)
    ensures ego < EgoTable(age).second ==> EgoCriterionAsWritten(ego, frRf, age)
    ensures age >= 17 ==> EgoCriterionAsWritten(0.40, 0, age) && !EgoCriterion(0.40, 0, age)
  {
    AgeBandEnds(age);
  }

  /** DEPI4's blend test gives the same answer with the count as written and with the corrected one. */
  lemma BlendTestUnaffected(rs: seq<ScoringRecords.Response>)
    ensures (BlendsNumAsWritten(TallyOf(rs).blends) < 4) == (BlendsNum(TallyOf(rs).blends) < 4)
  {
    BlendsCounted(rs);
    BlendsCountedAsWritten(rs);
  }
}
