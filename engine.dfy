/**
 * The structural summary as one calculation over a client's responses: the
 * sections in the order the summary assigns them, and the point at which a
 * run stops when a step raises. The fields assigned before the step that
 * raises keep their new values; the others keep their previous ones.
 */
module ScoringEngine {
  import opened PyText
  import opened ScoringRecords
  import opened ScoringSections
  import opened ScoringIndices
  import Forms
  import CardBase

  /** The fields of a structural summary, by section. */
  datatype Summary = Summary(
    location: LocationFeatures,
    dev: DevQuality,
    form: FormQuality,
    determinants: DeterminantCounts,
    contents: ContentCounts,
    approach: seq<string>,
    specials: SpecialScores,
    core: Core,
    affect: Affect,
    interpersonal: Interpersonal,
    ideation: Ideation,
    mediation: Mediation,
    processing: Processing,
    selfPerception: SelfPerception,
    indices: Indices,
    hviExcept: Option<Ratio>)

  /**
   * Why a run stops: a card outside I..X (no approach list for it), an EBper
   * whose smaller side is 0, no responses (the isolation index divides by R),
   * or no W or D response with a form quality (WDA% divides by 0).
   */
  datatype EngineError = UnknownCard | EbPerDivisionByZero | NoResponses | NoWdaDenominator

  datatype Outcome = Outcome(summary: Summary, error: Option<EngineError>)

  /** The responses as a run leaves them: each card mapped and each special rewritten. */
  function Rewritten(rs: seq<Response>): (ws: seq<Response>)
    ensures |ws| == |rs|
  {
    if rs == [] then [] else Rewritten(rs[..|rs| - 1]) + [Rewrite(rs[|rs| - 1])]
  }

  /** Each response is rewritten on its own, in place. */
  lemma {:induction false} RewrittenAt(rs: seq<Response>, k: nat)
    requires k < |rs|
    ensures Rewritten(rs)[k] == Rewrite(rs[k])
  {
    if k < |rs| - 1 {
      RewrittenAt(rs[..|rs| - 1], k);
    }
  }

  /** X-% and XA%, the mediation rates over R. */
  datatype Rates = Rates(xMinusPer: real, xaPer: real)

  /**
   * What the steps of a run compute from the rewritten responses. `core`
   * holds every core field but EBper, and `interpersonal` every field but the
   * isolation index; a value whose step divides by zero is None.
   */
  datatype Values = Values(
    location: LocationFeatures,
    dev: DevQuality,
    form: FormQuality,
    determinants: DeterminantCounts,
    contents: ContentCounts,
    cardsKnown: bool,
    approach: seq<string>,
    specials: SpecialScores,
    core: Core,
    ebPer: Option<real>,
    affect: Affect,
    interpersonal: Interpersonal,
    isol: Option<real>,
    ideation: Ideation,
    rates: Option<Rates>,
    mediation: Option<Mediation>,
    processing: Processing,
    selfPerception: Option<SelfPerception>,
    colorShadingBlends: nat)

  /**
   * The HVI exception, when the ratio of whole to partial human and animal
   * contents divides by zero: the whole count over 0.
   */
  function HviExcept(cc: ContentCounts): (e: Option<Ratio>)
    ensures e.Some? <==> cc.hd + cc.ad == 0
    ensures e.Some? ==> e.value.right == 0.0 && e.value.left == (cc.h + cc.a) as real
  {
    if cc.hd + cc.ad == 0 then Some(Ratio((cc.h + cc.a) as real, 0.0)) else None
  }

  /** The values of a run over the rewritten responses `ws`, whose pass gathered `t`. */
  function ValuesOf(ws: seq<Response>, t: Tally): (v: Values)
    ensures v.cardsKnown == CardsKnown(ws) && v.approach == ApproachSection(ws)
    ensures v.isol.None? <==> ws == []
    ensures v.rates.None? <==> ws == []
    ensures v.selfPerception.None? <==> ws == []
    ensures v.mediation.None? <==> ws == [] || WdaDenominator(v.form) == 0
  {
    var r := |ws|;
    var loc := LocationSection(ws);
    var form := FormSection(ws);
    var cc := ContentSection(t);
    var sp := SpecialSection(t);
    var core := CoreSection(ws, t, 0.0);
    var affect := AffectSection(ws, t);
    var idea := IdeationSection(t);
    var isol := if r == 0 then None else Some(Isolation(cc, r));
    var inter := InterpersonalSection(t, 0.0);
    var ebPer := EbPerOf(ws, t);
    var med := if r == 0 || WdaDenominator(form) == 0 then None else Some(MediationSection(ws, form));
    var self := if r == 0 then None else Some(SelfPerceptionSection(ws, t, cc));
    Values(
      loc, DevSection(ws), form, DeterminantSection(t), cc,
      CardsKnown(ws), ApproachSection(ws), sp,
      core, ebPer, affect, inter, isol, idea,
      if r == 0 then None else Some(Rates(XMinusPer(form, r), XaPer(form, r))),
      med,
      ProcessingSection(loc, core),
      self,
      t.colorShadingBlends)
  }

  /**
   * A run stores the values section by section in the order the summary
   * assigns them, and stops at the first step that raises: a card outside
   * the table of approach lists, an EBper dividing by zero, the isolation
   * index with no responses, WDA% with no denominator. Fields after that
   * step keep their values from `prev`. The indices come after all of these.
   */
  function Assemble(prev: Summary, v: Values): (o: Outcome)
    ensures o.summary.indices == prev.indices && o.summary.hviExcept == prev.hviExcept
    ensures o.error.None? <==>
              v.cardsKnown && v.ebPer.Some? && v.isol.Some? && v.rates.Some? && v.mediation.Some? && v.selfPerception.Some?
  {
    var a := ApproachStage(CountsStage(prev, v), v);
    if a.error.Some? then a
    else
      var c := CoreStage(a.summary, v);
      if c.error.Some? then c
      else
        var i := InterpersonalStage(c.summary, v);
        if i.error.Some? then i
        else Finish(i.summary, v)
  }

  /** The location features, developmental and form qualities, determinants and contents. */
  function CountsStage(s: Summary, v: Values): (r: Summary)
    ensures r.location == v.location && r.dev == v.dev && r.form == v.form
    ensures r.determinants == v.determinants && r.contents == v.contents
    ensures r.(location := s.location, dev := s.dev, form := s.form, determinants := s.determinants, contents := s.contents) == s
  {
    s.(location := v.location, dev := v.dev, form := v.form, determinants := v.determinants, contents := v.contents)
  }

  /** The approach lists, which a card outside I..X stops, then the special scores. */
  function ApproachStage(s: Summary, v: Values): (o: Outcome)
    ensures o.error.Some? <==> !v.cardsKnown
    ensures o.error.Some? ==> o.error == Some(UnknownCard) && o.summary == s
    ensures o.error.None? ==> o.summary.approach == v.approach && o.summary.specials == v.specials
    ensures o.summary.(approach := s.approach, specials := s.specials) == s
  {
    if !v.cardsKnown then Outcome(s, Some(UnknownCard))
    else Outcome(s.(approach := v.approach, specials := v.specials), None)
  }

  /** Every core field, then EBper, which a side of EB at 0 stops. */
  function CoreStage(s: Summary, v: Values): (o: Outcome)
    ensures o.error.Some? <==> v.ebPer.None?
    ensures o.error.Some? ==> o.error == Some(EbPerDivisionByZero) && o.summary.core.ebPer == s.core.ebPer
    ensures o.error.None? ==> o.summary.core.ebPer == v.ebPer.value
    ensures o.summary.core.(ebPer := v.core.ebPer) == v.core
    ensures o.summary.(core := s.core) == s
  {
    if v.ebPer.None? then Outcome(s.(core := v.core.(ebPer := s.core.ebPer)), Some(EbPerDivisionByZero))
    else Outcome(s.(core := v.core.(ebPer := v.ebPer.value)), None)
  }

  /**
   * The affect section and the interpersonal one up to the isolation index,
   * which an empty record stops; then the isolation index, the ideation
   * section, and X-% and XA% of the mediation section.
   */
  function InterpersonalStage(s: Summary, v: Values): (o: Outcome)
    ensures o.error.Some? <==> v.isol.None? || v.rates.None?
    ensures o.summary.affect == v.affect
    ensures o.summary.interpersonal.(isol := v.interpersonal.isol) == v.interpersonal
    ensures o.error.Some? ==>
      (o.error == Some(NoResponses) && o.summary.interpersonal.isol == s.interpersonal.isol
       && o.summary.ideation == s.ideation && o.summary.mediation == s.mediation)
    ensures o.error.None? ==>
      (o.summary.interpersonal.isol == v.isol.value && o.summary.ideation == v.ideation
       && o.summary.mediation.xMinusPer == v.rates.value.xMinusPer && o.summary.mediation.xaPer == v.rates.value.xaPer
       && o.summary.mediation.(xMinusPer := s.mediation.xMinusPer, xaPer := s.mediation.xaPer) == s.mediation)
    ensures o.summary.(affect := s.affect, interpersonal := s.interpersonal, ideation := s.ideation, mediation := s.mediation) == s
  {
    if v.isol.None? || v.rates.None? then
      Outcome(s.(affect := v.affect, interpersonal := v.interpersonal.(isol := s.interpersonal.isol)), Some(NoResponses))
    else
      Outcome(s.(affect := v.affect, interpersonal := v.interpersonal.(isol := v.isol.value), ideation := v.ideation,
                 mediation := s.mediation.(xMinusPer := v.rates.value.xMinusPer, xaPer := v.rates.value.xaPer)),
              None)
  }

  /**
   * The last sections of a run, from the summary `s` whose sections up to
   * the ideation are stored: WDA% stops it when it has no denominator;
   * otherwise the mediation, processing and self-perception sections are
   * stored.
   */
  function Finish(s: Summary, v: Values): (o: Outcome)
    ensures o.error.Some? <==> v.mediation.None? || v.selfPerception.None?
    ensures o.error.Some? ==> o.error == Some(NoWdaDenominator) && o.summary == s
    ensures o.error.None? ==>
      (o.summary.mediation == v.mediation.value && o.summary.processing == v.processing
       && o.summary.selfPerception == v.selfPerception.value)
    ensures o.summary.(mediation := s.mediation, processing := s.processing, selfPerception := s.selfPerception) == s
  {
    if v.mediation.None? || v.selfPerception.None? then Outcome(s, Some(NoWdaDenominator))
    else Outcome(s.(mediation := v.mediation.value, processing := v.processing,
                    selfPerception := v.selfPerception.value), None)
  }

  /**
   * The summary `s` with its indices computed from its own sections, and
   * the HVI exception set when the HVI ratio divides by zero.
   */
  function WithIndices(s: Summary, colorShadingBlends: nat, age: int): Summary
  {
    var hvi := HviExcept(s.contents);
    s.(indices := IndexSection(s.location, s.form, s.contents, s.specials, s.core, s.affect, s.interpersonal,
                               s.ideation, s.mediation, s.selfPerception, colorShadingBlends, age),
       hviExcept := if hvi.Some? then hvi else s.hviExcept)
  }

  /** A run over the rewritten responses `ws`, whose pass gathered `t`: the sections, then the indices. */
  function Run(prev: Summary, ws: seq<Response>, t: Tally, age: int): (o: Outcome)
    ensures o.error.Some? ==> o.summary.indices == prev.indices && o.summary.hviExcept == prev.hviExcept
    ensures o.error.None? ==>
              var s := o.summary;
              s.indices == IndexSection(s.location, s.form, s.contents, s.specials, s.core, s.affect, s.interpersonal,
                                        s.ideation, s.mediation, s.selfPerception, t.colorShadingBlends, age)
  {
    var o := Assemble(prev, ValuesOf(ws, t));
    if o.error.None? then Outcome(WithIndices(o.summary, t.colorShadingBlends, age), None) else o
  }

  /** The summary a run over the rewritten responses `ws` leaves behind, starting from `prev`, and the error that stopped it. */
  function Calculate(prev: Summary, ws: seq<Response>, age: int): (o: Outcome)
    ensures o.error.None? ==> ws != [] && CardsKnown(ws) && WdaDenominator(FormSection(ws)) > 0
  {
    ValuesErrors(prev, ws, TallyOf(ws), age);
    Run(prev, ws, TallyOf(ws), age)
  }

  // ---------------------------------------------------------------------------
  // when a run stops

  /**
   * A run stops at the first failing step, in the order unknown card, EBper
   * divisor, no responses, WDA% denominator.
   */
  lemma AssembleErrors(prev: Summary, v: Values)
    requires v.isol.None? <==> v.rates.None?
    ensures var e := Assemble(prev, v).error;
            (e == Some(UnknownCard) <==> !v.cardsKnown)
            && (e == Some(EbPerDivisionByZero) <==> v.cardsKnown && v.ebPer.None?)
            && (e == Some(NoResponses) <==> v.cardsKnown && v.ebPer.Some? && v.isol.None?)
            && (e == Some(NoWdaDenominator) <==>
                  (v.cardsKnown && v.ebPer.Some? && v.isol.Some?
                   && (v.mediation.None? || v.selfPerception.None?)))
            && (e.None? <==>
                  (v.cardsKnown && v.ebPer.Some? && v.isol.Some? && v.mediation.Some?
                   && v.selfPerception.Some?))
  {
  }

  /** An empty record never reaches the EBper division: its EA is 0. */
  lemma EmptyEbPer()
    ensures EbPerOf([], TallyOf([])).Some?
  {
    var t := TallyOf([]);
    assert t.allCodes == [];
    assert HumanMovementCount(t.allCodes) == 0 && WeightedColor(t.allCodes) == 0.0;
  }

  /**
   * A run over the rewritten responses `ws`, whose pass gathered `t`, stops
   * at an unknown card first, then at the EBper division, then at an empty
   * record, then at a WDA% without a denominator, and finishes otherwise.
   */
  lemma ValuesErrors(prev: Summary, ws: seq<Response>, t: Tally, age: int)
    ensures var e := Run(prev, ws, t, age).error;
            (e == Some(UnknownCard) <==> !CardsKnown(ws))
            && (e == Some(EbPerDivisionByZero) <==> CardsKnown(ws) && EbPerOf(ws, t).None?)
            && (e == Some(NoResponses) <==> CardsKnown(ws) && EbPerOf(ws, t).Some? && ws == [])
            && (e == Some(NoWdaDenominator) <==>
                  CardsKnown(ws) && EbPerOf(ws, t).Some? && ws != [] && WdaDenominator(FormSection(ws)) == 0)
            && (e.None? <==>
                  CardsKnown(ws) && EbPerOf(ws, t).Some? && ws != [] && WdaDenominator(FormSection(ws)) > 0)
  {
    AssembleErrors(prev, ValuesOf(ws, t));
  }

  /** A run over no responses always stops at the isolation index. */
  lemma EmptyRecordStops(prev: Summary, age: int)
    ensures Calculate(prev, [], age).error == Some(NoResponses)
  {
    EmptyEbPer();
    ValuesErrors(prev, [], TallyOf([]), age);
  }

  /** Cards the form accepts, Roman or Arabic, never stop a run. */
  lemma {:induction false} AcceptedCardsKnown(rs: seq<Response>)
    requires forall k :: 0 <= k < |rs| ==> rs[k].card in Forms.CardSymbols
    ensures CardsKnown(Rewritten(rs))
  {
    CardBase.RomanTablesInverse();
    forall k | 0 <= k < |rs|
      ensures Rewritten(rs)[k].card in CardBase.CardNumbers
    {
      var card := rs[k].card;
      RewrittenAt(rs, k);
      assert Rewritten(rs)[k].card == MappedCard(card);
      if card in CardBase.RomanToNum {
        assert CardBase.RomanToNum[card] in CardBase.RomanToNum.Values;
      }
    }
  }

  /** A run stopped by an unknown card has stored the first five sections and nothing else. */
  lemma UnknownCardKeepsRest(prev: Summary, v: Values)
    requires !v.cardsKnown
    ensures Assemble(prev, v).summary
            == prev.(location := v.location, dev := v.dev, form := v.form,
                     determinants := v.determinants, contents := v.contents)
  {
  }

  /**
   * A run stopped by the EBper division has also stored the approach lists,
   * the special scores and every core field but EBper.
   */
  lemma EbPerStopKeepsRest(prev: Summary, v: Values)
    requires v.cardsKnown && v.ebPer.None?
    ensures Assemble(prev, v).summary
            == prev.(location := v.location, dev := v.dev, form := v.form,
                     determinants := v.determinants, contents := v.contents,
                     approach := v.approach, specials := v.specials,
                     core := v.core.(ebPer := prev.core.ebPer))
  {
  }

  /**
   * A run over no responses has also stored the core and affect sections and
   * every interpersonal field but the isolation index.
   */
  lemma NoResponsesKeepsRest(prev: Summary, v: Values)
    requires v.cardsKnown && v.ebPer.Some? && v.isol.None?
    ensures Assemble(prev, v).summary
            == prev.(location := v.location, dev := v.dev, form := v.form,
                     determinants := v.determinants, contents := v.contents,
                     approach := v.approach, specials := v.specials,
                     core := v.core.(ebPer := v.ebPer.value), affect := v.affect,
                     interpersonal := v.interpersonal.(isol := prev.interpersonal.isol))
  {
  }

  /**
   * A run stopped by the WDA% denominator has also stored the interpersonal
   * and ideation sections and X-% and XA%, and keeps the rest of mediation,
   * processing, self perception, the indices and the HVI ratio.
   */
  lemma WdaStopKeepsRest(prev: Summary, v: Values)
    requires v.cardsKnown && v.ebPer.Some? && v.isol.Some? && v.rates.Some? && v.mediation.None?
    ensures Assemble(prev, v).summary
            == prev.(location := v.location, dev := v.dev, form := v.form,
                     determinants := v.determinants, contents := v.contents,
                     approach := v.approach, specials := v.specials,
                     core := v.core.(ebPer := v.ebPer.value), affect := v.affect,
                     interpersonal := v.interpersonal.(isol := v.isol.value), ideation := v.ideation,
                     mediation := prev.mediation.(xMinusPer := v.rates.value.xMinusPer, xaPer := v.rates.value.xaPer))
  {
  }

  /**
   * The sections of a run that reaches the indices depend on the previous
   * summary in nothing: only the indices and the HVI exception, which come
   * next, are still the previous ones.
   */
  lemma CompleteRunReplaces(p1: Summary, p2: Summary, v: Values)
    requires Assemble(p1, v).error.None?
    ensures Assemble(p2, v).error.None?
    ensures Assemble(p1, v).summary.(indices := p2.indices, hviExcept := p2.hviExcept) == Assemble(p2, v).summary
  {
  }

  /**
   * Computing the indices changes only the indices and the HVI exception,
   * and keeps the previous HVI exception when there are partial human or
   * animal contents.
   */
  lemma WithIndicesFrame(s: Summary, colorShadingBlends: nat, age: int)
    ensures WithIndices(s, colorShadingBlends, age).(indices := s.indices, hviExcept := s.hviExcept) == s
    ensures s.contents.hd + s.contents.ad != 0 ==> WithIndices(s, colorShadingBlends, age).hviExcept == s.hviExcept
    ensures s.contents.hd + s.contents.ad == 0 ==> WithIndices(s, colorShadingBlends, age).hviExcept == HviExcept(s.contents)
  {
  }

  /** The indices are computed from the sections alone, whatever indices and HVI exception the summary held. */
  lemma IndicesIgnorePrevious(s: Summary, indices: Indices, hvi: Option<Ratio>, colorShadingBlends: nat, age: int)
    ensures WithIndices(s.(indices := indices, hviExcept := hvi), colorShadingBlends, age).indices
            == WithIndices(s, colorShadingBlends, age).indices
  {
  }

  /**
   * Rewriting the rewritten responses changes nothing, so a second run over
   * what a first run left reads the same responses and computes the same
   * summary.
   */
  lemma {:induction false} RewrittenIdempotent(rs: seq<Response>)
    ensures Rewritten(Rewritten(rs)) == Rewritten(rs)
  {
    forall k | 0 <= k < |rs|
      ensures Rewritten(Rewritten(rs))[k] == Rewritten(rs)[k]
    {
      RewrittenAt(rs, k);
      RewrittenAt(Rewritten(rs), k);
      RewriteIdempotent(rs[k]);
    }
  }

  // ---------------------------------------------------------------------------
  // what a complete run guarantees

  /** Three distinct values occur at most as often together as the list is long. */
  lemma {:induction false} ThreeCounts(xs: seq<string>, a: string, b: string, c: string)
    requires a != b && b != c && a != c
    ensures Count(xs, a) + Count(xs, b) + Count(xs, c) <= |xs|
  {
    if xs != [] {
      var init := xs[..|xs| - 1];
      ThreeCounts(init, a, b, c);
      assert xs == init + [xs[|xs| - 1]];
    }
  }

  lemma QuotientMonotone(a: real, b: real, d: real)
    requires 0.0 <= a <= b && 0.0 < d
    ensures 0.0 <= a / d <= b / d
  {
    assert a / d * d == a;
    assert b / d * d == b;
  }

  /** No response has two form qualities: +, o and u together, and -, o and u together, are at most R. */
  lemma FormCountsBelow(ws: seq<Response>)
    ensures var fqx := FormSection(ws).fqx;
            fqx.plus + fqx.o + fqx.u <= |ws| && fqx.minus + fqx.o + fqx.u <= |ws|
  {
    ThreeCounts(FormQuals(ws), "+", "o", "u");
    ThreeCounts(FormQuals(ws), "-", "o", "u");
  }

  /** The form-quality percentages lie between 0 and 1, and X+% is at most XA%. */
  lemma PercentagesBounded(ws: seq<Response>, fq: FormQuality)
    requires |ws| > 0 && WdaDenominator(fq) > 0
    requires fq.fqx.plus + fq.fqx.o + fq.fqx.u <= |ws| && fq.fqx.minus <= |ws|
    ensures var m := MediationSection(ws, fq);
            0.0 <= m.xaPer <= 1.0 && 0.0 <= m.wdaPer <= 1.0 && 0.0 <= m.xPlusPer <= m.xaPer
            && 0.0 <= m.xMinusPer <= 1.0 && 0.0 <= m.xuPer <= 1.0
  {
    var r := |ws| as real;
    var plus, o, u := fq.fqx.plus, fq.fqx.o, fq.fqx.u;
    QuotientAtMost((plus + o + u) as real, r);
    QuotientAtMost(fq.fqx.minus as real, r);
    QuotientAtMost(u as real, r);
    QuotientAtMost((fq.wd.plus + fq.wd.o + fq.wd.u) as real, WdaDenominator(fq) as real);
    QuotientMonotone((plus + o) as real, (plus + o + u) as real, r);
  }
}
