/**
 * The two model classes whose methods update their own fields: a client,
 * whose age is derived from the birth and test dates when it is saved, and
 * a structural summary, which a run fills section by section from the
 * client's responses while it maps each response's card and rewrites its
 * special scores in place.
 */
module ScoringModels {
  import opened PyText
  import opened Forms
  import opened ScoringRecords
  import opened ScoringSections
  import opened ScoringIndices
  import opened ScoringEngine

  // ---------------------------------------------------------------------------
  // the client's age

  /** Whole years from `birth` to `test`: the year difference, one less before the birthday. */
  function AgeAt(birth: Date, test: Date): int
  {
    if test.month < birth.month || (test.month == birth.month && test.day < birth.day)
    then test.year - birth.year - 1
    else test.year - birth.year
  }

  /**
   * The age counts the birthdays up to the test date: the birthday of that
   * age is not after the test date, and the next one is.
   */
  lemma AgeCountsBirthdays(birth: Date, test: Date)
    ensures var age := AgeAt(birth, test);
            !Before(test, Date(birth.year + age, birth.month, birth.day))
            && Before(test, Date(birth.year + age + 1, birth.month, birth.day))
  {
  }

  /** The age is negative exactly when the test date precedes the birth date. */
  lemma AgeNegativeIffTestFirst(birth: Date, test: Date)
    ensures AgeAt(birth, test) < 0 <==> Before(test, birth)
  {
  }

  /** A client the client form accepts never gets a negative age. */
  lemma AcceptedClientAge(birth: Date, test: Date)
    requires CleanClient(Some(birth), Some(test)).None?
    ensures AgeAt(birth, test) >= 0
  {
    AgeNegativeIffTestFirst(birth, test);
  }

  class Client {
    var birthdate: Date
    var testDate: Date
    /** The age at the test date; empty until the client is saved. */
    var age: Option<int>

    constructor(birthdate: Date, testDate: Date)
      ensures this.birthdate == birthdate && this.testDate == testDate && age.None?
    {
      this.birthdate := birthdate;
      this.testDate := testDate;
      age := None;
    }

    method CalculateAge()
      modifies this
      ensures birthdate == old(birthdate) && testDate == old(testDate)
      ensures age == Some(AgeAt(birthdate, testDate))
    {
      if testDate.month < birthdate.month
         || (testDate.month == birthdate.month && testDate.day < birthdate.day) {
        age := Some(testDate.year - birthdate.year - 1);
      } else {
        age := Some(testDate.year - birthdate.year);
      }
    }

    /** Saving recomputes the age from the dates. */
    method Save()
      modifies this
      ensures birthdate == old(birthdate) && testDate == old(testDate)
      ensures age == Some(AgeAt(birthdate, testDate))
    {
      CalculateAge();
    }
  }

  // ---------------------------------------------------------------------------
  // the passes of a run over the responses

  /** The first loop of a run: every card in Roman numerals becomes its Arabic number. */
  method MapCards(rs: seq<Response>) returns (ms: seq<Response>)
    ensures |ms| == |rs|
    ensures forall k :: 0 <= k < |rs| ==> ms[k] == MapCard(rs[k])
  {
    ms := [];
    for i := 0 to |rs|
      invariant |ms| == i
      invariant forall k :: 0 <= k < i ==> ms[k] == MapCard(rs[k])
    {
      ms := ms + [rs[i].(card := MappedCard(rs[i].card))];
    }
  }

  /** Scoring a mapped response reads its rewritten special scores as the ones it wrote. */
  lemma StepOfRewritten(t: Tally, m: Response)
    requires MapCard(m) == m
    ensures Step(t, Rewrite(m)) == Step(t, m)
  {
    RewriteIdempotent(m);
  }

  /** The rewritten responses grow by one rewritten response. */
  lemma RewrittenSnoc(xs: seq<Response>, x: Response)
    ensures Rewritten(xs + [x]) == Rewritten(xs) + [Rewrite(x)]
  {
    assert (xs + [x])[..|xs|] == xs;
  }

  /** The tally grows by one step. */
  lemma TallyOfSnoc(xs: seq<Response>, x: Response)
    ensures TallyOf(xs + [x]) == Step(TallyOf(xs), x)
  {
    assert (xs + [x])[..|xs|] == xs;
  }

  /** A pass over mapped responses gathers the same tally before and after their specials are rewritten. */
  lemma {:induction false} TallyOfRewritten(ms: seq<Response>)
    requires forall k :: 0 <= k < |ms| ==> MapCard(ms[k]) == ms[k]
    ensures TallyOf(Rewritten(ms)) == TallyOf(ms)
  {
    if ms != [] {
      var init := ms[..|ms| - 1];
      var last := ms[|ms| - 1];
      TallyOfRewritten(init);
      var ws := Rewritten(ms);
      assert ws[..|ws| - 1] == Rewritten(init);
      StepOfRewritten(TallyOf(init), last);
    }
  }

  /** One more response in the pass: one more rewritten response and one more step of the tally. */
  lemma PassStep(ms: seq<Response>, i: nat)
    requires i < |ms| && MapCard(ms[i]) == ms[i]
    ensures Rewritten(ms[..i + 1]) == Rewritten(ms[..i]) + [ms[i].(special := Join(FinalSpecials(ms[i]), ","))]
    ensures TallyOf(ms[..i + 1]) == Step(TallyOf(ms[..i]), ms[i])
  {
    assert ms[..i + 1] == ms[..i] + [ms[i]];
    RewrittenSnoc(ms[..i], ms[i]);
    TallyOfSnoc(ms[..i], ms[i]);
  }

  /**
   * The record loop of a run over mapped responses: it gathers the tally of
   * the pass (the single and all determinant lists, the contents, the blends
   * text, the special scores and the two blend counters) and gives each
   * response the comma-joined special scores it counted.
   */
  method ScoreResponses(ms: seq<Response>) returns (ws: seq<Response>, t: Tally)
    requires forall k :: 0 <= k < |ms| ==> MapCard(ms[k]) == ms[k]
    ensures ws == Rewritten(ms)
    ensures t == TallyOf(ws)
  {
    ws, t := [], Tally([], [], [], [], [], 0, 0);
    for i := 0 to |ms|
      invariant ws == Rewritten(ms[..i])
      invariant t == TallyOf(ms[..i])
    {
      var r := ms[i];
      PassStep(ms, i);
      t := Step(t, r);
      ws := ws + [r.(special := Join(FinalSpecials(r), ","))];
    }
    assert ms[..|ms|] == ms;
    TallyOfRewritten(ms);
  }

  /** One more response in the approach loop: its location joins its card's list, if its card is known. */
  lemma ApproachStep(ws: seq<Response>, i: nat)
    requires i < |ws| && CardsKnown(ws[..i]) && ws[i].card in CardBase.CardNumbers
    ensures CardsKnown(ws[..i + 1])
    ensures forall c :: CardLocations(ws[..i + 1], c)
                        == CardLocations(ws[..i], c) + (if ws[i].card == c then [ws[i].location] else [])
  {
    assert ws[..i + 1][..i] == ws[..i];
  }

  /** The approach table before the loop: an empty list for each card "1".."10". */
  function EmptyApproach(): (t: map<string, seq<string>>)
    ensures t.Keys == CardBase.CardNumbers
    ensures forall c :: c in t ==> t[c] == []
  {
    map["1" := [], "2" := [], "3" := [], "4" := [], "5" := [],
        "6" := [], "7" := [], "8" := [], "9" := [], "10" := []]
  }

  /**
   * The approach loop: the locations of each card's responses, in order,
   * gathered in a table keyed by "1".."10". A card outside the table stops
   * the loop, as the lookup raises.
   */
  method ApproachLists(ws: seq<Response>) returns (approach: Option<seq<string>>)
    ensures approach.Some? <==> CardsKnown(ws)
    ensures approach.Some? ==> approach.value == ApproachSection(ws)
  {
    var table := EmptyApproach();
    for i := 0 to |ws|
      invariant table.Keys == CardBase.CardNumbers
      invariant CardsKnown(ws[..i])
      invariant forall c :: c in table ==> table[c] == CardLocations(ws[..i], c)
    {
      var r := ws[i];
      if r.card !in table {
        return None;
      }
      ApproachStep(ws, i);
      table := table[r.card := table[r.card] + [r.location]];
    }
    assert ws[..|ws|] == ws;
    ApproachFromTable(ws, table);
    approach := Some([Join(table["1"], "."), Join(table["2"], "."), Join(table["3"], "."),
                      Join(table["4"], "."), Join(table["5"], "."), Join(table["6"], "."),
                      Join(table["7"], "."), Join(table["8"], "."), Join(table["9"], "."),
                      Join(table["10"], ".")]);
  }

  /** A table holding each card's locations gives the approach fields, card by card. */
  lemma ApproachFromTable(ws: seq<Response>, table: map<string, seq<string>>)
    requires table.Keys == CardBase.CardNumbers
    requires forall c :: c in table ==> table[c] == CardLocations(ws, c)
    ensures [Join(table["1"], "."), Join(table["2"], "."), Join(table["3"], "."),
             Join(table["4"], "."), Join(table["5"], "."), Join(table["6"], "."),
             Join(table["7"], "."), Join(table["8"], "."), Join(table["9"], "."),
             Join(table["10"], ".")] == ApproachSection(ws)
  {
    forall k | 0 <= k < 10
      ensures ApproachSection(ws)[k] == Join(table[CardOrder[k]], ".")
    {
      assert CardOrder[k] in table;
    }
  }

  /** Mapping every card first leaves the responses a run rewrites unchanged. */
  lemma {:induction false} RewrittenAfterMapping(rs: seq<Response>, ms: seq<Response>)
    requires |ms| == |rs| && forall k :: 0 <= k < |rs| ==> ms[k] == MapCard(rs[k])
    ensures Rewritten(ms) == Rewritten(rs)
  {
    forall k | 0 <= k < |rs|
      ensures Rewritten(ms)[k] == Rewritten(rs)[k]
    {
      RewrittenAt(ms, k);
      RewrittenAt(rs, k);
      MappedCardIdempotent(rs[k].card);
    }
  }

  // ---------------------------------------------------------------------------
  // the structural summary

  class StructuralSummary {
    var location: LocationFeatures
    var dev: DevQuality
    var form: FormQuality
    var determinants: DeterminantCounts
    var contents: ContentCounts
    var approach: seq<string>
    var specials: SpecialScores
    var core: Core
    var affect: Affect
    var interpersonal: Interpersonal
    var ideation: Ideation
    var mediation: Mediation
    var processing: Processing
    var selfPerception: SelfPerception
    var indices: Indices
    var hviExcept: Option<Ratio>
    /** Whether the summary has a row in the database. */
    var persisted: bool

    /** The summary's fields as one value. */
    function Fields(): Summary
      reads this`location, this`dev, this`form, this`determinants, this`contents, this`approach, this`specials
      reads this`core, this`affect, this`interpersonal, this`ideation, this`mediation, this`processing
      reads this`selfPerception, this`indices, this`hviExcept
    {
      Summary(location, dev, form, determinants, contents, approach, specials, core, affect,
              interpersonal, ideation, mediation, processing, selfPerception, indices, hviExcept)
    }

    /** A new summary, not yet saved, whose fields hold their defaults. */
    constructor(initial: Summary)
      ensures Fields() == initial && !persisted
    {
      location, dev, form, determinants, contents := initial.location, initial.dev, initial.form,
        initial.determinants, initial.contents;
      approach, specials, core, affect := initial.approach, initial.specials, initial.core, initial.affect;
      interpersonal, ideation, mediation := initial.interpersonal, initial.ideation, initial.mediation;
      processing, selfPerception, indices, hviExcept := initial.processing, initial.selfPerception,
        initial.indices, initial.hviExcept;
      persisted := false;
    }

    /**
     * The values `v` of a run over the rewritten responses `ws`, stored in
     * the order the summary assigns them; the first step that raises ends
     * the run and is returned.
     */
    method StoreSections(ws: seq<Response>, v: Values) returns (err: Option<EngineError>)
      requires v.cardsKnown == CardsKnown(ws) && v.approach == ApproachSection(ws)
      modifies this
      ensures Fields() == Assemble(old(Fields()), v).summary
      ensures err == Assemble(old(Fields()), v).error
      ensures persisted == old(persisted)
    {
      StoreCounts(v);
      err := StoreApproach(ws, v);
      if err.Some? {
        return;
      }
      err := StoreCore(v);
      if err.Some? {
        return;
      }
      err := StoreInterpersonal(v);
      if err.Some? {
        return;
      }
      err := StoreLastSections(v);
    }

    /** The location features, developmental and form qualities, determinants and contents. */
    method StoreCounts(v: Values)
      modifies this
      ensures Fields() == CountsStage(old(Fields()), v)
      ensures persisted == old(persisted)
    {
      location, dev, form, determinants, contents := v.location, v.dev, v.form, v.determinants, v.contents;
      assert Fields() == old(Fields()).(location := v.location, dev := v.dev, form := v.form,
        determinants := v.determinants, contents := v.contents);
    }

    /** The approach lists, stopped by a card outside I..X, then the special scores. */
    method StoreApproach(ws: seq<Response>, v: Values) returns (err: Option<EngineError>)
      requires v.cardsKnown == CardsKnown(ws) && v.approach == ApproachSection(ws)
      modifies this
      ensures Fields() == ApproachStage(old(Fields()), v).summary
      ensures err == ApproachStage(old(Fields()), v).error
      ensures persisted == old(persisted)
    {
      var lists := ApproachLists(ws);
      if lists.None? {
        return Some(UnknownCard);
      }
      approach := lists.value;
      specials := v.specials;
      err := None;
    }

    /** The core section: every field, then EBper, which divides by zero when one side of EB is 0. */
    method StoreCore(v: Values) returns (err: Option<EngineError>)
      modifies this
      ensures Fields() == CoreStage(old(Fields()), v).summary
      ensures err == CoreStage(old(Fields()), v).error
      ensures persisted == old(persisted)
    {
      core := v.core.(ebPer := core.ebPer);
      if v.ebPer.None? {
        return Some(EbPerDivisionByZero);
      }
      core := core.(ebPer := v.ebPer.value);
      err := None;
    }

    /**
     * The affect section, the interpersonal one up to the isolation index,
     * which divides by R; then the isolation index, the ideation section,
     * and X-% and XA%, which also divide by R.
     */
    method StoreInterpersonal(v: Values) returns (err: Option<EngineError>)
      modifies this
      ensures Fields() == InterpersonalStage(old(Fields()), v).summary
      ensures err == InterpersonalStage(old(Fields()), v).error
      ensures persisted == old(persisted)
    {
      affect := v.affect;
      interpersonal := v.interpersonal.(isol := interpersonal.isol);
      if v.isol.None? || v.rates.None? {
        return Some(NoResponses);
      }
      interpersonal := interpersonal.(isol := v.isol.value);
      ideation := v.ideation;
      mediation := mediation.(xMinusPer := v.rates.value.xMinusPer, xaPer := v.rates.value.xaPer);
      err := None;
    }

    /**
     * The last sections of a run whose sections up to the ideation are
     * stored: WDA% stops it when no W or D response has a form quality;
     * otherwise it stores the mediation, processing and self-perception
     * sections.
     */
    method StoreLastSections(v: Values) returns (err: Option<EngineError>)
      modifies this
      ensures Fields() == Finish(old(Fields()), v).summary
      ensures err == Finish(old(Fields()), v).error
      ensures persisted == old(persisted)
    {
      if v.mediation.None? || v.selfPerception.None? {
        return Some(NoWdaDenominator);
      }
      mediation := v.mediation.value;
      processing := v.processing;
      selfPerception := v.selfPerception.value;
      err := None;
    }

    /**
     * The indices, computed from the sections the summary holds, and the
     * HVI exception when the HVI ratio divides by zero.
     */
    method StoreIndices(colorShadingBlends: nat, age: int)
      modifies this
      ensures Fields() == WithIndices(old(Fields()), colorShadingBlends, age)
      ensures persisted == old(persisted)
    {
      var s := Fields();
      var ix := IndexSection(s.location, s.form, s.contents, s.specials, s.core, s.affect, s.interpersonal,
                             s.ideation, s.mediation, s.selfPerception, colorShadingBlends, age);
      // the HVI ratio divides by the partial human and animal contents
      var except := HviExcept(s.contents);
      SetIndices(ix, if except.Some? then except else s.hviExcept);
    }

    /** The indices and the HVI exception replaced; every other field kept. */
    method SetIndices(ix: Indices, except: Option<Ratio>)
      modifies this`indices, this`hviExcept
      ensures Fields() == old(Fields()).(indices := ix, hviExcept := except)
    {
      indices, hviExcept := ix, except;
    }

    /** A run over the rewritten responses `ws`, whose pass gathered `t`: the sections, then the indices. */
    method StoreRun(ws: seq<Response>, t: Tally, age: int) returns (err: Option<EngineError>)
      modifies this
      ensures Fields() == Run(old(Fields()), ws, t, age).summary
      ensures err == Run(old(Fields()), ws, t, age).error
      ensures persisted == old(persisted)
    {
      var v := ValuesOf(ws, t);
      ghost var o := Assemble(Fields(), v);
      assert Run(Fields(), ws, t, age) == if o.error.None? then Outcome(WithIndices(o.summary, t.colorShadingBlends, age), None) else o;
      err := StoreSections(ws, v);
      if err.None? {
        StoreIndices(t.colorShadingBlends, age);
      }
    }

    /**
     * A calculation over a client's responses: each card mapped to its
     * number, each response's special scores rewritten, and the summary
     * stored from what the responses say, up to the first step that raises.
     * `rewritten` is the responses as the calculation saves them.
     */
    method CalculateValues(responses: seq<Response>, age: int) returns (rewritten: seq<Response>, err: Option<EngineError>)
      modifies this
      ensures rewritten == Rewritten(responses)
      ensures Fields() == Calculate(old(Fields()), Rewritten(responses), age).summary
      ensures err == Calculate(old(Fields()), Rewritten(responses), age).error
      ensures persisted == old(persisted)
    {
      var ms := MapCards(responses);
      RewrittenAfterMapping(responses, ms);
      forall k | 0 <= k < |ms|
        ensures MapCard(ms[k]) == ms[k]
      {
        MappedCardIdempotent(responses[k].card);
      }
      var t;
      rewritten, t := ScoreResponses(ms);
      err := StoreRun(rewritten, t, age);
    }

    /**
     * Saving a summary calculates it first when it has no row yet; a
     * calculation that raises leaves it unsaved. A saved summary is saved
     * again as it is.
     */
    method Save(responses: seq<Response>, age: int) returns (err: Option<EngineError>)
      modifies this
      ensures old(persisted) ==> Fields() == old(Fields()) && persisted && err.None?
      ensures !old(persisted) ==>
                var o := Calculate(old(Fields()), Rewritten(responses), age);
                Fields() == o.summary && err == o.error && (persisted <==> err.None?)
    {
      if !persisted {
        var _, e := CalculateValues(responses, age);
        if e.Some? {
          return e;
        }
      }
      Persist();
      err := None;
    }

    /** The row written: the summary is saved with the fields it holds. */
    method Persist()
      modifies this`persisted
      ensures persisted && Fields() == old(Fields())
    {
      persisted := true;
    }
  }
}
