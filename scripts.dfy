/** The three scripts as compositions of the modelled steps: each runs
    `prepare_data_for_novelpy` with its own year range, and
    NoveltyIndicatorV4.py first assembles its input from the 16 SDG queries. */
module Scripts {
  import opened Wrappers
  import opened IntId
  import opened Works
  import opened TopCited

  /** get_novelty.py keeps publication years 2016 to 2024. */
  const GetNoveltyConfig: Config := Config(2016, 2024, false)
  /** NoveltyIndicator.py keeps 2007 to 2024. */
  const NoveltyIndicatorConfig: Config := Config(2007, 2024, false)
  /** NoveltyIndicatorV4.py keeps 2007 to 2024 and writes `sdg_query_source`. */
  const NoveltyIndicatorV4Config: Config := Config(2007, 2024, true)

  /** `sdg_queries`, one title search per Sustainable Development Goal 1 to 16. */
  const SdgQueries: seq<string> := [
    "No Poverty",
    "Zero Hunger",
    "Good Health and Well Being",
    "Quality Education",
    "Gender Equality",
    "Clean Water and Sanitation",
    "Affordable and Clean Energy",
    "Decent Work and Economic Growth",
    "Industry Innovation and Infrastructure",
    "Reduced Inequalities",
    "Sustainable Cities and Communities",
    "Responsible Consumption and Production",
    "Climate Action",
    "Life Below Water",
    "Life On Land",
    "Peace Justice and Strong Institutions"
  ]

  /** The data NoveltyIndicatorV4.py analyses: the top-cited works of every
      query, prepared. `fetch` stands for `get_openalex_data(query, 300)`. */
  method PrepareSdgData(h: Sha256, fetch: string -> seq<RawWork>) returns (prepared: seq<Entry>)
    ensures prepared == PreparedSpec(h, AllSdgDataSpec(SdgQueries, fetch), NoveltyIndicatorV4Config)
  {
    var allSdgData := CollectTopCited(SdgQueries, fetch);
    prepared := PrepareDataForNovelpy(h, allSdgData, NoveltyIndicatorV4Config);
  }

  /** Every article NoveltyIndicatorV4.py prepares names the query that found
      it, both in `sdg_query_source` and as its only SDG, and there are at most
      60 per query, 960 in all. */
  lemma SdgDataTagged(h: Sha256, fetch: string -> seq<RawWork>)
    ensures |PreparedSpec(h, AllSdgDataSpec(SdgQueries, fetch), NoveltyIndicatorV4Config)| <= 960
    ensures forall e :: e in PreparedSpec(h, AllSdgDataSpec(SdgQueries, fetch), NoveltyIndicatorV4Config) ==>
              && e.sdgQuerySource.Some?
              && e.sdgQuerySource.value in SdgQueries
              && e.sustainableDevelopmentGoals == [e.sdgQuerySource.value]
              && 2007 <= e.year <= 2024
  {
    QueryTagged(h, SdgQueries, fetch);
  }

  /** The same for any list of queries. */
  lemma QueryTagged(h: Sha256, qs: seq<string>, fetch: string -> seq<RawWork>)
    ensures |PreparedSpec(h, AllSdgDataSpec(qs, fetch), NoveltyIndicatorV4Config)| <= TopCount * |qs|
    ensures forall e :: e in PreparedSpec(h, AllSdgDataSpec(qs, fetch), NoveltyIndicatorV4Config) ==>
              && e.sdgQuerySource.Some?
              && e.sdgQuerySource.value in qs
              && e.sustainableDevelopmentGoals == [e.sdgQuerySource.value]
              && 2007 <= e.year <= 2024
  {
    var all := AllSdgDataSpec(qs, fetch);
    AllSdgDataFacts(qs, fetch);
    PreparedLength(h, all, NoveltyIndicatorV4Config);
    forall e | e in PreparedSpec(h, all, NoveltyIndicatorV4Config)
      ensures && e.sdgQuerySource.Some?
              && e.sdgQuerySource.value in qs
              && e.sustainableDevelopmentGoals == [e.sdgQuerySource.value]
              && 2007 <= e.year <= 2024
    {
      PreparedMembership(h, all, NoveltyIndicatorV4Config, e);
      var j :| 0 <= j < |all| && Admissible(all[j], NoveltyIndicatorV4Config)
               && EntryOf(h, all[j], NoveltyIndicatorV4Config) == Some(e);
      EntryOfFields(h, all[j], NoveltyIndicatorV4Config, e);
      assert TaggedBy(all[j], qs);
    }
  }

  /** Which years each script keeps: a record of 2007 to 2015 is prepared by
      NoveltyIndicator.py but skipped by get_novelty.py, and otherwise the two
      agree on which records they keep. */
  lemma YearRangesDiffer(item: RawWork)
    ensures Admissible(item, GetNoveltyConfig) ==> Admissible(item, NoveltyIndicatorConfig)
    ensures Admissible(item, NoveltyIndicatorConfig) && !Admissible(item, GetNoveltyConfig) <==>
              Admissible(item, NoveltyIndicatorConfig) && item.publicationYear.value < 2016
  {
  }
}
