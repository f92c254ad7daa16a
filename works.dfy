/** Raw OpenAlex work records and `prepare_data_for_novelpy`, which the three
    scripts (get_novelty.py, NoveltyIndicator.py, NoveltyIndicatorV4.py) define
    almost identically: one version here, parameterised by a `Config`. */
module Works {
  import opened Wrappers
  import opened IntId

  datatype Institution = Institution(displayName: Option<string>)
  datatype Author = Author(displayName: Option<string>)
  /** One element of `authorships`: the `author` and `institutions` keys. */
  datatype Authorship = Authorship(author: Option<Author>, institutions: Option<seq<Institution>>)
  datatype Concept = Concept(displayName: Option<string>)
  datatype HostVenue = HostVenue(publisher: Option<string>)
  datatype OpenAccess = OpenAccess(status: Option<string>)

  /** One work as the OpenAlex API returns it. Every field is a JSON key that
      may be absent (`None`); values of keys the pipeline only copies are
      opaque strings. */
  datatype RawWork = RawWork(
    id: Option<string>,
    publicationYear: Option<int>,
    workType: Option<string>,
    citedByCount: Option<int>,
    authorships: Option<seq<Authorship>>,
    referencedWorks: Option<seq<string>>,
    concepts: Option<seq<Concept>>,
    sustainableDevelopmentGoals: Option<seq<string>>,
    sdgQuerySource: Option<string>,
    keywordAnalysis: Option<string>,
    collaborativeIndex: Option<string>,
    license: Option<string>,
    journalImpactFactor: Option<string>,
    citationsGeographical: Option<string>,
    pageCount: Option<string>,
    hostVenue: Option<HostVenue>,
    apcPaid: Option<string>,
    openAccess: Option<OpenAccess>)

  /** One prepared entry (the dict built by `prepare_data_for_novelpy`).
      `referenceList` holds the `item` values of `c04_referencelist`;
      `sdgQuerySource` is None where the script does not emit that key. */
  datatype Entry = Entry(
    pmid: nat,
    year: int,
    workType: string,
    numCitations: int,
    numAuthors: nat,
    authors: seq<string>,
    institutions: seq<string>,
    referenceList: seq<nat>,
    subfield: string,
    field: string,
    domain: string,
    sustainableDevelopmentGoals: seq<string>,
    sdgQuerySource: Option<string>,
    keywordAnalysis: string,
    collaborativeIndex: string,
    license: string,
    journalImpactFactor: string,
    citationsGeographical: string,
    pageCount: string,
    publisher: string,
    apcPaid: string,
    openAccessStatus: string)

  /** What differs between the three copies: the accepted publication years
      and whether the `sdg_query_source` key is written. */
  datatype Config = Config(minYear: int, maxYear: int, recordSdgSource: bool)

  const Missing: string := "Missing"
  const UnknownSource: string := "Unknown"

  /** `author['author']['display_name']` exists, so no `KeyError` is raised. */
  predicate HasDisplayName(a: Authorship) {
    a.author.Some? && a.author.value.displayName.Some?
  }

  /** A record `prepare_data_for_novelpy` turns into an entry: it has an `id`,
      a `publication_year` in the configured range, and every authorship has
      an author display name. */
  predicate Admissible(item: RawWork, cfg: Config) {
    && item.id.Some?
    && item.publicationYear.Some?
    && cfg.minYear <= item.publicationYear.value <= cfg.maxYear
    && var authorships := item.authorships.GetOr([]);
       forall k :: 0 <= k < |authorships| ==> HasDisplayName(authorships[k])
  }

  /** `[author['author']['display_name'] for author in authorships]`, or None
      when the comprehension raises `KeyError`. */
  function AuthorNames(authorships: seq<Authorship>): (names: Option<seq<string>>)
    ensures names.Some? <==> forall k :: 0 <= k < |authorships| ==> HasDisplayName(authorships[k])
    ensures names.Some? ==> |names.value| == |authorships|
    ensures names.Some? ==> forall k :: 0 <= k < |authorships| ==>
              names.value[k] == authorships[k].author.value.displayName.value
  {
    if |authorships| == 0 then Some([])
    else if !HasDisplayName(authorships[0]) then None
    else
      match AuthorNames(authorships[1..])
      case None => None
      case Some(rest) => Some([authorships[0].author.value.displayName.value] + rest)
  }

  /** `[{"item": generate_int_id(ref)} for ref in refs]`, keeping the `item`
      values: same length, same order, element-wise hashed. */
  function HashReferences(h: Sha256, refs: seq<string>): (ids: seq<nat>)
    ensures |ids| == |refs|
    ensures forall k :: 0 <= k < |refs| ==> ids[k] == GenerateIntId(h, refs[k])
    ensures forall k :: 0 <= k < |ids| ==> ids[k] < IdBound
  {
    if |refs| == 0 then [] else [GenerateIntId(h, refs[0])] + HashReferences(h, refs[1..])
  }

  /** `inst.get('display_name', '')` for each institution, in order. */
  function InstNames(insts: seq<Institution>): seq<string>
  {
    if |insts| == 0 then []
    else InstNames(insts[..|insts| - 1]) + [insts[|insts| - 1].displayName.GetOr("")]
  }

  /** The `institutions` list the nested loop builds: the institution names of
      every authorship that has an `institutions` key, concatenated in order. */
  function InstitutionNames(authorships: seq<Authorship>): seq<string>
  {
    if |authorships| == 0 then []
    else
      var last := authorships[|authorships| - 1];
      InstitutionNames(authorships[..|authorships| - 1])
        + (if last.institutions.Some? then InstNames(last.institutions.value) else [])
  }

  /** Number of institutions listed under the authorships. */
  function InstitutionCount(authorships: seq<Authorship>): nat
  {
    if |authorships| == 0 then 0
    else
      var last := authorships[|authorships| - 1];
      InstitutionCount(authorships[..|authorships| - 1])
        + (if last.institutions.Some? then |last.institutions.value| else 0)
  }

  lemma {:induction false} InstNamesShape(insts: seq<Institution>)
    ensures |InstNames(insts)| == |insts|
    ensures forall k :: 0 <= k < |insts| ==> InstNames(insts)[k] == insts[k].displayName.GetOr("")
  {
    if |insts| > 0 {
      InstNamesShape(insts[..|insts| - 1]);
    }
  }

  lemma ConcatAssoc<T>(a: seq<T>, b: seq<T>, c: seq<T>)
    ensures (a + b) + c == a + (b + c)
  {
  }

  /** The names of two runs of authorships are the two lists one after the other. */
  lemma {:induction false} InstitutionNamesAppend(a: seq<Authorship>, b: seq<Authorship>)
    ensures InstitutionNames(a + b) == InstitutionNames(a) + InstitutionNames(b)
    decreases |b|
  {
    if |b| == 0 {
      assert a + b == a;
    } else {
      var p, last := b[..|b| - 1], b[|b| - 1];
      InstitutionNamesAppend(a, p);
      assert (a + b)[..|a + b| - 1] == a + p;
      assert (a + b)[|a + b| - 1] == last;
      var A, P := InstitutionNames(a), InstitutionNames(p);
      var C := if last.institutions.Some? then InstNames(last.institutions.value) else [];
      assert InstitutionNames(a + b) == (A + P) + C;
      assert InstitutionNames(b) == P + C;
      ConcatAssoc(A, P, C);
    }
  }

  /** The flattened list has one name per listed institution. */
  lemma {:induction false} InstitutionNamesLength(a: seq<Authorship>)
    ensures |InstitutionNames(a)| == InstitutionCount(a)
  {
    if |a| > 0 {
      InstitutionNamesLength(a[..|a| - 1]);
      var last := a[|a| - 1];
      if last.institutions.Some? {
        InstNamesShape(last.institutions.value);
      }
    }
  }

  /** When every authorship lists exactly one institution, the flattened list
      has the `k`-th author's own institution at position `k`. */
  lemma {:induction false} InstitutionNamesOnePerAuthor(a: seq<Authorship>)
    requires forall k :: 0 <= k < |a| ==> a[k].institutions.Some? && |a[k].institutions.value| == 1
    ensures |InstitutionNames(a)| == |a|
    ensures forall k :: 0 <= k < |a| ==>
              InstitutionNames(a)[k] == a[k].institutions.value[0].displayName.GetOr("")
  {
    if |a| > 0 {
      var p := a[..|a| - 1];
      InstitutionNamesOnePerAuthor(p);
      InstNamesShape(a[|a| - 1].institutions.value);
    }
  }

  /** The nested loop of `prepare_data_for_novelpy` that appends institution
      names (default `''`) for every authorship with an `institutions` key. */
  method CollectInstitutions(authorships: seq<Authorship>) returns (institutions: seq<string>)
    ensures institutions == InstitutionNames(authorships)
  {
    institutions := [];
    var i := 0;
    while i < |authorships|
      invariant 0 <= i <= |authorships|
      invariant institutions == InstitutionNames(authorships[..i])
    {
      var author := authorships[i];
      assert authorships[..i + 1][..i] == authorships[..i];
      if author.institutions.Some? {
        var insts := author.institutions.value;
        var j := 0;
        while j < |insts|
          invariant 0 <= j <= |insts|
          invariant institutions == InstitutionNames(authorships[..i]) + InstNames(insts[..j])
        {
          assert insts[..j + 1][..j] == insts[..j];
          institutions := institutions + [insts[j].displayName.GetOr("")];
          j := j + 1;
        }
        assert insts[..j] == insts;
      }
      i := i + 1;
    }
    assert authorships[..i] == authorships;
  }

  /** `concepts[k].get('display_name', '')` when there are more than `k`
      concepts, `''` otherwise (the `subfield`, `field` and `domain` keys). */
  function ConceptName(concepts: Option<seq<Concept>>, k: nat): string
  {
    if concepts.Some? && |concepts.value| > k then concepts.value[k].displayName.GetOr("") else ""
  }

  /** The entry dict literal, for a record that passed the checks. */
  function MakeEntry(h: Sha256, item: RawWork, authors: seq<string>, institutions: seq<string>,
                     cfg: Config): Entry
    requires item.id.Some? && item.publicationYear.Some?
  {
    Entry(
      pmid := GenerateIntId(h, item.id.value),
      year := item.publicationYear.value,
      workType := item.workType.GetOr(""),
      numCitations := item.citedByCount.GetOr(0),
      numAuthors := |item.authorships.GetOr([])|,
      authors := authors,
      institutions := institutions,
      referenceList := HashReferences(h, item.referencedWorks.GetOr([])),
      subfield := ConceptName(item.concepts, 0),
      field := ConceptName(item.concepts, 1),
      domain := ConceptName(item.concepts, 2),
      sustainableDevelopmentGoals := item.sustainableDevelopmentGoals.GetOr([]),
      sdgQuerySource := if cfg.recordSdgSource then Some(item.sdgQuerySource.GetOr(UnknownSource)) else None,
      keywordAnalysis := item.keywordAnalysis.GetOr(Missing),
      collaborativeIndex := item.collaborativeIndex.GetOr(Missing),
      license := item.license.GetOr(Missing),
      journalImpactFactor := item.journalImpactFactor.GetOr(Missing),
      citationsGeographical := item.citationsGeographical.GetOr(Missing),
      pageCount := item.pageCount.GetOr(Missing),
      publisher := if item.hostVenue.Some? then item.hostVenue.value.publisher.GetOr(Missing) else Missing,
      apcPaid := item.apcPaid.GetOr(Missing),
      openAccessStatus := if item.openAccess.Some? then item.openAccess.value.status.GetOr(Missing) else Missing)
  }

  /** What one loop iteration of `prepare_data_for_novelpy` contributes: None
      when the record is skipped (no `id`, year missing or out of range, or a
      `KeyError` on an author display name), its entry otherwise. */
  function EntryOf(h: Sha256, item: RawWork, cfg: Config): (o: Option<Entry>)
    ensures o.Some? <==> Admissible(item, cfg)
  {
    if item.id.None? then None
    else if item.publicationYear.None? then None
    else if !(cfg.minYear <= item.publicationYear.value <= cfg.maxYear) then None
    else
      var authorships := item.authorships.GetOr([]);
      match AuthorNames(authorships)
      case None => None
      case Some(authors) => Some(MakeEntry(h, item, authors, InstitutionNames(authorships), cfg))
  }

  /** What the entry of an admissible record holds: its `PMID`, year, author
      count, institutions, references and SDG fields come from the record, and
      the defaults apply for the keys it lacks. */
  lemma EntryOfFields(h: Sha256, item: RawWork, cfg: Config, e: Entry)
    requires EntryOf(h, item, cfg) == Some(e)
    ensures e.pmid == GenerateIntId(h, item.id.value)
    ensures e.year == item.publicationYear.value
    ensures e.numAuthors == |e.authors| == |item.authorships.GetOr([])|
    ensures e.institutions == InstitutionNames(item.authorships.GetOr([]))
    ensures e.referenceList == HashReferences(h, item.referencedWorks.GetOr([]))
    ensures (e.sdgQuerySource.Some? <==> cfg.recordSdgSource)
    ensures Some(e.authors) == AuthorNames(item.authorships.GetOr([]))
    // the defaults for missing keys
    ensures e.workType == item.workType.GetOr("")
    ensures e.numCitations == item.citedByCount.GetOr(0)
    ensures item.referencedWorks.None? ==> e.referenceList == []
    ensures item.authorships.None? ==> e.authors == [] && e.institutions == []
    ensures e.subfield == (if item.concepts.Some? && |item.concepts.value| > 0
                           then item.concepts.value[0].displayName.GetOr("") else "")
    ensures e.field == (if item.concepts.Some? && |item.concepts.value| > 1
                        then item.concepts.value[1].displayName.GetOr("") else "")
    ensures e.domain == (if item.concepts.Some? && |item.concepts.value| > 2
                         then item.concepts.value[2].displayName.GetOr("") else "")
    ensures cfg.recordSdgSource && item.sdgQuerySource.None? ==>
              e.sdgQuerySource == Some(UnknownSource)
    ensures cfg.recordSdgSource && item.sdgQuerySource.Some? ==>
              e.sdgQuerySource == item.sdgQuerySource
    ensures e.sustainableDevelopmentGoals == item.sustainableDevelopmentGoals.GetOr([])
    ensures e.keywordAnalysis == item.keywordAnalysis.GetOr(Missing)
    ensures e.collaborativeIndex == item.collaborativeIndex.GetOr(Missing)
    ensures e.license == item.license.GetOr(Missing)
    ensures e.journalImpactFactor == item.journalImpactFactor.GetOr(Missing)
    ensures e.citationsGeographical == item.citationsGeographical.GetOr(Missing)
    ensures e.pageCount == item.pageCount.GetOr(Missing)
    ensures e.publisher == (if item.hostVenue.Some? then item.hostVenue.value.publisher.GetOr(Missing) else Missing)
    ensures e.apcPaid == item.apcPaid.GetOr(Missing)
    ensures e.openAccessStatus == (if item.openAccess.Some? then item.openAccess.value.status.GetOr(Missing) else Missing)
  {
  }

  /** What a loop that appends `f(x)` for every `x` of `s` that `f` accepts
      builds, in the order of `s`. */
  function Kept<A, B>(f: A -> Option<B>, s: seq<A>): seq<B>
  {
    if |s| == 0 then [] else Kept(f, s[..|s| - 1]) + KeptOne(f, s[|s| - 1])
  }

  /** What one element adds to the list: `f`'s value, or nothing. */
  function KeptOne<A, B>(f: A -> Option<B>, x: A): seq<B> {
    match f(x) case Some(y) => [y] case None => []
  }

  lemma {:induction false} KeptAppend<A, B>(f: A -> Option<B>, a: seq<A>, b: seq<A>)
    ensures Kept(f, a + b) == Kept(f, a) + Kept(f, b)
    decreases |b|
  {
    if |b| == 0 {
      assert a + b == a;
    } else {
      var p, last := b[..|b| - 1], b[|b| - 1];
      KeptAppend(f, a, p);
      assert (a + b)[..|a + b| - 1] == a + p;
      assert (a + b)[|a + b| - 1] == last;
      var ka, kp, kl := Kept(f, a), Kept(f, p), KeptOne(f, last);
      assert Kept(f, a + b) == (ka + kp) + kl;
      ConcatAssoc(ka, kp, kl);
    }
  }

  lemma {:induction false} KeptMembership<A, B>(f: A -> Option<B>, s: seq<A>, y: B)
    ensures y in Kept(f, s) <==> exists j :: 0 <= j < |s| && f(s[j]) == Some(y)
  {
    if |s| > 0 {
      var p := s[..|s| - 1];
      KeptMembership(f, p, y);
      if y in Kept(f, s) && y !in Kept(f, p) {
        assert f(s[|s| - 1]) == Some(y);
      }
      if exists j :: 0 <= j < |s| && f(s[j]) == Some(y) {
        var j :| 0 <= j < |s| && f(s[j]) == Some(y);
        if j < |s| - 1 {
          assert p[j] == s[j];
        }
      }
    }
  }

  lemma {:induction false} KeptLength<A, B>(f: A -> Option<B>, s: seq<A>)
    ensures |Kept(f, s)| <= |s|
    ensures (forall j :: 0 <= j < |s| ==> f(s[j]).Some?) <==> |Kept(f, s)| == |s|
    ensures (forall j :: 0 <= j < |s| ==> f(s[j]).None?) <==> Kept(f, s) == []
  {
    if |s| > 0 {
      var n := |s| - 1;
      var p := s[..n];
      KeptLength(f, p);
      assert forall j :: 0 <= j < |p| ==> p[j] == s[j];
      assert Kept(f, s) == Kept(f, p) + KeptOne(f, s[n]);
      if |Kept(f, s)| == |s| {
        assert |Kept(f, p)| == |p| && f(s[n]).Some?;
      }
      if Kept(f, s) == [] {
        assert Kept(f, p) == [] && f(s[n]).None?;
      }
    }
  }

  lemma {:induction false} KeptInOrder<A, B>(f: A -> Option<B>, s: seq<A>)
    requires forall j :: 0 <= j < |s| ==> f(s[j]).Some?
    ensures |Kept(f, s)| == |s|
    ensures forall k :: 0 <= k < |s| ==> f(s[k]) == Some(Kept(f, s)[k])
  {
    if |s| > 0 {
      var n := |s| - 1;
      var p := s[..n];
      assert forall j :: 0 <= j < n ==> p[j] == s[j];
      KeptInOrder(f, p);
      var P, C := Kept(f, p), KeptOne(f, s[n]);
      assert C == [f(s[n]).value];
      assert Kept(f, s) == P + C;
      forall k | 0 <= k < |s|
        ensures f(s[k]) == Some(Kept(f, s)[k])
      {
        if k < n {
          assert p[k] == s[k];
          assert (P + C)[k] == P[k];
        }
      }
    }
  }

  /** The per-record step of `prepare_data_for_novelpy` as a function value. */
  function EntryMap(h: Sha256, cfg: Config): RawWork -> Option<Entry> {
    item => EntryOf(h, item, cfg)
  }

  /** The list `prepare_data_for_novelpy(data)` returns. */
  function PreparedSpec(h: Sha256, data: seq<RawWork>, cfg: Config): seq<Entry>
  {
    Kept(EntryMap(h, cfg), data)
  }

  /** One pass of the loop of `prepare_data_for_novelpy`: `None` where the
      loop `continue`s, the entry it appends otherwise. */
  method PrepareOne(h: Sha256, item: RawWork, cfg: Config) returns (o: Option<Entry>)
    ensures o == EntryOf(h, item, cfg)
  {
    if item.id.None? {
      // skipped: no id
      return None;
    }
    if item.publicationYear.None? || !(cfg.minYear <= item.publicationYear.value <= cfg.maxYear) {
      // skipped: outside the date range
      return None;
    }
    var authorships := item.authorships.GetOr([]);
    var authors := AuthorNames(authorships);
    if authors.None? {
      // skipped: KeyError caught
      return None;
    }
    var institutions := CollectInstitutions(authorships);
    o := Some(MakeEntry(h, item, authors.value, institutions, cfg));
  }

  /** `prepare_data_for_novelpy`: one pass over the records, skipping the
      inadmissible ones and appending an entry for each of the others. */
  method PrepareDataForNovelpy(h: Sha256, data: seq<RawWork>, cfg: Config) returns (prepared: seq<Entry>)
    ensures prepared == PreparedSpec(h, data, cfg)
  {
    prepared := [];
    var i := 0;
    while i < |data|
      invariant 0 <= i <= |data|
      invariant prepared == PreparedSpec(h, data[..i], cfg)
    {
      assert data[..i + 1][..i] == data[..i];
      assert PreparedSpec(h, data[..i + 1], cfg) == prepared + KeptOne(EntryMap(h, cfg), data[i]);
      var o := PrepareOne(h, data[i], cfg);
      assert EntryMap(h, cfg)(data[i]) == o;
      if o.Some? {
        assert KeptOne(EntryMap(h, cfg), data[i]) == [o.value];
        prepared := prepared + [o.value];
      } else {
        assert prepared + KeptOne(EntryMap(h, cfg), data[i]) == prepared;
      }
      i := i + 1;
    }
    assert data[..i] == data;
  }

  /** Survivors keep their input order: preparing two runs of records gives
      the two results one after the other. */
  lemma {:induction false} PreparedAppend(h: Sha256, a: seq<RawWork>, b: seq<RawWork>, cfg: Config)
    ensures PreparedSpec(h, a + b, cfg) == PreparedSpec(h, a, cfg) + PreparedSpec(h, b, cfg)
  {
    KeptAppend(EntryMap(h, cfg), a, b);
  }

  /** The entries are exactly the entries of the admissible records. */
  lemma {:induction false} PreparedMembership(h: Sha256, data: seq<RawWork>, cfg: Config, e: Entry)
    ensures e in PreparedSpec(h, data, cfg) <==>
            exists j :: 0 <= j < |data| && Admissible(data[j], cfg) && EntryOf(h, data[j], cfg) == Some(e)
  {
    KeptMembership(EntryMap(h, cfg), data, e);
  }

  /** At most one entry per record; one per record exactly when every record
      is admissible; none when no record is. */
  lemma {:induction false} PreparedLength(h: Sha256, data: seq<RawWork>, cfg: Config)
    ensures |PreparedSpec(h, data, cfg)| <= |data|
    ensures (forall j :: 0 <= j < |data| ==> Admissible(data[j], cfg)) <==> |PreparedSpec(h, data, cfg)| == |data|
    ensures (forall j :: 0 <= j < |data| ==> !Admissible(data[j], cfg)) <==> PreparedSpec(h, data, cfg) == []
  {
    KeptLength(EntryMap(h, cfg), data);
  }

  /** When every record is admissible, entry `k` is record `k`'s entry. */
  lemma {:induction false} PreparedInOrder(h: Sha256, data: seq<RawWork>, cfg: Config)
    requires forall j :: 0 <= j < |data| ==> Admissible(data[j], cfg)
    ensures |PreparedSpec(h, data, cfg)| == |data|
    ensures forall k :: 0 <= k < |data| ==> EntryOf(h, data[k], cfg) == Some(PreparedSpec(h, data, cfg)[k])
  {
    KeptInOrder(EntryMap(h, cfg), data);
  }

  /** The invariants every prepared entry satisfies. */
  predicate WellFormedEntry(e: Entry, cfg: Config) {
    && e.pmid < IdBound
    && cfg.minYear <= e.year <= cfg.maxYear
    && e.numAuthors == |e.authors|
    && (forall k :: 0 <= k < |e.referenceList| ==> e.referenceList[k] < IdBound)
    && (e.sdgQuerySource.Some? <==> cfg.recordSdgSource)
  }

  lemma {:induction false} PreparedWellFormed(h: Sha256, data: seq<RawWork>, cfg: Config)
    ensures forall e :: e in PreparedSpec(h, data, cfg) ==> WellFormedEntry(e, cfg)
  {
    forall e | e in PreparedSpec(h, data, cfg)
      ensures WellFormedEntry(e, cfg)
    {
      PreparedMembership(h, data, cfg, e);
      var j :| 0 <= j < |data| && Admissible(data[j], cfg) && EntryOf(h, data[j], cfg) == Some(e);
      EntryOfFields(h, data[j], cfg, e);
    }
  }
}
