/** Reading the novelty out of the Lee result records (`convert_to_dataframe_2`
    in get_novelty.py, `convert_lee_to_dataframe` in NoveltyIndicatorV4.py and
    the second `convert_to_dataframe` of NoveltyIndicator.py), and the join
    `df_articles.merge(lee_df, on='PMID', how='left').dropna(subset=['Novelty'])`. */
module LeeMerge {
  import opened Wrappers
  import opened Works

  datatype LeeScore = LeeScore(novelty: Option<real>)
  datatype LeeResult = LeeResult(score: Option<LeeScore>)
  /** One record of a Lee result file: its `PMID` and `c04_referencelist_lee` keys. */
  datatype LeeItem = LeeItem(pmid: Option<int>, lee: Option<LeeResult>)
  /** One row of `lee_df`. */
  datatype NoveltyRow = NoveltyRow(pmid: Option<int>, novelty: Option<real>)

  /** `item.get('c04_referencelist_lee', {}).get('score', {}).get('novelty', None)`. */
  function NoveltyOf(item: LeeItem): (n: Option<real>)
    ensures n.Some? <==> item.lee.Some? && item.lee.value.score.Some? && item.lee.value.score.value.novelty.Some?
    ensures n.Some? ==> n == item.lee.value.score.value.novelty
  {
    match item.lee
    case None => None
    case Some(lee) =>
      match lee.score
      case None => None
      case Some(score) => score.novelty
  }

  /** The loop building `records`: one row per Lee record, in order. */
  method ConvertLeeToDataframe(data: seq<LeeItem>) returns (records: seq<NoveltyRow>)
    ensures |records| == |data|
    ensures forall i :: 0 <= i < |data| ==> records[i].pmid == data[i].pmid
    ensures forall i :: 0 <= i < |data| ==> records[i].novelty == NoveltyOf(data[i])
  {
    records := [];
    var i := 0;
    while i < |data|
      invariant 0 <= i <= |data|
      invariant |records| == i
      invariant forall k :: 0 <= k < i ==> records[k] == NoveltyRow(data[k].pmid, NoveltyOf(data[k]))
    {
      records := records + [NoveltyRow(data[i].pmid, NoveltyOf(data[i]))];
      i := i + 1;
    }
  }

  /** One row of the merged frame: the article's columns and `Novelty`. */
  datatype MergedRow = MergedRow(article: Entry, novelty: Option<real>)

  /** The Lee rows whose PMID equals `pmid`, in `lee_df` order. */
  function Matches(lee: seq<NoveltyRow>, pmid: nat): (m: seq<NoveltyRow>)
    ensures forall k :: 0 <= k < |m| ==> m[k] in lee && m[k].pmid == Some(pmid as int)
    ensures forall l :: l in lee && l.pmid == Some(pmid as int) ==> l in m
  {
    if |lee| == 0 then []
    else (if lee[0].pmid == Some(pmid as int) then [lee[0]] else []) + Matches(lee[1..], pmid)
  }

  /** The rows a left merge produces for one article: one per matching Lee
      row, or a single row with a missing `Novelty` when nothing matches. */
  function MergeOne(a: Entry, lee: seq<NoveltyRow>): seq<MergedRow>
  {
    var m := Matches(lee, a.pmid);
    if |m| == 0 then [MergedRow(a, None)] else RowsFor(a, m)
  }

  /** One merged row per matching Lee row. */
  function RowsFor(a: Entry, m: seq<NoveltyRow>): (rows: seq<MergedRow>)
    ensures |rows| == |m|
    ensures forall k :: 0 <= k < |m| ==> rows[k] == MergedRow(a, m[k].novelty)
  {
    if |m| == 0 then [] else [MergedRow(a, m[0].novelty)] + RowsFor(a, m[1..])
  }

  /** `df_articles.merge(lee_df, on='PMID', how='left')`: articles in order,
      each followed by its matches in `lee_df` order. */
  function LeftMerge(articles: seq<Entry>, lee: seq<NoveltyRow>): seq<MergedRow>
  {
    if |articles| == 0 then [] else MergeOne(articles[0], lee) + LeftMerge(articles[1..], lee)
  }

  /** `.dropna(subset=['Novelty'])`: the rows with a novelty, in order. */
  function DropMissingNovelty(rows: seq<MergedRow>): seq<MergedRow>
  {
    if |rows| == 0 then []
    else (if rows[0].novelty.Some? then [rows[0]] else []) + DropMissingNovelty(rows[1..])
  }

  /** `dropna` keeps exactly the rows with a novelty. */
  lemma {:induction false} DropMembership(rows: seq<MergedRow>)
    ensures forall k :: 0 <= k < |DropMissingNovelty(rows)| ==> DropMissingNovelty(rows)[k].novelty.Some?
    ensures forall row :: row in DropMissingNovelty(rows) <==> row in rows && row.novelty.Some?
  {
    if |rows| > 0 {
      DropMembership(rows[1..]);
      assert rows == [rows[0]] + rows[1..];
    }
  }

  /** The frame that is written out. */
  function MergeAndDrop(articles: seq<Entry>, lee: seq<NoveltyRow>): seq<MergedRow>
  {
    DropMissingNovelty(LeftMerge(articles, lee))
  }

  /** The rows merged for one article: that article, with a missing novelty
      when nothing matches and with a matching row's novelty otherwise. */
  lemma MergeOneMembership(a: Entry, lee: seq<NoveltyRow>, row: MergedRow)
    ensures row in MergeOne(a, lee) <==>
            row.article == a &&
            (if Matches(lee, a.pmid) == [] then row.novelty.None?
             else exists l :: l in lee && l.pmid == Some(a.pmid as int) && l.novelty == row.novelty)
  {
    var m := Matches(lee, a.pmid);
    if row in MergeOne(a, lee) && m != [] {
      var k :| 0 <= k < |m| && MergeOne(a, lee)[k] == row;
      assert m[k] in lee;
    }
    if row.article == a && m != [] && exists l :: l in lee && l.pmid == Some(a.pmid as int) && l.novelty == row.novelty {
      var l :| l in lee && l.pmid == Some(a.pmid as int) && l.novelty == row.novelty;
      var k :| 0 <= k < |m| && m[k] == l;
      assert MergeOne(a, lee)[k] == row;
    }
  }

  lemma {:induction false} LeftMergeMembership(articles: seq<Entry>, lee: seq<NoveltyRow>, row: MergedRow)
    ensures row in LeftMerge(articles, lee) <==>
            row.article in articles &&
            (if Matches(lee, row.article.pmid) == [] then row.novelty.None?
             else exists l :: l in lee && l.pmid == Some(row.article.pmid as int) && l.novelty == row.novelty)
  {
    if |articles| > 0 {
      var p := articles[1..];
      var a := articles[0];
      LeftMergeMembership(p, lee, row);
      MergeOneMembership(a, lee, row);
      assert articles == [a] + p;
      assert LeftMerge(articles, lee) == MergeOne(a, lee) + LeftMerge(p, lee);
    }
  }

  /** After the left merge and `dropna`, a row with novelty `v` for article `a`
      is present exactly when `a` is an article and `lee_df` has a row with
      `a`'s PMID and novelty `v`. */
  lemma MergeAndDropExact(articles: seq<Entry>, lee: seq<NoveltyRow>, a: Entry, v: real)
    ensures MergedRow(a, Some(v)) in MergeAndDrop(articles, lee) <==>
            a in articles && NoveltyRow(Some(a.pmid as int), Some(v)) in lee
  {
    var row := MergedRow(a, Some(v));
    DropMembership(LeftMerge(articles, lee));
    LeftMergeMembership(articles, lee, row);
    var l := NoveltyRow(Some(a.pmid as int), Some(v));
    if l in lee {
      assert l in Matches(lee, a.pmid);
    }
  }

  /** An article survives the join exactly when its PMID carries a
      non-missing novelty in `lee_df`; every surviving row has one. */
  lemma MergeKeepsExactlyScored(articles: seq<Entry>, lee: seq<NoveltyRow>, a: Entry)
    ensures (exists row :: row in MergeAndDrop(articles, lee) && row.article == a) <==>
            a in articles && exists l :: l in lee && l.pmid == Some(a.pmid as int) && l.novelty.Some?
  {
    if exists row :: row in MergeAndDrop(articles, lee) && row.article == a {
      var row :| row in MergeAndDrop(articles, lee) && row.article == a;
      DropMembership(LeftMerge(articles, lee));
      MergeAndDropExact(articles, lee, a, row.novelty.value);
    }
    if a in articles && exists l :: l in lee && l.pmid == Some(a.pmid as int) && l.novelty.Some? {
      var l :| l in lee && l.pmid == Some(a.pmid as int) && l.novelty.Some?;
      MergeAndDropExact(articles, lee, a, l.novelty.value);
      assert l == NoveltyRow(Some(a.pmid as int), Some(l.novelty.value));
    }
  }

  lemma {:induction false} DropAppend(a: seq<MergedRow>, b: seq<MergedRow>)
    ensures DropMissingNovelty(a + b) == DropMissingNovelty(a) + DropMissingNovelty(b)
  {
    if |a| > 0 {
      assert (a + b)[1..] == a[1..] + b;
      DropAppend(a[1..], b);
    } else {
      assert a + b == b;
    }
  }

  lemma {:induction false} LeftMergeAppend(a: seq<Entry>, b: seq<Entry>, lee: seq<NoveltyRow>)
    ensures LeftMerge(a + b, lee) == LeftMerge(a, lee) + LeftMerge(b, lee)
  {
    if |a| == 0 {
      assert a + b == b;
    } else {
      assert (a + b)[1..] == a[1..] + b;
      assert (a + b)[0] == a[0];
      LeftMergeAppend(a[1..], b, lee);
      var first := MergeOne(a[0], lee);
      var X, Y := LeftMerge(a[1..], lee), LeftMerge(b, lee);
      assert LeftMerge(a + b, lee) == first + (X + Y);
      assert first + (X + Y) == (first + X) + Y;
    }
  }

  /** The join keeps the article order: two runs of articles give their two
      results one after the other. */
  lemma MergeAndDropAppend(a: seq<Entry>, b: seq<Entry>, lee: seq<NoveltyRow>)
    ensures MergeAndDrop(a + b, lee) == MergeAndDrop(a, lee) + MergeAndDrop(b, lee)
  {
    LeftMergeAppend(a, b, lee);
    DropAppend(LeftMerge(a, lee), LeftMerge(b, lee));
  }

  /** The left merge drops no article: it has at least one row per article. */
  lemma {:induction false} LeftMergeLength(articles: seq<Entry>, lee: seq<NoveltyRow>)
    ensures |LeftMerge(articles, lee)| >= |articles|
  {
    if |articles| > 0 {
      LeftMergeLength(articles[1..], lee);
    }
  }
}
