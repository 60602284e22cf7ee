/**
 What the answer page does with retrieved chunks once the vector store has
 returned them: reading `source` and `page` out of the metadata with their
 fallbacks, building the per-topic excerpt lists of the topic branch, and
 building the de-duplicated source list of the generative branch.
 */
module Retrieved {
  import opened Text
  import opened Seqs
  import opened FirstSeen

  /** A metadata value as the PDF loader stores it: text (`source`, `page_label`) or an integer (`page`). */
  datatype Value = Str(s: string) | Int(n: int)

  /** `f"{v}"` of a metadata value. */
  function Render(v: Value): (r: string)
    ensures v.Str? ==> r == v.s
    ensures v.Int? ==> |r| >= 1 && (v.n < 0 <==> r[0] == '-')
  {
    match v
    case Str(s) => s
    case Int(n) => IntToString(n)
  }

  /** Two integers render to the same text only when they are equal. */
  lemma RenderIntInjective(m: int, n: int)
    requires Render(Int(m)) == Render(Int(n))
    ensures m == n
  {
    IntToStringInjective(m, n);
  }

  /** A retrieved chunk: its `page_content` and its `metadata` dictionary. */
  datatype Doc = Doc(pageContent: string, metadata: map<string, Value>)

  /** `m.get(k, default)`. */
  function Get(m: map<string, Value>, k: string, default: Value): Value {
    if k in m then m[k] else default
  }

  /** `meta.get("source", "Unknown")`, rendered. */
  function SourceOf(d: Doc): (r: string)
    ensures "source" in d.metadata ==> r == Render(d.metadata["source"])
    ensures "source" !in d.metadata ==> r == "Unknown"
  {
    Render(Get(d.metadata, "source", Str("Unknown")))
  }

  /** `meta.get("page_label", meta.get("page", "N/A"))`, rendered: the label wins, then the page number, then "N/A". */
  function PageOf(d: Doc): (r: string)
    ensures "page_label" in d.metadata ==> r == Render(d.metadata["page_label"])
    ensures "page_label" !in d.metadata && "page" in d.metadata ==> r == Render(d.metadata["page"])
    ensures "page_label" !in d.metadata && "page" !in d.metadata ==> r == "N/A"
  {
    Render(Get(d.metadata, "page_label", Get(d.metadata, "page", Str("N/A"))))
  }

  // ---------------------------------------------------------------------------
  // Citations of the generative branch

  /** One line of the source list: `- {source}, Page {page}`. */
  datatype Citation = Citation(source: string, page: string)

  function CitationOf(d: Doc): (c: Citation)
    ensures c.source == SourceOf(d) && c.page == PageOf(d)
  {
    Citation(SourceOf(d), PageOf(d))
  }

  /** The de-duplication key `f"{source}-{page}"`: a joined string, not the pair. */
  function CitationKey(c: Citation): (key: string)
    ensures |key| == |c.source| + 1 + |c.page|
    ensures StartsWith(key, c.source) && key[|c.source|] == '-' && EndsWith(key, c.page)
  {
    c.source + "-" + c.page
  }

  /**
   The source list under the answer: one citation per distinct key, and every
   key of a retrieved chunk is shown.
   */
  function Citations(docs: seq<Doc>): (cs: seq<Citation>)
    ensures |cs| <= |docs|
    ensures forall i, j :: 0 <= i < j < |cs| ==> CitationKey(cs[i]) != CitationKey(cs[j])
    ensures Keys(cs, CitationKey) == Keys(Map(docs, CitationOf), CitationKey)
  {
    var all := Map(docs, CitationOf);
    var cs := KeepFirst(all, (c: Citation) => true, CitationKey, {});
    assert WantedKeys(all, (c: Citation) => true, CitationKey) == Keys(all, CitationKey);
    cs
  }

  /**
   A citation is listed exactly when some retrieved chunk carries it and no
   earlier chunk produced the same key: first-seen order, nothing new dropped.
   */
  lemma CitationListed(docs: seq<Doc>, c: Citation)
    ensures c in Citations(docs)
        <==> exists i :: 0 <= i < |docs| && CitationOf(docs[i]) == c
                         && forall j :: 0 <= j < i ==> CitationKey(CitationOf(docs[j])) != CitationKey(c)
  {
    var all := Map(docs, CitationOf);
    KeepFirstMembers(all, (c: Citation) => true, CitationKey, {}, c);
    forall i | 0 <= i < |docs| {
      CitationFirstWanted(docs, i);
    }
  }

  lemma CitationFirstWanted(docs: seq<Doc>, i: nat)
    requires i < |docs|
    ensures IsFirstWanted(Map(docs, CitationOf), (c: Citation) => true, CitationKey, {}, i)
        <==> forall j :: 0 <= j < i ==> CitationKey(CitationOf(docs[j])) != CitationKey(CitationOf(docs[i]))
  {
    var all := Map(docs, CitationOf);
    assert forall j :: 0 <= j < i ==> all[j] == CitationOf(docs[j]);
  }

  /**
   The source list keeps the order in which the chunks were retrieved, and it is
   exactly the list of first occurrences of each key, in that order.
   */
  lemma CitationsInOrder(docs: seq<Doc>)
    ensures IsSubseq(Citations(docs), Map(docs, CitationOf))
    ensures Citations(docs) == FirstWanted(Map(docs, CitationOf), (c: Citation) => true, CitationKey, {}, |docs|)
  {
    KeepFirstIsSubseq(Map(docs, CitationOf), (c: Citation) => true, CitationKey, {});
    KeepFirstIsFirstWanted(Map(docs, CitationOf), (c: Citation) => true, CitationKey, {});
  }

  /** Listing an already de-duplicated source list again changes nothing. */
  lemma CitationsIdempotent(docs: seq<Doc>)
    ensures KeepFirst(Citations(docs), (c: Citation) => true, CitationKey, {}) == Citations(docs)
  {
    KeepFirstIdempotent(Map(docs, CitationOf), (c: Citation) => true, CitationKey, {});
  }

  /** When no source name holds a dash, equal keys mean equal (source, page) pairs. */
  lemma CitationKeyInjective(c1: Citation, c2: Citation)
    requires '-' !in c1.source && '-' !in c2.source
    requires CitationKey(c1) == CitationKey(c2)
    ensures c1 == c2
  {
    var k := CitationKey(c1);
    assert k == c1.source + ['-'] + c1.page == c2.source + ['-'] + c2.page;
    SplitFirst(c1.source, c1.page, '-');
    SplitFirst(c2.source, c2.page, '-');
    var parts := Split(k, '-');
    assert parts == [c1.source] + Split(c1.page, '-') == [c2.source] + Split(c2.page, '-');
    assert c1.source == parts[0] == c2.source;
    assert Split(c1.page, '-') == parts[1..] == Split(c2.page, '-');
    JoinSplit(c1.page, '-');
    JoinSplit(c2.page, '-');
  }

  /**
   Two chunks with different (source, page) pairs can share a key, and then
   only the first is cited: `("a-b", "c")` and `("a", "b-c")` both give `"a-b-c"`.
   */
  lemma CitationKeyCollision()
    ensures var d1 := Doc("x", map["source" := Str("a-b"), "page_label" := Str("c")]);
            var d2 := Doc("y", map["source" := Str("a"), "page_label" := Str("b-c")]);
            CitationOf(d1) != CitationOf(d2) && Citations([d1, d2]) == [CitationOf(d1)]
  {
    var d1 := Doc("x", map["source" := Str("a-b"), "page_label" := Str("c")]);
    var d2 := Doc("y", map["source" := Str("a"), "page_label" := Str("b-c")]);
    assert CitationOf(d1) == Citation("a-b", "c");
    assert CitationOf(d2) == Citation("a", "b-c");
    assert CitationKey(CitationOf(d1)) == CitationKey(CitationOf(d2));
    var all := Map([d1, d2], CitationOf);
    var key := CitationKey(CitationOf(d1));
    assert all == [CitationOf(d1), CitationOf(d2)];
    assert all[1..] == [CitationOf(d2)];
    assert KeepFirst(all[1..], (c: Citation) => true, CitationKey, {key}) == [] by {
      assert all[1..][1..] == [];
    }
    assert KeepFirst(all, (c: Citation) => true, CitationKey, {}) == [CitationOf(d1)] + KeepFirst(all[1..], (c: Citation) => true, CitationKey, {key});
  }

  // ---------------------------------------------------------------------------
  // Excerpts of the topic branch

  /** Excerpts whose stripped text is shorter than this are not shown. */
  const MinExcerptLength: nat := 50

  /** One shown excerpt: the stripped chunk text with its source and page. */
  datatype Excerpt = Excerpt(text: string, source: string, page: string)

  /** The excerpt a chunk yields: its text stripped, with the displayed source and page. */
  function ExcerptOf(d: Doc): (e: Excerpt)
    ensures IsStripped(e.text) && TrimmedFrom(d.pageContent, e.text)
    ensures e.source == SourceOf(d) && e.page == PageOf(d)
  {
    Excerpt(Strip(d.pageContent), SourceOf(d), PageOf(d))
  }

  predicate IsLongExcerpt(e: Excerpt): (long: bool)
    ensures !long <==> |e.text| < MinExcerptLength
  {
    |e.text| >= MinExcerptLength
  }

  /** `text.lower()`, the de-duplication key of an excerpt. */
  function ExcerptKey(e: Excerpt): (key: string)
    ensures |key| == |e.text|
    ensures forall i :: 0 <= i < |key| ==> key[i] == LowerChar(e.text[i])
  {
    Lower(e.text)
  }

  /**
   The excerpts shown under one topic, with `seen` starting empty: each at
   least 50 characters, no two equal once lower-cased, and one for every
   lower-case form of a long chunk text.
   */
  function TopicExcerpts(topicDocs: seq<Doc>): (es: seq<Excerpt>)
    ensures |es| <= |topicDocs|
    ensures forall i :: 0 <= i < |es| ==> IsLongExcerpt(es[i])
    ensures forall i, j :: 0 <= i < j < |es| ==> ExcerptKey(es[i]) != ExcerptKey(es[j])
    ensures Keys(es, ExcerptKey) == WantedKeys(Map(topicDocs, ExcerptOf), IsLongExcerpt, ExcerptKey)
  {
    KeepFirst(Map(topicDocs, ExcerptOf), IsLongExcerpt, ExcerptKey, {})
  }

  /**
   An excerpt is shown exactly when some chunk yields it, its text is long
   enough, and no earlier long chunk has the same lower-case text.
   */
  lemma ExcerptShown(topicDocs: seq<Doc>, e: Excerpt)
    ensures e in TopicExcerpts(topicDocs)
        <==> exists i :: 0 <= i < |topicDocs| && ExcerptOf(topicDocs[i]) == e && IsLongExcerpt(e)
                         && forall j :: 0 <= j < i && IsLongExcerpt(ExcerptOf(topicDocs[j]))
                                        ==> ExcerptKey(ExcerptOf(topicDocs[j])) != ExcerptKey(e)
  {
    var all := Map(topicDocs, ExcerptOf);
    KeepFirstMembers(all, IsLongExcerpt, ExcerptKey, {}, e);
    forall i | 0 <= i < |topicDocs| {
      ExcerptFirstWanted(topicDocs, i);
    }
  }

  lemma ExcerptFirstWanted(topicDocs: seq<Doc>, i: nat)
    requires i < |topicDocs|
    ensures IsFirstWanted(Map(topicDocs, ExcerptOf), IsLongExcerpt, ExcerptKey, {}, i)
        <==> IsLongExcerpt(ExcerptOf(topicDocs[i]))
             && forall j :: 0 <= j < i && IsLongExcerpt(ExcerptOf(topicDocs[j]))
                            ==> ExcerptKey(ExcerptOf(topicDocs[j])) != ExcerptKey(ExcerptOf(topicDocs[i]))
  {
    var all := Map(topicDocs, ExcerptOf);
    assert forall j :: 0 <= j < i ==> all[j] == ExcerptOf(topicDocs[j]);
  }

  /**
   The excerpts keep the retrieval order, and they are exactly the first long
   excerpt of each lower-case text, in that order.
   */
  lemma TopicExcerptsInOrder(topicDocs: seq<Doc>)
    ensures IsSubseq(TopicExcerpts(topicDocs), Map(topicDocs, ExcerptOf))
    ensures TopicExcerpts(topicDocs) == FirstWanted(Map(topicDocs, ExcerptOf), IsLongExcerpt, ExcerptKey, {}, |topicDocs|)
  {
    KeepFirstIsSubseq(Map(topicDocs, ExcerptOf), IsLongExcerpt, ExcerptKey, {});
    KeepFirstIsFirstWanted(Map(topicDocs, ExcerptOf), IsLongExcerpt, ExcerptKey, {});
  }
}
