/**
  Documentation pages (components/doc-page.tsx): the route's slug segments resolve to a
  slug, the first doc with that slug is shown (or the page is not found), metadata is
  derived from it, and the static route parameters are each doc's slug segments.
 */
module DocPages {
  import opened Wrappers
  import opened Strings
  import opened Content

  const DefaultSlug: string := "getting-started"

  /** `params.slug?.join('/') || 'getting-started'`: the joined segments, unless the array
      is missing or joins to the empty string. */
  function ResolveSlug(segments: Option<seq<string>>): (slug: string)
    ensures slug != ""
    ensures segments.Some? && Join(segments.value, '/') != "" ==> slug == Join(segments.value, '/')
    ensures segments.None? || Join(segments.value, '/') == "" ==> slug == DefaultSlug
  {
    var joined := if segments.Some? then Join(segments.value, '/') else "";
    if joined == "" then DefaultSlug else joined
  }

  /** Only a missing array, an empty one or [""] falls back to the default slug;
      ["", ""] already joins to "/". */
  lemma DefaultSlugCases()
    ensures ResolveSlug(None) == DefaultSlug
    ensures ResolveSlug(Some([])) == DefaultSlug
    ensures ResolveSlug(Some([""])) == DefaultSlug
    ensures ResolveSlug(Some(["", ""])) == "/"
  {
    assert Join(["", ""], '/') == "" + ['/'] + Join([""], '/');
  }

  /** The index of the first doc at or after `from` whose slug is `slug`. */
  function FindIndexFrom(docs: seq<Doc>, slug: string, from: nat): (r: Option<nat>)
    requires from <= |docs|
    ensures r.Some? ==> from <= r.value < |docs| && docs[r.value].slugAsParams == slug
    ensures r.Some? ==> forall j :: from <= j < r.value ==> docs[j].slugAsParams != slug
    ensures r.None? ==> forall j :: from <= j < |docs| ==> docs[j].slugAsParams != slug
    decreases |docs| - from
  {
    if from == |docs| then None
    else if docs[from].slugAsParams == slug then Some(from)
    else FindIndexFrom(docs, slug, from + 1)
  }

  /** `allDocs.find((doc) => doc.slugAsParams === slug)`, by index. */
  function FindIndex(docs: seq<Doc>, slug: string): Option<nat>
  {
    FindIndexFrom(docs, slug, 0)
  }

  datatype Page = NotFound | Rendered(doc: Doc)

  /** DocPage: the first doc with the resolved slug, or `notFound()`. */
  function DocPage(docs: seq<Doc>, segments: Option<seq<string>>): (page: Page)
    ensures page.NotFound? <==> forall i :: 0 <= i < |docs| ==> docs[i].slugAsParams != ResolveSlug(segments)
    ensures page.Rendered? ==> exists i :: (
      && 0 <= i < |docs| && docs[i] == page.doc
      && page.doc.slugAsParams == ResolveSlug(segments)
      && forall j :: 0 <= j < i ==> docs[j].slugAsParams != ResolveSlug(segments))
  {
    match FindIndex(docs, ResolveSlug(segments))
    case None => NotFound
    case Some(i) => Rendered(docs[i])
  }

  datatype OpenGraph = OpenGraph(title: string, description: Option<string>, kind: string)

  datatype Metadata =
    | EmptyMetadata
    | Metadata(title: string, description: Option<string>, openGraph: OpenGraph)

  /** generateMetadata: `{}` when no doc matches, otherwise the doc's title and description,
      repeated under `openGraph` with type "article". */
  function GenerateMetadata(docs: seq<Doc>, segments: Option<seq<string>>): (m: Metadata)
    ensures m.EmptyMetadata? <==> DocPage(docs, segments).NotFound?
    ensures m.Metadata? ==>
      && m.title == DocPage(docs, segments).doc.title
      && m.description == DocPage(docs, segments).doc.description
      && m.openGraph == OpenGraph(m.title, m.description, "article")
  {
    match FindIndex(docs, ResolveSlug(segments))
    case None => EmptyMetadata
    case Some(i) =>
      var doc := docs[i];
      Metadata(doc.title, doc.description, OpenGraph(doc.title, doc.description, "article"))
  }

  /** `.filter(Boolean)` on strings: the non-empty ones, in order (NonEmptyAppend). */
  function NonEmpty(parts: seq<string>): (r: seq<string>)
    ensures forall s :: s in r ==> s != "" && s in parts
    ensures forall s :: s in parts && s != "" ==> s in r
    ensures (forall i :: 0 <= i < |parts| ==> parts[i] != "") ==> r == parts
    decreases |parts|
  {
    if parts == [] then []
    else if parts[0] == "" then NonEmpty(parts[1..])
    else [parts[0]] + NonEmpty(parts[1..])
  }

  /** Filtering keeps order: the kept pieces of `a + b` are those of `a`, then those of `b`. */
  lemma {:induction false} NonEmptyAppend(a: seq<string>, b: seq<string>)
    ensures NonEmpty(a + b) == NonEmpty(a) + NonEmpty(b)
    decreases |a|
  {
    if a == [] {
      assert a + b == b;
    } else {
      assert (a + b)[1..] == a[1..] + b;
      NonEmptyAppend(a[1..], b);
    }
  }

  /** `slugAsParams.split('/').filter(Boolean)`: non-empty segments free of `/`. */
  function Segments(slug: string): (segs: seq<string>)
    ensures forall s :: s in segs ==> s != "" && '/' !in s
  {
    SplitPiecesFree(slug, '/');
    NonEmpty(Split(slug, '/'))
  }

  /** generateStaticParams: one entry per doc, in doc order. */
  function GenerateStaticParams(docs: seq<Doc>): (params: seq<seq<string>>)
    ensures |params| == |docs|
    ensures forall i :: 0 <= i < |docs| ==> params[i] == Segments(docs[i].slugAsParams)
    ensures forall i, s :: 0 <= i < |docs| && s in params[i] ==> s != "" && '/' !in s
  {
    seq(|docs|, i requires 0 <= i < |docs| => Segments(docs[i].slugAsParams))
  }

  /** A slug with no empty segment: non-empty, no leading or trailing `/`, no `//`. */
  predicate WellFormedSlug(slug: string)
  {
    var parts := Split(slug, '/');
    forall i :: 0 <= i < |parts| ==> parts[i] != ""
  }

  /** For a well-formed slug, joining its segments gives the slug back. */
  lemma SegmentsRoundTrip(slug: string)
    requires WellFormedSlug(slug)
    ensures Join(Segments(slug), '/') == slug
  {
    SplitJoin(slug, '/');
  }

  /** For any slug, segments are a normal form: re-splitting their join gives them back. */
  lemma SegmentsNormalize(slug: string)
    ensures Segments(Join(Segments(slug), '/')) == Segments(slug)
  {
    var segs := Segments(slug);
    if segs == [] {
      assert Split("", '/') == [""];
    } else {
      JoinSplit(segs, '/');
      forall k | 0 <= k < |segs| ensures segs[k] != "" {
        assert segs[k] in segs;
      }
    }
  }

  /** Resolving the static params of a doc with a well-formed slug renders that doc, or
      the first earlier doc with the same slug. */
  lemma StaticParamsResolve(docs: seq<Doc>, i: nat) returns (j: nat)
    requires i < |docs| && WellFormedSlug(docs[i].slugAsParams)
    ensures j <= i && docs[j].slugAsParams == docs[i].slugAsParams
    ensures DocPage(docs, Some(GenerateStaticParams(docs)[i])) == Rendered(docs[j])
    ensures forall k :: 0 <= k < j ==> docs[k].slugAsParams != docs[i].slugAsParams
  {
    var slug := docs[i].slugAsParams;
    SegmentsRoundTrip(slug);
    assert Split(slug, '/')[0] != "";
    assert slug != "";
    assert ResolveSlug(Some(GenerateStaticParams(docs)[i])) == slug;
    j := FindIndex(docs, slug).value;
  }

  /** A doc whose slug has no non-empty segment (the empty slug, "/") gets the empty
      parameter list, which routes to the default slug instead. */
  lemma EmptySegmentsRouteToDefault(docs: seq<Doc>, i: nat)
    requires i < |docs| && Segments(docs[i].slugAsParams) == []
    ensures ResolveSlug(Some(GenerateStaticParams(docs)[i])) == DefaultSlug
  {
  }
}
