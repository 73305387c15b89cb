/**
  The documentation sidebar (app/docs/layout.tsx, getSidebarItems): docs are grouped by
  the first `/`-segment of their slug, categories in order of first appearance and
  items in doc order.
 */
module DocsLayout {
  import opened Strings
  import opened Content

  datatype SidebarItem = SidebarItem(title: string, href: string)
  datatype SidebarSection = SidebarSection(category: string, items: seq<SidebarItem>)

  /** `category` in `const [category, ...rest] = doc.slugAsParams.split('/')` */
  function Category(d: Doc): string
  {
    Split(d.slugAsParams, '/')[0]
  }

  /** `rest.length > 0` */
  predicate HasRest(d: Doc)
  {
    |Split(d.slugAsParams, '/')| > 1
  }

  function ItemFor(d: Doc): SidebarItem
  {
    SidebarItem(d.title, "/docs/" + d.slugAsParams)
  }

  /** The category is the text before the first `/` (the whole slug when there is none),
      and a doc has further segments exactly when its slug holds a `/`. */
  lemma CategoryIsLeadingSegment(d: Doc)
    ensures var c, s := Category(d), d.slugAsParams;
      |c| <= |s| && s[..|c|] == c && '/' !in c && (|c| < |s| ==> s[|c|] == '/')
    ensures HasRest(d) <==> '/' in d.slugAsParams
  {
    SplitHead(d.slugAsParams, '/');
    SplitManyIffSep(d.slugAsParams, '/');
  }

  /** A doc whose category is empty (empty slug or a leading `/`) contributes nothing. */
  predicate Listed(d: Doc)
  {
    Category(d) != ""
  }

  /** The keys of the accumulator, in insertion order: each non-empty category once,
      at its first appearance. */
  function Categories(docs: seq<Doc>): (cats: seq<string>)
    ensures forall i, j :: 0 <= i < j < |cats| ==> cats[i] != cats[j]
    ensures forall c :: c in cats ==> c != ""
    decreases |docs|
  {
    if docs == [] then []
    else
      var prev := Categories(docs[..|docs| - 1]);
      var c := Category(docs[|docs| - 1]);
      if c == "" || c in prev then prev else prev + [c]
  }

  /** The items of category `c`, in doc order. */
  function ItemsIn(docs: seq<Doc>, c: string): seq<SidebarItem>
    decreases |docs|
  {
    if docs == [] then []
    else
      var d := docs[|docs| - 1];
      ItemsIn(docs[..|docs| - 1], c) + (if Listed(d) && Category(d) == c && HasRest(d) then [ItemFor(d)] else [])
  }

  function Sections(cats: seq<string>, docs: seq<Doc>): seq<SidebarSection>
  {
    seq(|cats|, k requires 0 <= k < |cats| => SidebarSection(cats[k], ItemsIn(docs, cats[k])))
  }

  /** The sidebar getSidebarItems should produce. */
  function Sidebar(docs: seq<Doc>): seq<SidebarSection>
  {
    Sections(Categories(docs), docs)
  }

  /** getSidebarItems: the `reduce` that fills a dictionary from category to items,
      followed by `Object.entries(...).map(...)`. `keys` is the dictionary's
      insertion order, which `Object.entries` follows. */
  method GetSidebarItems(docs: seq<Doc>) returns (sections: seq<SidebarSection>)
    ensures sections == Sidebar(docs)
  {
    var keys: seq<string> := [];
    var acc: map<string, seq<SidebarItem>> := map[];
    for i := 0 to |docs|
      invariant keys == Categories(docs[..i])
      invariant forall c :: c in acc <==> c in keys
      invariant forall c :: c in acc ==> acc[c] == ItemsIn(docs[..i], c)
    {
      var doc := docs[i];
      PrefixStep(docs, i);
      var parts := Split(doc.slugAsParams, '/');
      var category := parts[0];
      if category != "" {
        if category !in acc {
          NotListedNoItems(docs[..i], category);
          acc := acc[category := []];
          keys := keys + [category];
        }
        if |parts| > 1 {
          acc := acc[category := acc[category] + [SidebarItem(doc.title, "/docs/" + doc.slugAsParams)]];
        }
      }
    }
    assert docs[..|docs|] == docs;
    sections := seq(|keys|, k requires 0 <= k < |keys| => SidebarSection(keys[k], acc[keys[k]]));
  }

  /** Extending the processed prefix by `docs[i]` adds its category if it is new and
      non-empty, and its item to that category when it has further segments. */
  lemma PrefixStep(docs: seq<Doc>, i: nat)
    requires i < |docs|
    ensures var d, c := docs[i], Category(docs[i]);
      Categories(docs[..i + 1]) == if c == "" || c in Categories(docs[..i]) then Categories(docs[..i]) else Categories(docs[..i]) + [c]
    ensures forall c :: (ItemsIn(docs[..i + 1], c) ==
      ItemsIn(docs[..i], c) + (if Listed(docs[i]) && Category(docs[i]) == c && HasRest(docs[i]) then [ItemFor(docs[i])] else []))
  {
    assert docs[..i + 1][..i] == docs[..i];
  }

  /** A category appears exactly when some doc has it (and it is non-empty). */
  lemma {:induction false} CategoriesMembership(docs: seq<Doc>, c: string)
    ensures c in Categories(docs) <==> c != "" && exists i :: 0 <= i < |docs| && Category(docs[i]) == c
    decreases |docs|
  {
    if docs != [] {
      var init := docs[..|docs| - 1];
      CategoriesMembership(init, c);
      if exists i :: 0 <= i < |init| && Category(init[i]) == c {
        var i :| 0 <= i < |init| && Category(init[i]) == c;
        assert docs[i] == init[i];
      }
      if exists i :: 0 <= i < |docs| && Category(docs[i]) == c {
        var i :| 0 <= i < |docs| && Category(docs[i]) == c;
        if i < |init| {
          assert init[i] == docs[i];
        }
      }
    }
  }

  /** Processing more docs only appends categories: the categories of every prefix of
      `docs` are a prefix of its categories. Together with CategoriesMembership this is
      "in order of first appearance". */
  lemma {:induction false} CategoriesPrefix(docs: seq<Doc>, n: nat)
    requires n <= |docs|
    ensures Categories(docs[..n]) <= Categories(docs)
    decreases |docs| - n
  {
    if n < |docs| {
      CategoriesPrefix(docs, n + 1);
      assert docs[..n + 1][..n] == docs[..n];
    } else {
      assert docs[..n] == docs;
    }
  }

  /** A category no doc has holds no items. */
  lemma {:induction false} NotListedNoItems(docs: seq<Doc>, c: string)
    requires c !in Categories(docs)
    ensures ItemsIn(docs, c) == []
    decreases |docs|
  {
    if docs != [] {
      var init := docs[..|docs| - 1];
      CategoriesMembership(docs, c);
      CategoriesMembership(init, c);
      if exists i :: 0 <= i < |init| && Category(init[i]) == c {
        var i :| 0 <= i < |init| && Category(init[i]) == c;
        assert docs[i] == init[i];
      }
      NotListedNoItems(init, c);
    }
  }

  /** Doc `d` puts item `it` into category `c`. */
  predicate Yields(d: Doc, c: string, it: SidebarItem)
  {
    Listed(d) && Category(d) == c && HasRest(d) && ItemFor(d) == it
  }

  /** An item is in category `c` exactly when some listed doc with further segments
      has category `c` and yields that item. */
  lemma {:induction false} ItemsMembership(docs: seq<Doc>, c: string, it: SidebarItem)
    ensures it in ItemsIn(docs, c) <==> exists i :: 0 <= i < |docs| && Yields(docs[i], c, it)
    decreases |docs|
  {
    if docs != [] {
      var init := docs[..|docs| - 1];
      ItemsMembership(init, c, it);
      if exists i :: 0 <= i < |init| && Yields(init[i], c, it) {
        var i :| 0 <= i < |init| && Yields(init[i], c, it);
        assert docs[i] == init[i];
      }
      if exists i :: 0 <= i < |docs| && Yields(docs[i], c, it) {
        var i :| 0 <= i < |docs| && Yields(docs[i], c, it);
        if i < |init| {
          assert init[i] == docs[i];
        }
      }
    }
  }

  /** Items keep doc order: the items of `a + b` are those of `a` followed by those of `b`. */
  lemma {:induction false} ItemsAppend(a: seq<Doc>, b: seq<Doc>, c: string)
    ensures ItemsIn(a + b, c) == ItemsIn(a, c) + ItemsIn(b, c)
    decreases |b|
  {
    if b == [] {
      assert a + b == a;
    } else {
      var b' := b[..|b| - 1];
      ItemsAppend(a, b', c);
      assert (a + b)[..|a + b| - 1] == a + b';
      assert (a + b)[|a + b| - 1] == b[|b| - 1];
    }
  }

  // ---------------------------------------------------------------------------
  // Nothing duplicated or lost

  /** The docs that produce an item. */
  function ItemDocCount(docs: seq<Doc>): nat
    decreases |docs|
  {
    if docs == [] then 0
    else
      var d := docs[|docs| - 1];
      ItemDocCount(docs[..|docs| - 1]) + (if Listed(d) && HasRest(d) then 1 else 0)
  }

  function TotalItems(sections: seq<SidebarSection>): nat
    decreases |sections|
  {
    if sections == [] then 0
    else TotalItems(sections[..|sections| - 1]) + |sections[|sections| - 1].items|
  }

  function SumOver(cats: seq<string>, docs: seq<Doc>): nat
    decreases |cats|
  {
    if cats == [] then 0
    else SumOver(cats[..|cats| - 1], docs) + |ItemsIn(docs, cats[|cats| - 1])|
  }

  lemma {:induction false} TotalItemsSections(cats: seq<string>, docs: seq<Doc>)
    ensures TotalItems(Sections(cats, docs)) == SumOver(cats, docs)
    decreases |cats|
  {
    if cats != [] {
      var init := cats[..|cats| - 1];
      TotalItemsSections(init, docs);
      var ss := Sections(cats, docs);
      assert ss[..|ss| - 1] == Sections(init, docs);
    }
  }

  /** Adding doc `d` to `init` adds one item to the sum over distinct categories when
      `d` is listed, has further segments and its category is among them. */
  lemma {:induction false} SumOverStep(cats: seq<string>, init: seq<Doc>, d: Doc)
    requires forall i, j :: 0 <= i < j < |cats| ==> cats[i] != cats[j]
    ensures SumOver(cats, init + [d]) ==
      SumOver(cats, init) + (if Listed(d) && HasRest(d) && Category(d) in cats then 1 else 0)
    decreases |cats|
  {
    var docs := init + [d];
    assert docs[..|docs| - 1] == init;
    if cats != [] {
      var cs := cats[..|cats| - 1];
      SumOverStep(cs, init, d);
      var last := cats[|cats| - 1];
      assert Category(d) in cats <==> Category(d) in cs || Category(d) == last;
      assert last !in cs;
    }
  }

  /** Every listed doc with further segments yields exactly one item of the sidebar. */
  lemma {:induction false} SidebarItemCount(docs: seq<Doc>)
    ensures TotalItems(Sidebar(docs)) == ItemDocCount(docs)
  {
    TotalItemsSections(Categories(docs), docs);
    CategoriesSumCount(docs);
  }

  lemma {:induction false} CategoriesSumCount(docs: seq<Doc>)
    ensures SumOver(Categories(docs), docs) == ItemDocCount(docs)
    decreases |docs|
  {
    if docs != [] {
      var init := docs[..|docs| - 1];
      var d := docs[|docs| - 1];
      assert docs == init + [d];
      CategoriesSumCount(init);
      var cats := Categories(init);
      var c := Category(d);
      SumOverStep(cats, init, d);
      if !Listed(d) || c in cats {
        assert Categories(docs) == cats;
      } else {
        NotListedNoItems(init, c);
        assert ItemsIn(docs, c) == if HasRest(d) then [ItemFor(d)] else [];
        var cats' := cats + [c];
        assert Categories(docs) == cats';
        assert cats'[..|cats'| - 1] == cats;
        assert SumOver(cats', docs) == SumOver(cats, docs) + |ItemsIn(docs, c)|;
      }
    }
  }
}
