/**
 * Record extraction from a WordPress export (WXR) document: site metadata,
 * the site's categories and tags, and the posts and pages, each post or page
 * carrying its own category and tag names.  The XML parser itself is not
 * modelled: a `Document` is what the parser and `querySelector` reveal.
 */
module Extraction {
  import opened Wrappers
  import opened Strings
  import opened Fields

  // ------------------------------------------------------------ the tree

  /** A `<category domain="...">` child of an item; the attribute may be missing. */
  datatype CategoryRef = CategoryRef(domain: Option<string>, text: string)

  /** One `item` element: its scalar fields and its category children in document order. */
  datatype ItemNode = ItemNode(fields: Element, categoryRefs: seq<CategoryRef>)

  /** A parsed document: whether the parser reported an error, the `channel`
      element if there is one, and the nodes the three `querySelectorAll` calls return. */
  datatype Document = Document(
    hasParserError: bool,
    channel: Option<Element>,
    categoryNodes: seq<Element>,
    tagNodes: seq<Element>,
    items: seq<ItemNode>)

  // ------------------------------------------------------------ records

  datatype SiteInfo = SiteInfo(title: string, link: string, description: string, language: string, pubDate: string)

  datatype Category = Category(name: string, slug: string, description: string)

  datatype Tag = Tag(name: string, slug: string)

  /** A post or a page. */
  datatype Item = Item(
    title: string, link: string, pubDate: string, creator: string,
    content: string, excerpt: string, postId: string, postDate: string,
    status: string, postType: string,
    categories: seq<string>, tags: seq<string>)

  datatype ParsedExport = ParsedExport(
    siteInfo: SiteInfo, categories: seq<Category>, tags: seq<Tag>,
    posts: seq<Item>, pages: seq<Item>)

  /** The two ways a parse fails, with the message the user sees. */
  datatype ParseError = InvalidXml | UnrecognisedFormat {
    function Message(): string {
      match this
      case InvalidXml => "Il file XML non è valido. Assicurati che sia un export WordPress."
      case UnrecognisedFormat => "Formato XML non riconosciuto. Assicurati che sia un export WordPress."
    }
  }

  // ------------------------------------------------------------ selectors

  const TitleSel := "title"
  const LinkSel := "link"
  const DescriptionSel := "description"
  const LanguageSel := "language"
  const PubDateSel := "pubDate"
  const CatNameSel := "wp\\:cat_name" + ", " + "cat_name"
  const CatNicenameSel := "wp\\:category_nicename" + ", " + "category_nicename"
  const CatDescriptionSel := "wp\\:category_description" + ", " + "category_description"
  const TagNameSel := "wp\\:tag_name" + ", " + "tag_name"
  const TagSlugSel := "wp\\:tag_slug" + ", " + "tag_slug"
  const PostTypeSel := "wp\\:post_type" + ", " + "post_type"
  const StatusSel := "wp\\:status" + ", " + "status"
  const CreatorSel := "dc\\:creator" + ", " + "creator"
  const ContentSel := "content\\:encoded" + ", " + "encoded"
  const ExcerptSel := "excerpt\\:encoded"
  const PostIdSel := "wp\\:post_id" + ", " + "post_id"
  const PostDateSel := "wp\\:post_date" + ", " + "post_date"

  // ------------------------------------------- what extraction produces

  function SiteInfoOf(channel: Element): SiteInfo {
    var c := Some(channel);
    SiteInfo(TextContent(c, TitleSel), TextContent(c, LinkSel), TextContent(c, DescriptionSel),
             TextContent(c, LanguageSel), TextContent(c, PubDateSel))
  }

  /** The category a `wp:category` node contributes: its name falls back to the
      nicename, and the node is skipped when both are empty. */
  function CategoryOf(node: Element): Option<Category> {
    var n := Some(node);
    var name := CategoryName(node);
    if name == "" then None
    else Some(Category(CleanCData(name), TextContent(n, CatNicenameSel), CleanCData(TextContent(n, CatDescriptionSel))))
  }

  /** The raw name a category node is tested on: its name, or failing that its nicename. */
  function CategoryName(node: Element): string {
    var catName := TextContent(Some(node), CatNameSel);
    if catName != "" then catName else TextContent(Some(node), CatNicenameSel)
  }

  function TagOf(node: Element): Option<Tag> {
    var n := Some(node);
    var name := TagName(node);
    if name == "" then None else Some(Tag(CleanCData(name), TextContent(n, TagSlugSel)))
  }

  /** The raw name a tag node is tested on. */
  function TagName(node: Element): string {
    TextContent(Some(node), TagNameSel)
  }

  /** What `f` yields for each node, skipping the nodes it yields nothing for, in document order. */
  function Kept<S, T>(nodes: seq<S>, f: S -> Option<T>): seq<T>
    decreases |nodes|
  {
    if nodes == [] then []
    else
      var last := f(nodes[|nodes| - 1]);
      Kept(nodes[..|nodes| - 1], f) + (if last.Some? then [last.value] else [])
  }

  /** The site categories, in document order. */
  function CategoriesOf(nodes: seq<Element>): seq<Category> {
    Kept(nodes, CategoryOf)
  }

  /** The site tags, in document order. */
  function TagsOf(nodes: seq<Element>): seq<Tag> {
    Kept(nodes, TagOf)
  }

  /** The names an item's category children contribute under `domain`:
      their cleaned text, when the domain matches and the text is not empty. */
  function TermsOf(refs: seq<CategoryRef>, domain: string): seq<string> {
    Kept(refs, TermIn(domain))
  }

  /** What one category child contributes under `domain`. */
  function TermOf(domain: string, r: CategoryRef): Option<string> {
    var name := CleanCData(r.text);
    if r.domain == Some(domain) && name != "" then Some(name) else None
  }

  function TermIn(domain: string): CategoryRef -> Option<string> {
    r => TermOf(domain, r)
  }

  function PostTypeOf(node: ItemNode): string {
    TextContent(Some(node.fields), PostTypeSel)
  }

  function StatusOf(node: ItemNode): string {
    TextContent(Some(node.fields), StatusSel)
  }

  /** The record built for an item whose type and status have been read. */
  function ItemRecord(node: ItemNode, postType: string, status: string): Item {
    var f := Some(node.fields);
    Item(CleanCData(TextContent(f, TitleSel)), TextContent(f, LinkSel), TextContent(f, PubDateSel),
         CleanCData(TextContent(f, CreatorSel)), CleanCData(TextContent(f, ContentSel)),
         CleanCData(TextContent(f, ExcerptSel)), TextContent(f, PostIdSel), TextContent(f, PostDateSel),
         status, postType,
         TermsOf(node.categoryRefs, "category"), TermsOf(node.categoryRefs, "post_tag"))
  }

  /** The records of the items whose type is exactly `postType`, in document order. */
  function Collected(items: seq<ItemNode>, postType: string): seq<Item>
    decreases |items|
  {
    if items == [] then []
    else
      var last := items[|items| - 1];
      Collected(items[..|items| - 1], postType)
        + (if PostTypeOf(last) == postType then [ItemRecord(last, postType, StatusOf(last))] else [])
  }

  /** How many items are a post or a page. */
  function KeptCount(items: seq<ItemNode>): nat
    decreases |items|
  {
    if items == [] then 0
    else
      var t := PostTypeOf(items[|items| - 1]);
      KeptCount(items[..|items| - 1]) + (if t == "post" || t == "page" then 1 else 0)
  }

  // ------------------------------------------------------------ the sort

  /** Newest first by the abstract date key of `postDate`. */
  ghost predicate NewestFirst(s: seq<Item>, dateKey: string -> int) {
    forall i, j :: 0 <= i < j < |s| ==> dateKey(s[i].postDate) >= dateKey(s[j].postDate)
  }

  /** The items of `s` whose date key is `d`, in their order in `s`. */
  function WithDate(s: seq<Item>, dateKey: string -> int, d: int): seq<Item>
    decreases |s|
  {
    if s == [] then []
    else WithDate(s[..|s| - 1], dateKey, d) + (if dateKey(s[|s| - 1].postDate) == d then [s[|s| - 1]] else [])
  }

  /** `sorted` is what a stable newest-first sort makes of `original`. */
  ghost predicate StablySortedFrom(sorted: seq<Item>, original: seq<Item>, dateKey: string -> int) {
    && NewestFirst(sorted, dateKey)
    && multiset(sorted) == multiset(original)
    && forall d :: WithDate(sorted, dateKey, d) == WithDate(original, dateKey, d)
  }

  lemma WithDateSnoc(s: seq<Item>, x: Item, dateKey: string -> int, d: int)
    ensures WithDate(s + [x], dateKey, d) == WithDate(s, dateKey, d) + (if dateKey(x.postDate) == d then [x] else [])
  {
    assert (s + [x])[..|s|] == s;
  }

  lemma NewestFirstSnoc(s: seq<Item>, x: Item, dateKey: string -> int)
    requires NewestFirst(s, dateKey)
    requires forall i :: 0 <= i < |s| ==> dateKey(s[i].postDate) >= dateKey(x.postDate)
    ensures NewestFirst(s + [x], dateKey)
  {
  }

  /** One insertion step: `x` goes after every item at least as new as it. */
  function InsertNewestFirst(s: seq<Item>, x: Item, dateKey: string -> int): seq<Item>
    decreases |s|
  {
    if s == [] || dateKey(s[|s| - 1].postDate) >= dateKey(x.postDate) then s + [x]
    else InsertNewestFirst(s[..|s| - 1], x, dateKey) + [s[|s| - 1]]
  }

  /** Insertion adds exactly `x`. */
  lemma {:induction false} InsertAddsOne(s: seq<Item>, x: Item, dateKey: string -> int)
    ensures multiset(InsertNewestFirst(s, x, dateKey)) == multiset(s) + multiset{x}
    decreases |s|
  {
    if !(s == [] || dateKey(s[|s| - 1].postDate) >= dateKey(x.postDate)) {
      var front := s[..|s| - 1];
      assert s == front + [s[|s| - 1]];
      InsertAddsOne(front, x, dateKey);
    }
  }

  /** Insertion keeps the list newest first. */
  lemma {:induction false} InsertKeepsOrder(s: seq<Item>, x: Item, dateKey: string -> int)
    requires NewestFirst(s, dateKey)
    ensures NewestFirst(InsertNewestFirst(s, x, dateKey), dateKey)
    decreases |s|
  {
    if s == [] || dateKey(s[|s| - 1].postDate) >= dateKey(x.postDate) {
      NewestFirstSnoc(s, x, dateKey);
    } else {
      var front := s[..|s| - 1];
      var last := s[|s| - 1];
      InsertKeepsOrder(front, x, dateKey);
      InsertAddsOne(front, x, dateKey);
      var r' := InsertNewestFirst(front, x, dateKey);
      forall i | 0 <= i < |r'| ensures dateKey(r'[i].postDate) >= dateKey(last.postDate) {
        assert r'[i] in multiset(r');
        if r'[i] != x {
          assert r'[i] in multiset(front);
          var k :| 0 <= k < |front| && front[k] == r'[i];
          assert s[k] == front[k];
        }
      }
      NewestFirstSnoc(r', last, dateKey);
    }
  }

  /** Among items of one date, insertion puts `x` last: the sort is stable. */
  lemma {:induction false} InsertIsStable(s: seq<Item>, x: Item, dateKey: string -> int, d: int)
    ensures WithDate(InsertNewestFirst(s, x, dateKey), dateKey, d)
            == WithDate(s, dateKey, d) + (if dateKey(x.postDate) == d then [x] else [])
    decreases |s|
  {
    if s == [] || dateKey(s[|s| - 1].postDate) >= dateKey(x.postDate) {
      WithDateSnoc(s, x, dateKey, d);
    } else {
      var front := s[..|s| - 1];
      var last := s[|s| - 1];
      assert s == front + [last];
      InsertIsStable(front, x, dateKey, d);
      WithDateSnoc(InsertNewestFirst(front, x, dateKey), last, dateKey, d);
      WithDateSnoc(front, last, dateKey, d);
    }
  }

  /** `posts.sort((a, b) => new Date(b.postDate) - new Date(a.postDate))`,
      a stable sort, as insertion of each item in turn. */
  method SortNewestFirst(items: seq<Item>, dateKey: string -> int) returns (sorted: seq<Item>)
    ensures NewestFirst(sorted, dateKey)
    ensures multiset(sorted) == multiset(items)
    ensures forall d :: WithDate(sorted, dateKey, d) == WithDate(items, dateKey, d)
  {
    sorted := [];
    for i := 0 to |items|
      invariant NewestFirst(sorted, dateKey)
      invariant multiset(sorted) == multiset(items[..i])
      invariant forall d :: WithDate(sorted, dateKey, d) == WithDate(items[..i], dateKey, d)
    {
      InsertAddsOne(sorted, items[i], dateKey);
      InsertKeepsOrder(sorted, items[i], dateKey);
      forall d ensures WithDate(InsertNewestFirst(sorted, items[i], dateKey), dateKey, d)
                       == WithDate(sorted, dateKey, d) + (if dateKey(items[i].postDate) == d then [items[i]] else []) {
        InsertIsStable(sorted, items[i], dateKey, d);
      }
      sorted := InsertNewestFirst(sorted, items[i], dateKey);
      assert items[..i + 1] == items[..i] + [items[i]];
      forall d ensures WithDate(items[..i + 1], dateKey, d) == WithDate(items[..i], dateKey, d) + (if dateKey(items[i].postDate) == d then [items[i]] else []) {
        WithDateSnoc(items[..i], items[i], dateKey, d);
      }
    }
    assert items[..|items|] == items;
  }

  // ------------------------------------------------- the extraction loops

  /** One step of the `categoryNodes.forEach` loop: a node with a name (or,
      failing that, a nicename) becomes a category; the others are skipped. */
  method ReadCategory(node: Element) returns (category: Option<Category>)
    ensures category == CategoryOf(node)
  {
    var cat := Some(node);
    var name := GetTextContent(cat, CatNameSel);
    if name == "" {
      name := GetTextContent(cat, CatNicenameSel);
    }
    if name == "" {
      return None;
    }
    var slug := GetTextContent(cat, CatNicenameSel);
    var description := GetTextContent(cat, CatDescriptionSel);
    return Some(Category(CleanCData(name), slug, CleanCData(description)));
  }

  /** The `categoryNodes.forEach` loop. */
  method CollectCategories(nodes: seq<Element>) returns (categories: seq<Category>)
    ensures categories == CategoriesOf(nodes)
  {
    categories := [];
    for i := 0 to |nodes|
      invariant categories == CategoriesOf(nodes[..i])
    {
      var category := ReadCategory(nodes[i]);
      if category.Some? {
        categories := categories + [category.value];
      }
      assert nodes[..i + 1][..i] == nodes[..i];
    }
    assert nodes[..|nodes|] == nodes;
  }

  /** The `tagNodes.forEach` loop. */
  method CollectTags(nodes: seq<Element>) returns (tags: seq<Tag>)
    ensures tags == TagsOf(nodes)
  {
    tags := [];
    for i := 0 to |nodes|
      invariant tags == TagsOf(nodes[..i])
    {
      var tag := Some(nodes[i]);
      var name := GetTextContent(tag, TagNameSel);
      if name != "" {
        var slug := GetTextContent(tag, TagSlugSel);
        tags := tags + [Tag(CleanCData(name), slug)];
      }
      assert nodes[..i + 1][..i] == nodes[..i];
    }
    assert nodes[..|nodes|] == nodes;
  }

  /** The inner `categories.forEach` loop of an item: a child's cleaned text
      goes to the categories when its domain is `category`, to the tags when
      it is `post_tag`, and nowhere when it is empty or the domain is another. */
  method SplitTerms(refs: seq<CategoryRef>) returns (categories: seq<string>, tags: seq<string>)
    ensures categories == TermsOf(refs, "category")
    ensures tags == TermsOf(refs, "post_tag")
  {
    categories, tags := [], [];
    for j := 0 to |refs|
      invariant categories == TermsOf(refs[..j], "category")
      invariant tags == TermsOf(refs[..j], "post_tag")
    {
      TermsOfStep(refs, j, "category");
      TermsOfStep(refs, j, "post_tag");
      var name := CleanCData(refs[j].text);
      if refs[j].domain == Some("category") && name != "" {
        categories := categories + [name];
      } else if refs[j].domain == Some("post_tag") && name != "" {
        tags := tags + [name];
      }
    }
    assert refs[..|refs|] == refs;
  }

  /** Builds the record of a kept item. */
  method ReadItem(node: ItemNode, postType: string, status: string) returns (item: Item)
    ensures item == ItemRecord(node, postType, status)
  {
    var f := Some(node.fields);
    var title := GetTextContent(f, TitleSel);
    var link := GetTextContent(f, LinkSel);
    var pubDate := GetTextContent(f, PubDateSel);
    var creator := GetTextContent(f, CreatorSel);
    var content := GetTextContent(f, ContentSel);
    var excerpt := GetTextContent(f, ExcerptSel);
    var postId := GetTextContent(f, PostIdSel);
    var postDate := GetTextContent(f, PostDateSel);
    var categories, tags := SplitTerms(node.categoryRefs);
    item := Item(CleanCData(title), link, pubDate, CleanCData(creator), CleanCData(content),
                 CleanCData(excerpt), postId, postDate, status, postType, categories, tags);
  }

  /** The `items.forEach` loop: items whose type is neither `post` nor `page`
      are dropped, the others are routed by type. */
  method CollectItems(items: seq<ItemNode>) returns (posts: seq<Item>, pages: seq<Item>)
    ensures posts == Collected(items, "post")
    ensures pages == Collected(items, "page")
  {
    posts, pages := [], [];
    for i := 0 to |items|
      invariant posts == Collected(items[..i], "post")
      invariant pages == Collected(items[..i], "page")
    {
      assert items[..i + 1][..i] == items[..i];
      var node := items[i];
      var postType := GetTextContent(Some(node.fields), PostTypeSel);
      var status := GetTextContent(Some(node.fields), StatusSel);
      if postType != "post" && postType != "page" {
        continue;
      }
      var item := ReadItem(node, postType, status);
      if postType == "post" {
        posts := posts + [item];
      } else if postType == "page" {
        pages := pages + [item];
      }
    }
    assert items[..|items|] == items;
  }

  /** parseWordPressXML after the XML parser: fail on a parser error or a
      missing channel, otherwise extract everything and sort posts and pages newest first. */
  method ParseWordPressXml(doc: Document, dateKey: string -> int) returns (result: Result<ParsedExport, ParseError>)
    ensures doc.hasParserError ==> result == Failure(InvalidXml)
    ensures !doc.hasParserError && doc.channel.None? ==> result == Failure(UnrecognisedFormat)
    ensures result.Success? <==> !doc.hasParserError && doc.channel.Some?
    ensures result.Success? ==>
      && result.value.siteInfo == SiteInfoOf(doc.channel.value)
      && result.value.categories == CategoriesOf(doc.categoryNodes)
      && result.value.tags == TagsOf(doc.tagNodes)
      && StablySortedFrom(result.value.posts, Collected(doc.items, "post"), dateKey)
      && StablySortedFrom(result.value.pages, Collected(doc.items, "page"), dateKey)
      && (forall p :: p in result.value.posts ==> p.postType == "post")
      && (forall p :: p in result.value.pages ==> p.postType == "page")
      && |result.value.posts| + |result.value.pages| == KeptCount(doc.items)
  {
    if doc.hasParserError {
      return Failure(InvalidXml);
    }
    if doc.channel.None? {
      return Failure(UnrecognisedFormat);
    }
    var channel := doc.channel;
    var title := GetTextContent(channel, TitleSel);
    var link := GetTextContent(channel, LinkSel);
    var description := GetTextContent(channel, DescriptionSel);
    var language := GetTextContent(channel, LanguageSel);
    var pubDate := GetTextContent(channel, PubDateSel);
    var siteInfo := SiteInfo(title, link, description, language, pubDate);

    var categories := CollectCategories(doc.categoryNodes);
    var tags := CollectTags(doc.tagNodes);
    var posts, pages := CollectItems(doc.items);

    CollectedHasType(doc.items, "post");
    CollectedHasType(doc.items, "page");
    CollectedCount(doc.items);

    var sortedPosts := SortNewestFirst(posts, dateKey);
    var sortedPages := SortNewestFirst(pages, dateKey);
    assert forall p :: p in sortedPosts ==> p in multiset(posts);
    assert forall p :: p in sortedPages ==> p in multiset(pages);
    assert |sortedPosts| == |multiset(posts)| && |sortedPages| == |multiset(pages)|;
    return Success(ParsedExport(siteInfo, categories, tags, sortedPosts, sortedPages));
  }

  // --------------------------------------------------------- properties

  /** Every record collected under a type carries that type. */
  lemma {:induction false} CollectedHasType(items: seq<ItemNode>, postType: string)
    ensures forall x :: x in Collected(items, postType) ==> x.postType == postType
    decreases |items|
  {
    if items != [] {
      CollectedHasType(items[..|items| - 1], postType);
    }
  }

  /** Posts and pages together are exactly the items whose type is `post` or `page`. */
  lemma {:induction false} CollectedCount(items: seq<ItemNode>)
    ensures |Collected(items, "post")| + |Collected(items, "page")| == KeptCount(items)
    ensures KeptCount(items) <= |items|
    decreases |items|
  {
    if items != [] {
      CollectedCount(items[..|items| - 1]);
    }
  }

  /** One more child adds its cleaned text at the end, or nothing. */
  lemma TermsOfStep(refs: seq<CategoryRef>, j: nat, domain: string)
    requires j < |refs|
    ensures TermsOf(refs[..j + 1], domain) == TermsOf(refs[..j], domain)
      + (if refs[j].domain == Some(domain) && CleanCData(refs[j].text) != "" then [CleanCData(refs[j].text)] else [])
  {
    KeptStep(refs, TermIn(domain), j);
  }

  /** An item's names under one domain follow document order: the children
      are processed one after the other. */
  lemma TermsOfAppend(a: seq<CategoryRef>, b: seq<CategoryRef>, domain: string)
    ensures TermsOf(a + b, domain) == TermsOf(a, domain) + TermsOf(b, domain)
  {
    KeptAppend(a, b, TermIn(domain));
  }

  /** Every name listed under `domain` is the non-empty cleaned text of some
      child of that domain: children of any other domain contribute nothing. */
  lemma TermsOfSound(refs: seq<CategoryRef>, domain: string, name: string)
    requires name in TermsOf(refs, domain)
    ensures name != ""
    ensures exists i :: 0 <= i < |refs| && refs[i].domain == Some(domain) && CleanCData(refs[i].text) == name
  {
    KeptSound(refs, TermIn(domain), name);
    var i :| 0 <= i < |refs| && TermIn(domain)(refs[i]) == Some(name);
    assert TermOf(domain, refs[i]) == Some(name);
  }

  /** Every child of `domain` whose cleaned text is not empty is listed. */
  lemma TermsOfComplete(refs: seq<CategoryRef>, domain: string, i: nat)
    requires i < |refs| && refs[i].domain == Some(domain) && CleanCData(refs[i].text) != ""
    ensures CleanCData(refs[i].text) in TermsOf(refs, domain)
  {
    assert TermIn(domain)(refs[i]) == Some(CleanCData(refs[i].text));
    KeptComplete(refs, TermIn(domain), i);
  }

  // ------------------------------------------- site categories and tags

  lemma KeptStep<S, T>(nodes: seq<S>, f: S -> Option<T>, i: nat)
    requires i < |nodes|
    ensures Kept(nodes[..i + 1], f) == Kept(nodes[..i], f) + (if f(nodes[i]).Some? then [f(nodes[i]).value] else [])
  {
    assert nodes[..i + 1][..i] == nodes[..i];
  }

  /** The nodes are processed one after the other. */
  lemma {:induction false} KeptAppend<S, T>(a: seq<S>, b: seq<S>, f: S -> Option<T>)
    ensures Kept(a + b, f) == Kept(a, f) + Kept(b, f)
    decreases |b|
  {
    if b == [] {
      assert a + b == a;
    } else {
      var b' := b[..|b| - 1];
      assert (a + b)[..|a + b| - 1] == a + b';
      assert (a + b)[|a + b| - 1] == b[|b| - 1];
      KeptAppend(a, b', f);
    }
  }

  lemma {:induction false} KeptSound<S, T>(nodes: seq<S>, f: S -> Option<T>, x: T)
    requires x in Kept(nodes, f)
    ensures exists i :: 0 <= i < |nodes| && f(nodes[i]) == Some(x)
    decreases |nodes|
  {
    var front := nodes[..|nodes| - 1];
    if x in Kept(front, f) {
      KeptSound(front, f, x);
      var i :| 0 <= i < |front| && f(front[i]) == Some(x);
      assert nodes[i] == front[i];
    } else {
      assert f(nodes[|nodes| - 1]) == Some(x);
    }
  }

  lemma KeptComplete<S, T>(nodes: seq<S>, f: S -> Option<T>, i: nat)
    requires i < |nodes| && f(nodes[i]).Some?
    ensures |Kept(nodes[..i], f)| < |Kept(nodes, f)|
    ensures Kept(nodes, f)[|Kept(nodes[..i], f)|] == f(nodes[i]).value
  {
    var v := f(nodes[i]).value;
    KeptStep(nodes, f, i);
    assert nodes == nodes[..i + 1] + nodes[i + 1..];
    KeptAppend(nodes[..i + 1], nodes[i + 1..], f);
    assert Kept(nodes, f) == Kept(nodes[..i], f) + [v] + Kept(nodes[i + 1..], f);
  }

  /** The site categories follow document order. */
  lemma CategoriesOfAppend(a: seq<Element>, b: seq<Element>)
    ensures CategoriesOf(a + b) == CategoriesOf(a) + CategoriesOf(b)
  {
    KeptAppend(a, b, CategoryOf);
  }

  /** Every site category comes from a node whose name (or, failing that,
      nicename) is not empty, and is the category that node yields. */
  lemma CategoriesOfSound(nodes: seq<Element>, c: Category)
    requires c in CategoriesOf(nodes)
    ensures exists i :: 0 <= i < |nodes| && CategoryName(nodes[i]) != "" && CategoryOf(nodes[i]) == Some(c)
  {
    KeptSound(nodes, CategoryOf, c);
  }

  /** Every node with a name (or nicename) yields a category, listed right after
      the categories of the nodes before it. */
  lemma CategoriesOfComplete(nodes: seq<Element>, i: nat)
    requires i < |nodes| && CategoryName(nodes[i]) != ""
    ensures CategoryOf(nodes[i]).Some?
    ensures |CategoriesOf(nodes[..i])| < |CategoriesOf(nodes)|
    ensures CategoriesOf(nodes)[|CategoriesOf(nodes[..i])|] == CategoryOf(nodes[i]).value
  {
    KeptComplete(nodes, CategoryOf, i);
  }

  /** The site tags follow document order. */
  lemma TagsOfAppend(a: seq<Element>, b: seq<Element>)
    ensures TagsOf(a + b) == TagsOf(a) + TagsOf(b)
  {
    KeptAppend(a, b, TagOf);
  }

  /** Every site tag comes from a node whose raw name is not empty, and is the tag that node yields. */
  lemma TagsOfSound(nodes: seq<Element>, t: Tag)
    requires t in TagsOf(nodes)
    ensures exists i :: 0 <= i < |nodes| && TagName(nodes[i]) != "" && TagOf(nodes[i]) == Some(t)
  {
    KeptSound(nodes, TagOf, t);
  }

  /** Every node with a name yields a tag, listed right after the tags of the nodes before it. */
  lemma TagsOfComplete(nodes: seq<Element>, i: nat)
    requires i < |nodes| && TagName(nodes[i]) != ""
    ensures TagOf(nodes[i]).Some?
    ensures |TagsOf(nodes[..i])| < |TagsOf(nodes)|
    ensures TagsOf(nodes)[|TagsOf(nodes[..i])|] == TagOf(nodes[i]).value
  {
    KeptComplete(nodes, TagOf, i);
  }
}
