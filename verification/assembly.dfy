/**
 * Assembly of the Markdown document from a parsed export: the site header,
 * the summary counts, the categories and tags sections, the numbered post
 * and page blocks and the footer, concatenated in that order.
 *
 * Locale-dependent date formatting, the browser's entity decoding and the
 * current date are not modelled; they arrive in an `Env`.
 */
module Assembly {
  import opened Wrappers
  import opened Strings
  import opened Extraction
  import opened Converter

  /** What the document depends on beyond the export: entity decoding,
      `toLocaleDateString('it-IT', …)` applied to a non-empty date string,
      and today's date as the footer prints it. */
  datatype Env = Env(decode: string -> string, localeDate: string -> string, today: string)

  /** The two numbered block lists of the document. */
  datatype Section = Articles | Pages

  // ------------------------------------------------------ small pieces

  /** `value || fallback` on strings: the empty string is falsy. */
  function OrElse(value: string, fallback: string): (r: string)
    ensures value != "" ==> r == value
    ensures value == "" ==> r == fallback
  {
    if value != "" then value else fallback
  }

  /** formatDate: an empty date reads `N/A`; any other is handed to the locale formatter. */
  function FormatDate(dateStr: string, env: Env): string {
    if dateStr == "" then "N/A" else env.localeDate(dateStr)
  }

  // --------------------------------------------------- translateStatus

  /** The object literal of translateStatus: WordPress status codes and their Italian labels. */
  const StatusLabels: map<string, string> := map[
    "publish" := "Pubblicato",
    "draft" := "Bozza",
    "pending" := "In attesa",
    "private" := "Privato",
    "future" := "Programmato",
    "trash" := "Cestinato"
  ]

  /** translateStatus: the label of a known status; any other status is shown as it is. */
  function TranslateStatus(status: string): (shown: string)
    ensures status in StatusLabels ==> shown == StatusLabels[status]
    ensures status !in StatusLabels ==> shown == status
  {
    if status in StatusLabels then StatusLabels[status] else status
  }

  /** The names every object literal inherits from `Object.prototype`. */
  const InheritedNames: set<string> := {
    "constructor", "__proto__", "__defineGetter__", "__defineSetter__",
    "__lookupGetter__", "__lookupSetter__", "hasOwnProperty", "isPrototypeOf",
    "propertyIsEnumerable", "toLocaleString", "toString", "valueOf"
  }

  /** What `statusMap[status] || status` yields: a string, or the inherited
      member of `Object.prototype` that the lookup finds (a function or an
      object, and truthy either way). */
  datatype Lookup = Text(text: string) | InheritedMember(name: string)

  /** translateStatus as written: the lookup also sees the inherited members. */
  function TranslateStatusAsWritten(status: string): (r: Lookup)
    ensures status in InheritedNames ==> r == InheritedMember(status)
  {
    if status in StatusLabels then Text(StatusLabels[status])
    else if status in InheritedNames then InheritedMember(status)
    else Text(status)
  }

  /** Apart from the inherited names, the code as written and the passthrough
      map agree on every status. */
  lemma TranslateStatusAgrees(status: string)
    requires status !in InheritedNames
    ensures TranslateStatusAsWritten(status) == Text(TranslateStatus(status))
  {
    assert forall k :: k in StatusLabels ==> k !in InheritedNames;
  }

  /** A status called `constructor` is not passed through: the lookup finds
      `Object.prototype.constructor`, and the document shows that function's
      source text instead of the status. */
  lemma ConstructorIsNotPassedThrough(status: string)
    requires status == "constructor"
    ensures TranslateStatusAsWritten(status) != Text(status)
    ensures TranslateStatus(status) == status
  {
    assert status in InheritedNames;
  }

  /** The six WordPress status codes and their labels; every other status is shown as it is. */
  lemma TranslateStatusLabels(status: string)
    ensures TranslateStatus("publish") == "Pubblicato" && TranslateStatus("draft") == "Bozza"
    ensures TranslateStatus("pending") == "In attesa" && TranslateStatus("private") == "Privato"
    ensures TranslateStatus("future") == "Programmato" && TranslateStatus("trash") == "Cestinato"
    ensures status !in {"publish", "draft", "pending", "private", "future", "trash"} ==> TranslateStatus(status) == status
  {
  }

  /** No label is itself a status code, so translating twice changes nothing. */
  lemma TranslateStatusIdempotent(status: string)
    ensures TranslateStatus(TranslateStatus(status)) == TranslateStatus(status)
  {
    if status in StatusLabels {
      assert StatusLabels.Values !! StatusLabels.Keys;
    }
  }

  /** Different known statuses get different labels. */
  lemma TranslateStatusDistinct(a: string, b: string)
    requires a in StatusLabels && b in StatusLabels && a != b
    ensures TranslateStatus(a) != TranslateStatus(b)
  {
  }

  // ------------------------------------------------------------ header

  function Header(site: SiteInfo, env: Env): string {
    "# " + OrElse(site.title, "WordPress Export") + "\n\n"
    + (if site.description != "" then "> " + site.description + "\n\n" else "")
    + "**Sito:** " + OrElse(site.link, "N/A") + "\n"
    + "**Lingua:** " + OrElse(site.language, "N/A") + "\n"
    + "**Data export:** " + FormatDate(site.pubDate, env) + "\n\n"
    + "---\n\n"
  }

  // ----------------------------------------------------------- summary

  /** One count of the summary, `- **caption:** n`. */
  function CountLine(caption: string, n: nat): string {
    "- **" + caption + ":** " + NatToString(n)
  }

  function Summary(data: ParsedExport): string {
    "## Riepilogo Contenuti" + "\n\n"
    + CountLine("Articoli", |data.posts|) + "\n"
    + CountLine("Pagine", |data.pages|) + "\n"
    + CountLine("Categorie", |data.categories|) + "\n"
    + CountLine("Tag", |data.tags|) + "\n\n"
  }

  /** Reads a count back out of a summary line: the caption, then a non-empty run of digits. */
  function ReadCount(line: string, caption: string): (r: Option<nat>)
    ensures r.Some? ==> |caption| + 8 < |line| && line == "- **" + caption + ":** " + line[|caption| + 8..]
  {
    var prefix := "- **" + caption + ":** ";
    if |prefix| < |line| && line[..|prefix|] == prefix && AllDigits(line[|prefix|..]) then
      Some(DecimalValue(line[|prefix|..]))
    else None
  }

  // -------------------------------------------- categories and tags

  /** `- **name**`, then `: description` when there is one. */
  function CategoryLine(category: Category): string {
    "- **" + category.name + "**"
    + (if category.description != "" then ": " + category.description else "")
    + "\n"
  }

  function CategoryLines(categories: seq<Category>): string
    decreases |categories|
  {
    if categories == [] then ""
    else CategoryLines(categories[..|categories| - 1]) + CategoryLine(categories[|categories| - 1])
  }

  function CategoriesSection(categories: seq<Category>): string {
    if |categories| > 0 then "## Categorie\n\n" + CategoryLines(categories) + "\n" else ""
  }

  /** Each tag name between backquotes. */
  function TagCodes(tags: seq<Tag>): (codes: seq<string>)
    ensures |codes| == |tags|
  {
    seq(|tags|, i requires 0 <= i < |tags| => "`" + tags[i].name + "`")
  }

  function TagsSection(tags: seq<Tag>): string {
    if |tags| > 0 then "## Tag\n\n" + Join(TagCodes(tags), ", ") + "\n\n" else ""
  }

  // ------------------------------------------------- numbered blocks

  /** `## i. title`, with `Senza titolo` for an empty title. */
  function Heading(number: nat, title: string): string {
    "## " + NatToString(number) + ". " + OrElse(title, "Senza titolo") + "\n\n"
  }

  /** `excerptMd.replace(/\n/g, '\n> ')`: every line break continues the quote. */
  function QuoteLines(s: string): string
    decreases |s|
  {
    if s == [] then ""
    else (if s[0] == '\n' then "\n> " else [s[0]]) + QuoteLines(s[1..])
  }

  /** The metadata lines under a heading; posts also list their categories and tags. */
  function Metadata(section: Section, item: Item, env: Env): string {
    "**Autore:** " + OrElse(item.creator, "N/A") + "\n"
    + "**Data:** " + FormatDate(item.postDate, env) + "\n"
    + "**Stato:** " + TranslateStatus(item.status) + "\n"
    + (if section == Articles && |item.categories| > 0 then "**Categorie:** " + Join(item.categories, ", ") + "\n" else "")
    + (if section == Articles && |item.tags| > 0 then "**Tag:** " + Join(item.tags, ", ") + "\n" else "")
    + (if item.link != "" then "**Link:** " + item.link + "\n" else "")
    + "\n"
  }

  /** A post's excerpt, converted and quoted, when the conversion leaves something. */
  function ExcerptPart(section: Section, excerpt: string, markdown: string -> string): string {
    if section == Articles && excerpt != "" then
      var excerptMd := markdown(excerpt);
      if excerptMd != "" then "### Riassunto\n\n" + "> " + QuoteLines(excerptMd) + "\n\n" else ""
    else ""
  }

  function ContentPart(content: string, markdown: string -> string): string {
    if content != "" then "### Contenuto\n\n" + markdown(content) + "\n\n" else ""
  }

  /** The block of the item at `index` (counted from 0) in its list. */
  function Block(section: Section, item: Item, index: nat, env: Env, markdown: string -> string): string {
    Heading(index + 1, item.title) + BlockBody(section, item, env, markdown)
  }

  /** Everything of a block below its heading. */
  function BlockBody(section: Section, item: Item, env: Env, markdown: string -> string): string {
    Metadata(section, item, env)
    + ExcerptPart(section, item.excerpt, markdown)
    + ContentPart(item.content, markdown)
    + "---\n\n"
  }

  /** The block of each position of a list (nothing past its end). */
  function BlockOf(section: Section, items: seq<Item>, env: Env, markdown: string -> string): nat -> string {
    (i: nat) => if i < |items| then Block(section, items[i], i, env, markdown) else ""
  }

  /** The first `n` parts, one after the other. */
  function Joined(part: nat -> string, n: nat): string
    decreases n
  {
    if n == 0 then "" else Joined(part, n - 1) + part(n - 1)
  }

  function SectionTitle(section: Section): string {
    match section
    case Articles => "# ARTICOLI\n\n"
    case Pages => "# PAGINE\n\n"
  }

  function ItemsSection(section: Section, items: seq<Item>, env: Env, markdown: string -> string): string {
    if |items| > 0 then SectionTitle(section) + Joined(BlockOf(section, items, env, markdown), |items|) else ""
  }

  function Footer(env: Env): string {
    "\n---\n\n"
    + "*Documento generato da WordPress XML to Markdown Converter*\n"
    + "*Data generazione: " + env.today + "*\n"
  }

  /** generateMarkdown: the whole document, for a given HTML to Markdown conversion. */
  function Render(data: ParsedExport, env: Env, markdown: string -> string): string {
    Header(data.siteInfo, env)
    + Summary(data)
    + CategoriesSection(data.categories)
    + TagsSection(data.tags)
    + "---\n\n"
    + ItemsSection(Articles, data.posts, env, markdown)
    + ItemsSection(Pages, data.pages, env, markdown)
    + Footer(env)
  }

  // ------------------------------------------------ generateMarkdown

  /** htmlToMarkdown, with the entity decoder fixed, as a function value. */
  function MarkdownOf(decode: string -> string): string -> string {
    html => Convert(html, decode)
  }

  /** The body of one post or page block, built piece by piece. */
  method BuildBlockBody(section: Section, item: Item, env: Env, markdown: string -> string) returns (body: string)
    ensures body == BlockBody(section, item, env, markdown)
  {
    body := Metadata(section, item, env);
    var excerpt := "";
    if section == Articles && item.excerpt != "" {
      var excerptMd := markdown(item.excerpt);
      if excerptMd != "" {
        excerpt := "### Riassunto\n\n" + "> " + QuoteLines(excerptMd) + "\n\n";
      }
    }
    body := body + excerpt;
    var content := "";
    if item.content != "" {
      var contentMd := markdown(item.content);
      content := "### Contenuto\n\n" + contentMd + "\n\n";
    }
    body := body + content;
    body := body + "---\n\n";
  }

  /** One post or page block, appended to `md`. */
  method AppendBlock(md: string, section: Section, items: seq<Item>, index: nat, env: Env, markdown: string -> string)
    returns (out: string)
    requires index < |items| && md == Joined(BlockOf(section, items, env, markdown), index)
    ensures out == Joined(BlockOf(section, items, env, markdown), index + 1)
  {
    var item := items[index];
    var body := BuildBlockBody(section, item, env, markdown);
    out := md + (Heading(index + 1, item.title) + body);
  }

  /** The categories section, one line per category. */
  method CategoriesText(categories: seq<Category>) returns (text: string)
    ensures text == CategoriesSection(categories)
  {
    text := "";
    if |categories| > 0 {
      text := "## Categorie\n\n";
      for i := 0 to |categories|
        invariant text == "## Categorie\n\n" + CategoryLines(categories[..i])
      {
        assert categories[..i + 1][..i] == categories[..i];
        text := text + CategoryLine(categories[i]);
      }
      assert categories[..|categories|] == categories;
      text := text + "\n";
    }
  }

  /** The blocks of a list of items, one after the other. */
  method AppendBlocks(section: Section, items: seq<Item>, env: Env, markdown: string -> string) returns (text: string)
    ensures text == Joined(BlockOf(section, items, env, markdown), |items|)
  {
    text := "";
    for i := 0 to |items|
      invariant text == Joined(BlockOf(section, items, env, markdown), i)
    {
      text := AppendBlock(text, section, items, i, env, markdown);
    }
  }

  /** The post or page section: its title, then one block per item. */
  method ItemsText(section: Section, items: seq<Item>, env: Env, markdown: string -> string) returns (text: string)
    ensures text == ItemsSection(section, items, env, markdown)
  {
    text := "";
    if |items| > 0 {
      var blocks := AppendBlocks(section, items, env, markdown);
      text := SectionTitle(section) + blocks;
    }
  }

  /** generateMarkdown: appends the sections to `md` in document order. */
  method GenerateMarkdown(data: ParsedExport, env: Env) returns (md: string)
    ensures md == Render(data, env, MarkdownOf(env.decode))
  {
    md := Header(data.siteInfo, env);
    md := md + Summary(data);
    var categories := CategoriesText(data.categories);
    md := md + categories;
    md := md + TagsSection(data.tags);
    md := md + "---\n\n";
    var posts := ItemsText(Articles, data.posts, env, MarkdownOf(env.decode));
    md := md + posts;
    var pages := ItemsText(Pages, data.pages, env, MarkdownOf(env.decode));
    md := md + pages;
    md := md + Footer(env);
  }

  // ---------------------------------------------------------- properties

  /** Reading a count line back gives the count it was written with. */
  lemma ReadCountLine(caption: string, n: nat)
    ensures ReadCount(CountLine(caption, n), caption) == Some(n)
  {
    var prefix := "- **" + caption + ":** ";
    var line := CountLine(caption, n);
    assert line == prefix + NatToString(n);
    assert line[..|prefix|] == prefix && line[|prefix|..] == NatToString(n);
  }

  /** A count line holds no line break. */
  lemma CountLineOneLine(caption: string, n: nat)
    requires '\n' !in caption
    ensures '\n' !in CountLine(caption, n)
  {
    var digits := NatToString(n);
    assert '\n' !in digits by {
      forall k | 0 <= k < |digits| ensures digits[k] != '\n' {
        assert '0' <= digits[k] <= '9';
      }
    }
  }

  /** The line structure of the summary, for any title and count lines without line breaks. */
  lemma SummaryLines(title: string, a: string, b: string, c: string, d: string)
    requires '\n' !in title && '\n' !in a && '\n' !in b && '\n' !in c && '\n' !in d
    ensures Split(title + "\n\n" + a + "\n" + b + "\n" + c + "\n" + d + "\n\n", '\n')
            == [title, "", a, b, c, d, "", ""]
  {
    var nl := '\n';
    SplitNoSep(title, nl);
    SplitExtend(title, nl, "");
    var s0 := title + [nl] + "";
    SplitExtend(s0, nl, a);
    var s1 := title + "\n\n" + a;
    assert s1 == s0 + [nl] + a;
    SplitExtend(s1, nl, b);
    var s2 := s1 + "\n" + b;
    SplitExtend(s2, nl, c);
    var s3 := s2 + "\n" + c;
    SplitExtend(s3, nl, d);
    var s4 := s3 + "\n" + d;
    SplitExtend(s4, nl, "");
    var s5 := s4 + [nl] + "";
    SplitExtend(s5, nl, "");
    assert s4 + "\n\n" == s5 + [nl] + "";
  }

  /** The summary's lines: its heading, a blank line, the four count lines, two blank lines. */
  lemma SummaryAsLines(data: ParsedExport)
    ensures Split(Summary(data), '\n')
            == ["## Riepilogo Contenuti", "",
                CountLine("Articoli", |data.posts|), CountLine("Pagine", |data.pages|),
                CountLine("Categorie", |data.categories|), CountLine("Tag", |data.tags|), "", ""]
  {
    CountLineOneLine("Articoli", |data.posts|);
    CountLineOneLine("Pagine", |data.pages|);
    CountLineOneLine("Categorie", |data.categories|);
    CountLineOneLine("Tag", |data.tags|);
    var title := "## Riepilogo Contenuti";
    assert '\n' !in title;
    SummaryLines(title, CountLine("Articoli", |data.posts|), CountLine("Pagine", |data.pages|),
                 CountLine("Categorie", |data.categories|), CountLine("Tag", |data.tags|));
  }

  /** The summary, split into lines, reads back the four list lengths. */
  lemma SummaryCounts(data: ParsedExport)
    ensures var lines := Split(Summary(data), '\n');
            |lines| == 8 && lines[0] == "## Riepilogo Contenuti"
            && ReadCount(lines[2], "Articoli") == Some(|data.posts|)
            && ReadCount(lines[3], "Pagine") == Some(|data.pages|)
            && ReadCount(lines[4], "Categorie") == Some(|data.categories|)
            && ReadCount(lines[5], "Tag") == Some(|data.tags|)
  {
    SummaryAsLines(data);
    CountLinesRead(Split(Summary(data), '\n'), |data.posts|, |data.pages|, |data.categories|, |data.tags|);
  }

  /** Lines laid out as in the summary read back the counts they were written with. */
  lemma CountLinesRead(lines: seq<string>, posts: nat, pages: nat, categories: nat, tags: nat)
    requires |lines| == 8
    requires lines[2] == CountLine("Articoli", posts) && lines[3] == CountLine("Pagine", pages)
    requires lines[4] == CountLine("Categorie", categories) && lines[5] == CountLine("Tag", tags)
    ensures ReadCount(lines[2], "Articoli") == Some(posts) && ReadCount(lines[3], "Pagine") == Some(pages)
    ensures ReadCount(lines[4], "Categorie") == Some(categories) && ReadCount(lines[5], "Tag") == Some(tags)
  {
    ReadCountLine("Articoli", posts);
    ReadCountLine("Pagine", pages);
    ReadCountLine("Categorie", categories);
    ReadCountLine("Tag", tags);
  }

  /** The categories section is there exactly when there are categories, and it opens with its heading. */
  lemma CategoriesSectionPresent(categories: seq<Category>)
    ensures CategoriesSection(categories) == "" <==> categories == []
    ensures categories != [] ==> "## Categorie\n\n" <= CategoriesSection(categories)
  {
    if categories != [] {
      assert CategoriesSection(categories)[0] == '#';
    }
  }

  /** The tags section is there exactly when there are tags, and lists their names in backquotes. */
  lemma TagsSectionPresent(tags: seq<Tag>)
    ensures TagsSection(tags) == "" <==> tags == []
    ensures tags != [] ==> TagsSection(tags) == "## Tag\n\n" + Join(TagCodes(tags), ", ") + "\n\n"
  {
    if tags != [] {
      assert TagsSection(tags)[0] == '#';
    }
  }

  /** A post or page list is announced only when it is not empty. */
  lemma ItemsSectionPresent(section: Section, items: seq<Item>, env: Env, markdown: string -> string)
    ensures ItemsSection(section, items, env, markdown) == "" <==> items == []
    ensures items != [] ==> SectionTitle(section) <= ItemsSection(section, items, env, markdown)
  {
    if items != [] {
      assert ItemsSection(section, items, env, markdown)[0] == '#';
    }
  }

  /** A left-nested concatenation begins with its first two pieces. */
  lemma FirstTwoBegin(a: string, b: string, c: string, d: string, e: string, f: string, g: string, h: string)
    ensures a + b <= a + b + c + d + e + f + g + h
  {
    var whole := a + b + c + d + e + f + g + h;
    assert whole == (a + b) + (c + d + e + f + g + h);
  }

  /** The document opens with the site header, followed right away by the summary counts. */
  lemma SummaryFollowsHeader(data: ParsedExport, env: Env, markdown: string -> string)
    ensures Header(data.siteInfo, env) + Summary(data) <= Render(data, env, markdown)
  {
    FirstTwoBegin(Header(data.siteInfo, env), Summary(data), CategoriesSection(data.categories),
      TagsSection(data.tags), "---\n\n", ItemsSection(Articles, data.posts, env, markdown),
      ItemsSection(Pages, data.pages, env, markdown), Footer(env));
  }

  /** Fewer parts joined begin more parts joined. */
  lemma {:induction false} JoinedPrefix(part: nat -> string, k: nat, n: nat)
    requires k <= n
    ensures Joined(part, k) <= Joined(part, n)
    decreases n
  {
    if k < n {
      JoinedPrefix(part, k, n - 1);
      PrefixExtend(Joined(part, k), Joined(part, n - 1), part(n - 1));
    }
  }

  lemma PrefixExtend(a: string, b: string, c: string)
    requires a <= b
    ensures a <= b + c
  {
    assert (b + c)[..|a|] == b[..|a|];
  }

  /** When part `k` begins with `heading`, the parts before it followed by
      `heading` begin anything that the first `k + 1` parts begin. */
  lemma JoinedHeading(part: nat -> string, k: nat, heading: string, body: string, whole: string)
    requires Joined(part, k + 1) <= whole && part(k) == heading + body
    ensures Joined(part, k) + heading <= whole
  {
    var before := Joined(part, k);
    assert Joined(part, k + 1) == before + (heading + body);
    assert (before + (heading + body))[..|before + heading|] == before + heading;
  }

  /** The block of the item at index `k` starts, right after the blocks before
      it, with the heading `## k+1. title`. */
  lemma HeadingOfBlock(section: Section, items: seq<Item>, k: nat, env: Env, markdown: string -> string)
    requires k < |items|
    ensures var blocks := BlockOf(section, items, env, markdown);
            Joined(blocks, k) + Heading(k + 1, items[k].title) <= Joined(blocks, |items|)
  {
    var blocks := BlockOf(section, items, env, markdown);
    JoinedPrefix(blocks, k + 1, |items|);
    JoinedHeading(blocks, k, Heading(k + 1, items[k].title), BlockBody(section, items[k], env, markdown), Joined(blocks, |items|));
  }

  /** The number in a heading reads back as the position it was written for,
      and the title falls back to `Senza titolo` only when it is empty. */
  lemma HeadingNumbers(number: nat, title: string)
    ensures var digits := NatToString(number);
            Heading(number, title) == "## " + digits + ". " + OrElse(title, "Senza titolo") + "\n\n"
            && AllDigits(digits) && DecimalValue(digits) == number
    ensures title == "" ==> Heading(number, title) == "## " + NatToString(number) + ". Senza titolo\n\n"
  {
  }

  /** The lines of the quoted excerpt: each line of the excerpt, behind the
      quote marker `> ` (the first line behind `prefix`). */
  function Prefixed(lines: seq<string>, prefix: string): (r: seq<string>)
    ensures |r| == |lines|
  {
    seq(|lines|, i requires 0 <= i < |lines| => prefix + lines[i])
  }

  lemma PrefixedFirst(lines: seq<string>, prefix: string)
    requires |lines| >= 1
    ensures Prefixed(lines, prefix) == [prefix + lines[0]] + Prefixed(lines[1..], prefix)
  {
  }

  lemma {:induction false} QuoteLinesSplit(prefix: string, s: string)
    requires '\n' !in prefix
    ensures var lines := Split(s, '\n');
            Split(prefix + QuoteLines(s), '\n') == [prefix + lines[0]] + Prefixed(lines[1..], "> ")
    decreases |s|
  {
    if s == [] {
      assert prefix + QuoteLines(s) == prefix;
      SplitNoSep(prefix, '\n');
    } else if s[0] == '\n' {
      QuoteLinesSplit("> ", s[1..]);
      QuoteLinesSplitBreak(prefix, s);
    } else {
      var p := prefix + [s[0]];
      assert '\n' !in p;
      QuoteLinesSplit(p, s[1..]);
      QuoteLinesSplitChar(prefix, s);
    }
  }

  /** The step of QuoteLinesSplit at a line break: the prefix ends its line and the next line gets the marker. */
  lemma QuoteLinesSplitBreak(prefix: string, s: string)
    requires '\n' !in prefix && s != [] && s[0] == '\n'
    requires var rest := Split(s[1..], '\n');
             Split("> " + QuoteLines(s[1..]), '\n') == ["> " + rest[0]] + Prefixed(rest[1..], "> ")
    ensures var lines := Split(s, '\n');
            Split(prefix + QuoteLines(s), '\n') == [prefix + lines[0]] + Prefixed(lines[1..], "> ")
  {
    var nl := '\n';
    var rest := Split(s[1..], nl);
    assert prefix + QuoteLines(s) == prefix + [nl] + ("> " + QuoteLines(s[1..]));
    SplitAtSep(prefix, nl, "> " + QuoteLines(s[1..]));
    assert Split(s, nl) == [""] + rest;
    assert ([""] + rest)[1..] == rest;
    assert prefix + "" == prefix;
    PrefixedFirst(rest, "> ");
  }

  /** The step of QuoteLinesSplit at any other character: it joins the prefix. */
  lemma QuoteLinesSplitChar(prefix: string, s: string)
    requires '\n' !in prefix && s != [] && s[0] != '\n'
    requires var rest := Split(s[1..], '\n');
             Split(prefix + [s[0]] + QuoteLines(s[1..]), '\n') == [prefix + [s[0]] + rest[0]] + Prefixed(rest[1..], "> ")
    ensures var lines := Split(s, '\n');
            Split(prefix + QuoteLines(s), '\n') == [prefix + lines[0]] + Prefixed(lines[1..], "> ")
  {
    var rest := Split(s[1..], '\n');
    assert QuoteLines(s) == [s[0]] + QuoteLines(s[1..]);
    assert Split(s, '\n') == [[s[0]] + rest[0]] + rest[1..];
    JoinFirstLine(prefix, s[0], QuoteLines(s[1..]), rest, Split(s, '\n'));
  }

  lemma JoinFirstLine(prefix: string, c: char, q: string, rest: seq<string>, lines: seq<string>)
    requires |rest| >= 1 && lines == [[c] + rest[0]] + rest[1..]
    requires Split(prefix + [c] + q, '\n') == [prefix + [c] + rest[0]] + Prefixed(rest[1..], "> ")
    ensures Split(prefix + ([c] + q), '\n') == [prefix + lines[0]] + Prefixed(lines[1..], "> ")
  {
    assert prefix + ([c] + q) == prefix + [c] + q;
    assert lines[1..] == rest[1..];
    assert prefix + [c] + rest[0] == prefix + lines[0];
  }

  /** Every line of a quoted excerpt starts with `> `, followed by the matching line of the excerpt. */
  lemma QuotedExcerptLines(excerptMd: string)
    ensures Split("> " + QuoteLines(excerptMd), '\n') == Prefixed(Split(excerptMd, '\n'), "> ")
  {
    var lines := Split(excerptMd, '\n');
    QuoteLinesSplit("> ", excerptMd);
    PrefixedFirst(lines, "> ");
  }

  /** Dropping the quote marker from every line and joining the lines gives the excerpt back. */
  lemma UnquoteExcerpt(excerptMd: string)
    ensures var quoted := Split("> " + QuoteLines(excerptMd), '\n');
            forall i :: 0 <= i < |quoted| ==> "> " <= quoted[i]
    ensures var quoted := Split("> " + QuoteLines(excerptMd), '\n');
            Join(seq(|quoted|, i requires 0 <= i < |quoted| => quoted[i][2..]), "\n") == excerptMd
  {
    var lines := Split(excerptMd, '\n');
    var quoted := Split("> " + QuoteLines(excerptMd), '\n');
    QuotedExcerptLines(excerptMd);
    assert seq(|quoted|, i requires 0 <= i < |quoted| => quoted[i][2..]) == lines;
    JoinSplit(excerptMd, '\n');
  }
}
