# xmltomd in Dafny

A model of the conversion core of xmltomd. This browser tool turns a
WordPress export (a WXR file: RSS 2.0 with the `wp:`, `content:`,
`excerpt:` and `dc:` namespaces) into one Markdown document with Italian
headings. The model covers these steps, one file each:

- reading one field of an XML element: `getTextContent` and `cleanCDATA`
  (`fields.dfy`);
- extracting the site information, the site categories and tags, and the
  posts and pages (`parseWordPressXML` without the XML parser), with each
  post's own categories and tags and the newest-first sort
  (`extraction.dfy`);
- the HTML to Markdown conversion of a post body, `htmlToMarkdown`
  (`converter.dfy`). Each regular-expression replacement is a `Rule` that
  is matched at the start of the text, with the JavaScript engine's
  backtracking order written out. It is applied by a left-to-right
  global rewrite;
- the assembly of the document, `generateMarkdown` and `translateStatus`
  (`assembly.dfy`);
- the name of the downloaded file: the slug of the site title, else the
  uploaded file's name without `.xml`, else `wordpress-export`
  (`download.dfy`).

`strings.dfy` holds the JavaScript string operations the code relies on:
`trim`, `split`, `join`, a global replace of a literal, and the decimal
text of a number. `wrappers.dfy` holds `Option` and `Result`.

The code fills arrays with `push` inside `forEach` loops, sorts them in
place, and builds the document with `+=`. The model writes these steps as
methods with loops, each proved equal to a function that states the
result, and proves the properties about those functions.

The XML parser is not modelled. A `Document` is what `DOMParser`,
`querySelector` and `querySelectorAll` reveal: whether the parser reported
an error, the channel element, the category, tag and item nodes in
document order, and each item's category children. An element is a map
from selector to the `textContent` of the first element that selector
finds.

Three things depend on the browser or the clock, and each is a parameter:
- the entity decoding of `decodeHTMLEntities`, a `string -> string`;
- `toLocaleDateString('it-IT', …)`, a `string -> string`;
- today's date in the footer, a string.

The sort compares an abstract integer date key, standing in for `new Date(postDate)`.

The document layout functions take the HTML to Markdown conversion as a
function value. `GenerateMarkdown` passes `MarkdownOf(env.decode)`, which
is `Converter.Convert`, the function that `Converter.HtmlToMarkdown` is
proved to compute.

Where the code and the prose description of the tool disagree, the model follows the code:
- A site category or tag is kept when its name is non-empty BEFORE
  `cleanCDATA`. The name is cleaned only afterwards (app.js:164-172,
  179-185). So a name made only of CDATA markers or blanks gives a
  category with an empty name.
- An item's own category and tag names are tested AFTER cleaning
  (app.js:219-224).

## Model

| member | source | states |
|---|---|---|
| Fields.CleanCDataShape | app.js:262-268 | the empty string gives `''`; every result has no whitespace at either end and is no longer than its input |
| Fields.CleanCDataUnwraps | app.js:264-267 | text containing neither marker, wrapped in `<![CDATA[` … `]]>`, comes back trimmed |
| Fields.CleanCDataHello | app.js:262-268 | `<![CDATA[Hello]]>` cleans to exactly `Hello` |
| Fields.FirstMatchNone | app.js:253-259 | when no selector of the list resolves, the lookup gives `''` |
| Fields.FirstMatchFirst | app.js:253-258 | the first selector in list order that resolves decides the text, and later ones are not consulted |
| Fields.LookUp | app.js:253-259 | the loop over the selectors returns the text of the first one that resolves, or `''` |
| Fields.GetTextContent | app.js:250-260 | an absent parent gives `''`; otherwise the comma-separated, trimmed selectors are tried in order as above |
| Extraction.ReadCategory | app.js:164-172 | a category node gives a record when its name (or else its nicename) is non-empty, with the name and description cleaned, and nothing otherwise |
| Extraction.CollectCategories | app.js:161-173 | the site categories are the records of the kept nodes, in document order |
| Extraction.CollectTags | app.js:176-186 | the site tags are the nodes with a non-empty name, cleaned, in document order |
| Extraction.CategoriesOfAppend | app.js:161-173 | the site categories of a concatenation of nodes are those of the first part followed by those of the second |
| Extraction.CategoriesOfSound | app.js:164-172 | every site category comes from a node whose name (or else nicename) is non-empty, and is that node's record |
| Extraction.CategoriesOfComplete | app.js:164-172 | every node with a non-empty name (or else nicename) gives a category, placed after the categories of the nodes before it |
| Extraction.TagsOfAppend | app.js:176-186 | the site tags of a concatenation of nodes are those of the first part followed by those of the second |
| Extraction.TagsOfSound | app.js:179-185 | every site tag comes from a node with a non-empty name, and is that node's record |
| Extraction.TagsOfComplete | app.js:179-185 | every node with a non-empty name gives a tag, placed after the tags of the nodes before it |
| Extraction.ReadItem | app.js:200-225 | the record of an item: the cleaned title, creator, content and excerpt, the raw link, dates, id, status and type, and its category and tag names |
| Extraction.SplitTerms | app.js:216-225 | one pass over an item's category children fills the category names (domain `category`) and the tag names (domain `post_tag`) |
| Extraction.TermsOfSound | app.js:216-225 | every name in an item's category or tag list is non-empty and is the cleaned text of a child with exactly that domain |
| Extraction.TermsOfComplete | app.js:216-225 | every child with that domain and a non-empty cleaned text is listed |
| Extraction.TermsOfAppend | app.js:217-225 | the names keep document order: the children of a concatenation give the concatenated names |
| Extraction.CollectItems | app.js:189-232 | one pass routes each item whose type is `post` to the posts and `page` to the pages, in document order, and drops every other item |
| Extraction.CollectedHasType | app.js:227-231 | the posts list holds only items of type `post`, the pages list only `page` |
| Extraction.CollectedCount | app.js:193-232 | the number of posts plus the number of pages is the number of items whose type is `post` or `page` |
| Extraction.InsertAddsOne | app.js:235-236 | one insertion step adds exactly the inserted item (as a multiset) |
| Extraction.InsertKeepsOrder | app.js:235-236 | inserting into a newest-first list keeps it newest first |
| Extraction.InsertIsStable | app.js:235-236 | among items with equal date keys, an inserted item goes after those already there |
| Extraction.SortNewestFirst | app.js:235-236 | the sorted list is newest first by date key, is a permutation of the input, and keeps the input order among equal dates (a stable sort) |
| Extraction.ParseWordPressXml | app.js:140-244 | a parser error gives the invalid-file error; a missing channel gives the unrecognised-format error; otherwise: the site information; the site categories and tags; posts holding only `post` items and pages holding only `page` items, each sorted stably newest first; and the two counts adding up to the kept items |
| Converter.MatchAt | app.js:301-345 | every pattern of the converter matches only where the text starts with `<`, and consumes at least one character |
| Converter.HtmlToMarkdown | app.js:295-355 | the rewrites applied in source order to a working copy, then decoding, newline collapsing and trimming, give `Convert`; the result is `''` for `''`, trimmed, and has no run of three newlines |
| Converter.ConvertShape | app.js:296-352 | the conversion gives `''` for `''`; every result is trimmed and has no run of three or more newlines |
| Converter.RewriteWithoutAngle | app.js:301-345 | text without `<` passes any one replacement unchanged |
| Converter.ApplyRulesWithoutAngle | app.js:301-345 | text without `<` passes the whole chain of replacements unchanged |
| Converter.PlainTextConverts | app.js:298-352 | non-empty HTML without `<` is only decoded, collapsed and trimmed |
| Converter.StripLeavesNoTag | app.js:345 | after the generic strip no position of the text starts a match of `<[^>]+>` |
| Converter.DecodeSeesNoTag | app.js:298-348 | the text handed to the entity decoder contains no match of `<[^>]+>` |
| Converter.CollapseLeavesNoRun | app.js:351 | after the collapse no three newlines are adjacent |
| Converter.CollapseKeepsShortRuns | app.js:351 | text without a run of three newlines is left unchanged by the collapse |
| Converter.CollapseLeading | app.js:351 | a leading run of three or more newlines becomes exactly two, and shorter runs stay |
| Converter.TrimKeepsNoRun | app.js:352 | trimming keeps the absence of three-newline runs |
| Converter.BlockRemoved | app.js:301-302 | a `script` or `style` element (any tag name) whose body has no `<` is removed entirely |
| Converter.ElementMatches | app.js:305-336 | the heading, list item, blockquote and code patterns match a whole `<name>x</name>` when `x` has no `<` (and no line break unless the `s` flag is set) |
| Converter.ElementConverts | app.js:305-336 | such an element is rewritten to its text between the rule's prefix and suffix, e.g. `\n# x\n` for `h1` |
| Converter.LinkMatches | app.js:317 | the link pattern matches a whole `<a href="u">t</a>` when `u` has no quote or `>` and `t` has no `<`, `>` or line break |
| Converter.LinkConverts | app.js:317 | such a link is rewritten to `[t](u)` |
| Converter.VoidTagMatches | app.js:341-342 | `<br>`, `<br/>`, `<br />`, `<hr>` and the like (blanks before an optional slash) match whole |
| Converter.VoidTagConverts | app.js:341-342 | such a tag is rewritten to a newline (`br`) or `\n---\n` (`hr`) |
| Converter.EmphasisConverts | app.js:313-314 | `<strong>`, `<b>`, `<em>` or `<i>` around text with no `<` and no line break becomes the text between two `**` or `*` markers, even when the closing name is the other one of the pair |
| Converter.OpenTagConverts | app.js:325-339 | an opening `<ul…>`, `<ol…>` or `<p…>` tag, with any attributes, is replaced as a whole by a newline |
| Converter.CloseTagConverts | app.js:326-340 | a closing `</ul>`, `</ol>` or `</p>` tag is replaced by a newline |
| Converter.ImageSrcAltConverts | app.js:320-322 | `<img src="u" alt="t">` becomes `![t](u)` after the three image rules, taken by the first |
| Converter.ImageAltSrcConverts | app.js:320-322 | `<img alt="t" src="u">` is passed over by the first image rule and becomes `![t](u)` by the second; the third leaves that alone |
| Converter.ImageSrcConverts | app.js:320-322 | `<img src="u">` is passed over by the two rules needing `alt` and becomes `![](u)` by the third |
| Assembly.TranslateStatus | app.js:491-501 | each of the six WordPress status codes shows its Italian label from the table; any other status is shown unchanged |
| Assembly.TranslateStatusLabels | app.js:492-500 | publish, draft, pending, private, future and trash read Pubblicato, Bozza, In attesa, Privato, Programmato and Cestinato; every other status reads as itself |
| Assembly.TranslateStatusIdempotent | app.js:491-501 | no label is itself a status code, so translating a translated status changes nothing |
| Assembly.TranslateStatusDistinct | app.js:492-499 | different status codes get different labels |
| Assembly.TranslateStatusAsWritten | app.js:491-501 | the lookup as written finds an inherited member of `Object.prototype` for each inherited name |
| Assembly.TranslateStatusAgrees | app.js:491-501 | apart from the inherited names, the code as written shows what `TranslateStatus` shows |
| Assembly.ConstructorIsNotPassedThrough | app.js:500 | the status `constructor` is not shown as itself by the code as written, while the passthrough shows it unchanged |
| Assembly.ReadCount | app.js:384-387 | a count read back from a line comes from a line that starts with `- **caption:** ` |
| Assembly.ReadCountLine | app.js:384-387 | a summary count line reads back as exactly the count it was written with |
| Assembly.SummaryAsLines | app.js:383-387 | the summary is, line by line, its heading, a blank line, the four count lines and two blank lines |
| Assembly.SummaryFollowsHeader | app.js:370-387 | the document begins with the site header and continues directly with the summary of counts |
| Assembly.SummaryCounts | app.js:383-387 | the summary's count lines read back the numbers of posts, pages, categories and tags |
| Assembly.CategoriesText | app.js:390-400 | the loop over the categories builds the section: its heading and one `- **name**` line per category, with `: description` when there is one |
| Assembly.CategoriesSectionPresent | app.js:390-400 | the categories section is empty exactly when there are no categories, and otherwise starts with `## Categorie` |
| Assembly.TagsSectionPresent | app.js:403-406 | the tags section is empty exactly when there are no tags, and otherwise is `## Tag`, the names in backquotes joined by `, `, and a blank line |
| Assembly.ItemsSectionPresent | app.js:411-481 | a post or page section is empty exactly when its list is empty, and otherwise starts with `# ARTICOLI` or `# PAGINE` |
| Assembly.BuildBlockBody | app.js:417-451 | the metadata lines (posts add categories and tags), the quoted excerpt of a post when its conversion is non-empty, the converted content when there is some, and the closing rule are appended in that order |
| Assembly.AppendBlock | app.js:414-452 | appending one item's block extends the first `i` blocks to the first `i + 1` |
| Assembly.AppendBlocks | app.js:414-452 | the loop over a list appends every item's block in list order |
| Assembly.ItemsText | app.js:411-481 | a post or page section is its title followed by every block, or nothing for an empty list |
| Assembly.GenerateMarkdown | app.js:366-489 | appending in order gives the document: header, summary, categories, tags, rule, post blocks, page blocks, footer |
| Assembly.HeadingOfBlock | app.js:414-415 | in a section, the block of the item at index `k` starts right after the blocks before it with the heading `## k+1. title` |
| Assembly.HeadingNumbers | app.js:415 | the number of a heading reads back as the position it was written for, and an empty title shows `Senza titolo` |
| Assembly.QuotedExcerptLines | app.js:441 | every line of the quoted excerpt is `> ` followed by the matching line of the converted excerpt |
| Assembly.UnquoteExcerpt | app.js:441 | removing `> ` from every line of the quoted excerpt and joining the lines gives the converted excerpt back |
| Download.Lower | app.js:580 | lowercasing keeps the length and lowercases each letter `A` to `Z` in place |
| Download.DashRunsAlphabet | app.js:581 | after replacing the runs, only `a`-`z`, `0`-`9` and `-` are left |
| Download.DashRunsSpacing | app.js:581 | after replacing the runs no two dashes are adjacent, and a leading dash comes only from a leading dropped character |
| Download.DashRunsAlnums | app.js:581 | replacing the runs keeps every letter and digit, in order |
| Download.CollapseDashesNoop | app.js:582 | collapsing dash runs changes nothing once no two dashes are adjacent |
| Download.StripEdgesShape | app.js:583 | dropping the edge dashes keeps the alphabet, the spacing and the letters and digits, and leaves no dash at either end |
| Download.SlugShape | app.js:579-583 | the slug holds only `a`-`z`, `0`-`9` and single dashes, no dash at either end, and exactly the title's lowercased letters and digits, in order |
| Download.SlugWithoutAlnums | app.js:579-583 | a title without letters or digits has an empty slug |
| Download.SlugIdempotent | app.js:579-583 | the slug of a slug is itself |
| Download.SlugSeparator | app.js:579-583 | a run of characters other than letters and digits, between a letter or digit of `x` and one of `y`, becomes exactly one dash: the slug of `x + run + y` is the slug of `x`, `-`, and the slug of `y` |
| Download.SlugOfWord | app.js:579-583 | a title made only of letters and digits has its lowercase as its slug |
| Download.RemoveXmlExtension | app.js:585 | a file name `x.xml` with no other dot loses exactly its extension |
| Download.TitleWithoutLettersNamesNothing | app.js:577-586 | as written, a non-empty title without letters or digits decides the name, and the name is empty |
| Download.BaseName | app.js:577-586 | the name is the first non-empty one of the title's slug, the file name without `.xml` and `wordpress-export`; it is never empty and agrees with the code whenever the code's name is non-empty |
| Download.Download | app.js:569-589 | nothing is offered while there is no Markdown; otherwise the file holds the Markdown and is named with the base name followed by `.md` |

## Left out

- The user interface: element lookups, event listeners, drag and drop, visibility toggles, toasts, clipboard, and the Blob and link mechanics of the download. These are browser plumbing; only the file name and its content are modelled.
- `readFile` and `processFile`: asynchronous file reading through `FileReader`.
- `DOMParser`, `querySelector` and `querySelectorAll`. Their results are the abstract `Document` and `Element` values, and the two parse failures are the two `ParseError` results.
- `decodeHTMLEntities`: it depends on how the browser's textarea decodes entities, so it is a parameter.
- `formatDate` is modelled only up to its `N/A` case (`Assembly.FormatDate`). `toLocaleDateString` is a parameter, and its exception fallback is not modelled, because it depends on locale data.
- `Extraction.SortNewestFirst`: the comparator `new Date(b) - new Date(a)` is an abstract integer date key. An unparsable date gives `NaN` in JavaScript, which makes the comparison inconsistent; that case is not modelled.
- The footer's current date is a parameter.
- `formatFileSize` uses floating point and `Math.log`, and is not part of this model.
- `Assembly.GenerateMarkdown` converts post bodies with the function `Converter.Convert`, passed as a value. It does not call the method `Converter.HtmlToMarkdown`, which is proved to compute the same text.
- `Download.Lower` lowercases only `A` to `Z`. JavaScript's `toLowerCase` also maps `U+0130` and `U+212A` (KELVIN SIGN) to ASCII letters, so those two characters would survive into the slug; here they become a dash.
- `Converter.ElementMatches`, `Converter.LinkMatches`, `Converter.BlockMatches`, `Converter.VoidTagMatches`, `Converter.EmphasisConverts`, `Converter.OpenTagConverts` and the three image lemmas state the match on well-formed input: lowercase tag names, and image attributes in double quotes whose values hold no quote, `<`, `>` or `=`. The matchers themselves (`Converter.MatchAt` and its helpers) follow every pattern on every input. Only the whole-string rewrite facts above are proved about them.
- Assembly.BuildBlockBody: the status line uses the corrected `Assembly.TranslateStatus`. For the twelve names every JavaScript object inherits from `Object.prototype` (`constructor`, `toString`, `hasOwnProperty`, …) app.js prints the inherited function's source text, where the model prints the status itself (see Findings; `Assembly.TranslateStatusAgrees` proves the two agree on every other status).
- Assembly.Metadata: the same status line, with the same difference.
- Assembly.GenerateMarkdown: the item blocks come from `Assembly.BuildBlockBody`, so the document differs from app.js's on those twelve status names only.
- Download.Download: the file name uses the corrected `Download.BaseName`. For a site title such as `!!!`, whose slug is empty, app.js names the file `.md`, while the model falls back to the file name without `.xml` or to `wordpress-export`; so the length bound on the name holds of the model and not of app.js (see Findings; `Download.BaseName` proves the two agree whenever app.js's name is non-empty).

## Findings

| source | as written | input that shows it | evidently intended | confidence | as-written member | corrected member |
|---|---|---|---|---|---|---|
| app.js:492-500 | `statusMap[status] \|\| status` on a plain object literal also finds the members every object inherits from `Object.prototype` | the status `constructor` (also `toString`, `hasOwnProperty`, …) shows the inherited function's source text instead of the status | only the six listed codes are translated; every other status is shown unchanged | not executed; follows from JavaScript property lookup | Assembly.ConstructorIsNotPassedThrough | Assembly.TranslateStatus |
| app.js:578-583 | a non-empty site title decides the name even when its slug is empty | the site title `!!!` gives the name `""`, so the file is called `.md` | fall back to the file name or `wordpress-export` when the slug is empty | not executed; follows from the three replacements | Download.TitleWithoutLettersNamesNothing | Download.BaseName |
