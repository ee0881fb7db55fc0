/**
 * The HTML to Markdown conversion of a post body: an ordered list of global
 * regular-expression replacements, the generic tag strip, entity decoding,
 * the collapse of long newline runs and a final trim.
 *
 * Each replacement `md.replace(/pattern/flags, replacement)` is modelled as
 * a `Rule`: `MatchAt` says whether and how the pattern matches at the start
 * of a string (with the backtracking order of the JavaScript engine spelled
 * out), and `Rewrite` scans left to right, resuming after each match, the way
 * a global replace does.
 */
module Converter {
  import opened Wrappers
  import opened Strings

  /** A match at the start of the input: how many characters it consumes and
      the text that replaces them. */
  datatype Match = Match(len: nat, replacement: string)

  /** A half-open range `[start, end)` of the input. */
  datatype Span = Span(start: nat, end: nat)

  /** Two quoted attribute values found in one tag, and the position just after the tag. */
  datatype Pair = Pair(first: Span, second: Span, end: nat)

  /** The replacements of the converter, by the shape of their pattern. */
  datatype Rule =
      /** `<name\b[^<]*(?:(?!<\/name>)<[^<]*)*<\/name>` (gi), removed */
    | Block(name: string)
      /** `<name[^>]*>(.*?)<\/name>`, flags gi or gis, replaced by `before$1after` */
    | Element(name: string, dotAll: bool, before: string, after: string)
      /** `<(first|second)>(.*?)<\/(first|second)>` (gi), replaced by `marker$2marker` */
    | Emphasis(first: string, second: string, marker: string)
      /** `<a[^>]*href=["']([^"']*)["'][^>]*>(.*?)<\/a>` (gi), replaced by `[$2]($1)` */
    | Link
      /** `<img[^>]*src=…[^>]*alt=…[^>]*\/?>` (gi), replaced by `![alt](src)` */
    | ImageSrcAlt
      /** `<img[^>]*alt=…[^>]*src=…[^>]*\/?>` (gi), replaced by `![alt](src)` */
    | ImageAltSrc
      /** `<img[^>]*src=…[^>]*\/?>` (gi), replaced by `![](src)` */
    | ImageSrc
      /** `<name[^>]*>` (gi) */
    | OpenTag(name: string, rep: string)
      /** `<\/name>` (gi) */
    | CloseTag(name: string, rep: string)
      /** `<name\s*\/?>` (gi) */
    | VoidTag(name: string, rep: string)
      /** `<[^>]+>` (g), removed */
    | AnyTag

  /** The replacements of htmlToMarkdown, in the order they are applied. */
  const Rules: seq<Rule> := [
    Block("script"),
    Block("style"),
    Element("h1", false, "\n# ", "\n"),
    Element("h2", false, "\n## ", "\n"),
    Element("h3", false, "\n### ", "\n"),
    Element("h4", false, "\n#### ", "\n"),
    Element("h5", false, "\n##### ", "\n"),
    Element("h6", false, "\n###### ", "\n"),
    Emphasis("strong", "b", "**"),
    Emphasis("em", "i", "*"),
    Link,
    ImageSrcAlt,
    ImageAltSrc,
    ImageSrc,
    OpenTag("ul", "\n"),
    CloseTag("ul", "\n"),
    OpenTag("ol", "\n"),
    CloseTag("ol", "\n"),
    Element("li", false, "- ", "\n"),
    Element("blockquote", true, "\n> ", "\n"),
    Element("code", false, "`", "`"),
    Element("pre", true, "\n```\n", "\n```\n"),
    OpenTag("p", "\n"),
    CloseTag("p", "\n"),
    VoidTag("br", "\n"),
    VoidTag("hr", "\n---\n"),
    AnyTag
  ]

  // ------------------------------------------------------ scanning helpers

  predicate IsQuote(c: char) {
    c == '"' || c == '\''
  }

  /** The first position at or after `from` holding `c`. */
  function IndexOf(s: string, from: nat, c: char): (r: Option<nat>)
    ensures r.Some? ==> from <= r.value < |s| && s[r.value] == c
    decreases |s| - from
  {
    if from >= |s| then None
    else if s[from] == c then Some(from)
    else IndexOf(s, from + 1, c)
  }

  /** The first position at or after `from` holding a quote of either kind. */
  function IndexOfQuote(s: string, from: nat): (r: Option<nat>)
    ensures r.Some? ==> from <= r.value < |s| && IsQuote(s[r.value])
    decreases |s| - from
  {
    if from >= |s| then None
    else if IsQuote(s[from]) then Some(from)
    else IndexOfQuote(s, from + 1)
  }

  /** How far a `[^>]*` started at `from` can reach: the first `>`, or the end. */
  function RunEnd(s: string, from: nat): (e: nat)
    requires from <= |s|
    ensures from <= e <= |s|
  {
    match IndexOf(s, from, '>')
    case Some(g) => g
    case None => |s|
  }

  /** Skips a `\s*`. */
  function SkipSpace(s: string, k: nat): (r: nat)
    requires k <= |s|
    ensures k <= r <= |s|
    decreases |s| - k
  {
    if k < |s| && IsWhitespace(s[k]) then SkipSpace(s, k + 1) else k
  }

  /** The length of the first of `alternatives` found at `at`, ignoring ASCII case. */
  function LiteralAt(s: string, at: nat, alternatives: seq<string>): (r: Option<nat>)
    ensures r.Some? ==> at + r.value <= |s|
    ensures r.Some? ==> exists i :: 0 <= i < |alternatives| && r.value == |alternatives[i]|
    decreases |alternatives|
  {
    if alternatives == [] then None
    else if HasAtCI(s, at, alternatives[0]) then Some(|alternatives[0]|)
    else
      var r := LiteralAt(s, at, alternatives[1..]);
      if r.Some? then
        ghost var i :| 0 <= i < |alternatives[1..]| && r.value == |alternatives[1..][i]|;
        assert alternatives[1..][i] == alternatives[i + 1];
        r
      else r
  }

  /** Where a lazy `(.*?)` started at `from` stops: at the first position where
      one of `closes` follows. Without the `s` flag `.` does not match a line
      terminator, so meeting one first means no match. */
  function LazyClose(s: string, from: nat, closes: seq<string>, dotAll: bool): (r: Option<Span>)
    requires from <= |s|
    ensures r.Some? ==> from <= r.value.start <= r.value.end <= |s|
    decreases |s| - from
  {
    match LiteralAt(s, from, closes)
    case Some(n) => Some(Span(from, from + n))
    case None =>
      if from == |s| || (!dotAll && IsLineTerminator(s[from])) then None
      else LazyClose(s, from + 1, closes, dotAll)
  }

  /** `name=` followed by a quote at `p`, then a value up to the next quote of
      either kind: the span of the value. */
  function QuotedValue(s: string, p: nat, name: string): (r: Option<Span>)
    ensures r.Some? ==> p < r.value.start <= r.value.end < |s|
  {
    var v := p + |name| + 2;
    if HasAtCI(s, p, name + "=") && v <= |s| && IsQuote(s[v - 1]) then
      match IndexOfQuote(s, v)
      case Some(u) => Some(Span(v, u))
      case None => None
    else None
  }

  // ------------------------------------------------------------ the rules

  function BlockAt(s: string, name: string): (r: Option<Match>)
    ensures r.Some? ==> 0 < r.value.len <= |s|
  {
    var k := |name| + 1;
    if !HasAtCI(s, 0, "<" + name) || (k < |s| && IsWordChar(s[k])) then None
    else
      match LazyClose(s, k, ["</" + name + ">"], true)
      case Some(c) => Some(Match(c.end, ""))
      case None => None
  }

  function ElementAt(s: string, name: string, dotAll: bool, before: string, after: string): (r: Option<Match>)
    ensures r.Some? ==> 0 < r.value.len <= |s|
  {
    if !HasAtCI(s, 0, "<" + name) then None
    else
      match IndexOf(s, |name| + 1, '>')
      case None => None
      case Some(g) =>
        match LazyClose(s, g + 1, ["</" + name + ">"], dotAll)
        case None => None
        case Some(c) => Some(Match(c.end, before + s[g + 1..c.start] + after))
  }

  function EmphasisAt(s: string, first: string, second: string, marker: string): (r: Option<Match>)
    ensures r.Some? ==> 0 < r.value.len <= |s|
  {
    match LiteralAt(s, 0, ["<" + first + ">", "<" + second + ">"])
    case None => None
    case Some(n) =>
      match LazyClose(s, n, ["</" + first + ">", "</" + second + ">"], false)
      case None => None
      case Some(c) => Some(Match(c.end, marker + s[n..c.start] + marker))
  }

  /** The link pattern with its first `[^>]*` ending exactly at `p`. */
  function LinkAttempt(s: string, p: nat): (r: Option<Match>)
    ensures r.Some? ==> 0 < r.value.len <= |s|
  {
    match QuotedValue(s, p, "href")
    case None => None
    case Some(url) =>
      match IndexOf(s, url.end + 1, '>')
      case None => None
      case Some(g) =>
        match LazyClose(s, g + 1, ["</a>"], false)
        case None => None
        case Some(c) => Some(Match(c.end, "[" + s[g + 1..c.start] + "](" + s[url.start..url.end] + ")"))
  }

  /** The greedy first `[^>]*` gives up characters one at a time, so the
      candidate ends are tried from `p` down to just after `<a`. */
  function LinkFrom(s: string, p: nat): (r: Option<Match>)
    ensures r.Some? ==> 0 < r.value.len <= |s|
    decreases p
  {
    if p < 2 then None
    else
      var attempt := LinkAttempt(s, p);
      if attempt.Some? then attempt else LinkFrom(s, p - 1)
  }

  function LinkAt(s: string): (r: Option<Match>)
    ensures r.Some? ==> 0 < r.value.len <= |s|
  {
    if HasAtCI(s, 0, "<a") then LinkFrom(s, RunEnd(s, 2)) else None
  }

  /** The second attribute of an image pattern, its `[^>]*` prefix ending at
      `p`, tried from the right down to just after the first value. */
  function SecondFrom(s: string, first: Span, name: string, p: nat): (r: Option<Pair>)
    requires first.end < |s| && p <= |s|
    ensures r.Some? ==> r.value.first == first
    ensures r.Some? ==> first.end < r.value.second.start <= r.value.second.end < r.value.end <= |s|
    decreases p
  {
    if p <= first.end then None
    else
      var attempt :=
        match QuotedValue(s, p, name)
        case None => None
        case Some(v) =>
          match IndexOf(s, v.end + 1, '>')
          case None => None
          case Some(g) => Some(Pair(first, v, g + 1));
      if attempt.Some? then attempt else SecondFrom(s, first, name, p - 1)
  }

  /** An image pattern with two attributes, the first one's `[^>]*` prefix
      ending at `p`, tried from the right down to just after `<img`. */
  function PairFrom(s: string, firstName: string, secondName: string, p: nat): (r: Option<Pair>)
    requires p <= |s|
    ensures r.Some? ==> 4 <= r.value.first.start <= r.value.first.end < r.value.end <= |s|
    ensures r.Some? ==> r.value.first.end < r.value.second.start <= r.value.second.end < r.value.end
    decreases p
  {
    if p < 4 then None
    else
      var attempt :=
        match QuotedValue(s, p, firstName)
        case None => None
        case Some(v) => SecondFrom(s, v, secondName, RunEnd(s, v.end + 1));
      if attempt.Some? then attempt else PairFrom(s, firstName, secondName, p - 1)
  }

  function ImageSrcAltAt(s: string): (r: Option<Match>)
    ensures r.Some? ==> 0 < r.value.len <= |s|
  {
    if !HasAtCI(s, 0, "<img") then None
    else
      match PairFrom(s, "src", "alt", RunEnd(s, 4))
      case None => None
      case Some(m) =>
        Some(Match(m.end, "![" + s[m.second.start..m.second.end] + "](" + s[m.first.start..m.first.end] + ")"))
  }

  function ImageAltSrcAt(s: string): (r: Option<Match>)
    ensures r.Some? ==> 0 < r.value.len <= |s|
  {
    if !HasAtCI(s, 0, "<img") then None
    else
      match PairFrom(s, "alt", "src", RunEnd(s, 4))
      case None => None
      case Some(m) =>
        Some(Match(m.end, "![" + s[m.first.start..m.first.end] + "](" + s[m.second.start..m.second.end] + ")"))
  }

  /** The single-attribute image pattern, its `[^>]*` prefix ending at `p`. */
  function SrcFrom(s: string, p: nat): (r: Option<Match>)
    requires p <= |s|
    ensures r.Some? ==> 0 < r.value.len <= |s|
    decreases p
  {
    if p < 4 then None
    else
      var attempt :=
        match QuotedValue(s, p, "src")
        case None => None
        case Some(v) =>
          match IndexOf(s, v.end + 1, '>')
          case None => None
          case Some(g) => Some(Match(g + 1, "![](" + s[v.start..v.end] + ")"));
      if attempt.Some? then attempt else SrcFrom(s, p - 1)
  }

  function ImageSrcAt(s: string): (r: Option<Match>)
    ensures r.Some? ==> 0 < r.value.len <= |s|
  {
    if HasAtCI(s, 0, "<img") then SrcFrom(s, RunEnd(s, 4)) else None
  }

  function OpenTagAt(s: string, name: string, rep: string): (r: Option<Match>)
    ensures r.Some? ==> 0 < r.value.len <= |s|
  {
    if !HasAtCI(s, 0, "<" + name) then None
    else
      match IndexOf(s, |name| + 1, '>')
      case Some(g) => Some(Match(g + 1, rep))
      case None => None
  }

  function CloseTagAt(s: string, name: string, rep: string): (r: Option<Match>)
    ensures r.Some? ==> 0 < r.value.len <= |s|
  {
    if HasAtCI(s, 0, "</" + name + ">") then Some(Match(|name| + 3, rep)) else None
  }

  function VoidTagAt(s: string, name: string, rep: string): (r: Option<Match>)
    ensures r.Some? ==> 0 < r.value.len <= |s|
  {
    if !HasAtCI(s, 0, "<" + name) then None
    else
      var k := SkipSpace(s, |name| + 1);
      if k < |s| && s[k] == '>' then Some(Match(k + 1, rep))
      else if k + 1 < |s| && s[k] == '/' && s[k + 1] == '>' then Some(Match(k + 2, rep))
      else None
  }

  /** `<[^>]+>`: a `<`, at least one character other than `>`, up to the first `>`. */
  function AnyTagAt(s: string): (r: Option<Match>)
    ensures r.Some? ==> 0 < r.value.len <= |s|
  {
    if 2 <= |s| && s[0] == '<' && s[1] != '>' then
      match IndexOf(s, 2, '>')
      case Some(g) => Some(Match(g + 1, ""))
      case None => None
    else None
  }

  /** Whether and how `rule` matches at the start of `s`. Every pattern of the
      converter begins with `<`. */
  function MatchAt(rule: Rule, s: string): (r: Option<Match>)
    ensures r.Some? ==> 0 < r.value.len <= |s| && s[0] == '<'
  {
    if s == [] || s[0] != '<' then None
    else
      match rule
      case Block(name) => BlockAt(s, name)
      case Element(name, dotAll, before, after) => ElementAt(s, name, dotAll, before, after)
      case Emphasis(first, second, marker) => EmphasisAt(s, first, second, marker)
      case Link => LinkAt(s)
      case ImageSrcAlt => ImageSrcAltAt(s)
      case ImageAltSrc => ImageAltSrcAt(s)
      case ImageSrc => ImageSrcAt(s)
      case OpenTag(name, rep) => OpenTagAt(s, name, rep)
      case CloseTag(name, rep) => CloseTagAt(s, name, rep)
      case VoidTag(name, rep) => VoidTagAt(s, name, rep)
      case AnyTag => AnyTagAt(s)
  }

  /** A global replace: scan left to right; where the rule matches, emit its
      replacement and resume after the match, otherwise keep one character. */
  function Rewrite(rule: Rule, s: string): string
    decreases |s|
  {
    if s == [] then []
    else
      match MatchAt(rule, s)
      case Some(m) => m.replacement + Rewrite(rule, s[m.len..])
      case None => [s[0]] + Rewrite(rule, s[1..])
  }

  /** The rules applied one after the other, the first rule first. */
  function ApplyRules(rules: seq<Rule>, s: string): string
    decreases |rules|
  {
    if rules == [] then s else Rewrite(rules[|rules| - 1], ApplyRules(rules[..|rules| - 1], s))
  }

  // ------------------------------------------------------- newline runs

  /** How many newlines `s` starts with. */
  function LeadingNewlines(s: string): (n: nat)
    ensures n <= |s|
    decreases |s|
  {
    if s != [] && s[0] == '\n' then 1 + LeadingNewlines(s[1..]) else 0
  }

  /** `s.replace(/\n{3,}/g, '\n\n')`: every maximal run of three or more
      newlines becomes exactly two. */
  function CollapseNewlines(s: string): string
    decreases |s|
  {
    if s == [] then []
    else
      var n := LeadingNewlines(s);
      if n >= 3 then "\n\n" + CollapseNewlines(s[n..])
      else [s[0]] + CollapseNewlines(s[1..])
  }

  /** No three newlines in a row. */
  predicate NoNewlineRun(s: string) {
    forall i :: 0 <= i < |s| - 2 ==> !(s[i] == '\n' && s[i + 1] == '\n' && s[i + 2] == '\n')
  }

  // ------------------------------------------------------ htmlToMarkdown

  /** htmlToMarkdown, with the browser's entity decoding as a parameter. */
  function Convert(html: string, decode: string -> string): string {
    if html == "" then ""
    else Trim(CollapseNewlines(decode(ApplyRules(Rules, html))))
  }

  /** htmlToMarkdown: the replacements one after the other on a working copy,
      then entity decoding, newline collapsing and trimming. */
  method HtmlToMarkdown(html: string, decode: string -> string) returns (md: string)
    ensures md == Convert(html, decode)
    ensures html == "" ==> md == ""
    ensures IsTrimmed(md) && NoNewlineRun(md)
  {
    if html == "" {
      return "";
    }
    md := html;
    for k := 0 to |Rules|
      invariant md == ApplyRules(Rules[..k], html)
    {
      assert Rules[..k + 1][..k] == Rules[..k];
      md := Rewrite(Rules[k], md);
    }
    assert Rules[..|Rules|] == Rules;
    md := decode(md);
    CollapseLeavesNoRun(md);
    md := CollapseNewlines(md);
    TrimKeepsNoRun(md);
    md := Trim(md);
  }

  // ---------------------------------------------------------- properties

  /** Text with no `<` goes through every replacement unchanged. */
  lemma {:induction false} RewriteWithoutAngle(rule: Rule, s: string)
    requires '<' !in s
    ensures Rewrite(rule, s) == s
    decreases |s|
  {
    if s != [] {
      assert s[0] != '<';
      assert '<' !in s[1..];
      RewriteWithoutAngle(rule, s[1..]);
    }
  }

  lemma {:induction false} ApplyRulesWithoutAngle(rules: seq<Rule>, s: string)
    requires '<' !in s
    ensures ApplyRules(rules, s) == s
    decreases |rules|
  {
    if rules != [] {
      ApplyRulesWithoutAngle(rules[..|rules| - 1], s);
      RewriteWithoutAngle(rules[|rules| - 1], s);
    }
  }

  /** Plain text is only decoded, collapsed and trimmed. */
  lemma PlainTextConverts(html: string, decode: string -> string)
    requires html != "" && '<' !in html
    ensures Convert(html, decode) == Trim(CollapseNewlines(decode(html)))
  {
    ApplyRulesWithoutAngle(Rules, html);
  }

  /** The strip rule never introduces a `>`. */
  lemma {:induction false} StripKeepsNoClose(s: string)
    requires '>' !in s
    ensures '>' !in Rewrite(AnyTag, s)
    decreases |s|
  {
    if s != [] {
      assert '>' !in s[1..];
      StripKeepsNoClose(s[1..]);
      match MatchAt(AnyTag, s)
      case Some(m) =>
        assert '>' !in s[m.len..];
        StripKeepsNoClose(s[m.len..]);
      case None =>
    }
  }

  lemma {:induction false} IndexOfAbsent(s: string, from: nat, c: char)
    requires forall j :: from <= j < |s| ==> s[j] != c
    ensures IndexOf(s, from, c) == None
    decreases |s| - from
  {
    if from < |s| {
      IndexOfAbsent(s, from + 1, c);
    }
  }

  /** The strip rule's result starts with `>` when its input does. */
  lemma StripKeepsLeadingClose(s: string)
    requires s != [] && s[0] == '>'
    ensures Rewrite(AnyTag, s) != [] && Rewrite(AnyTag, s)[0] == '>'
  {
  }

  /** After the generic strip, `<[^>]+>` matches nowhere. */
  lemma {:induction false} StripLeavesNoTag(s: string)
    ensures forall i :: 0 <= i < |Rewrite(AnyTag, s)| ==> MatchAt(AnyTag, Rewrite(AnyTag, s)[i..]).None?
    decreases |s|
  {
    var r := Rewrite(AnyTag, s);
    if s != [] {
      match MatchAt(AnyTag, s)
      case Some(m) =>
        assert r == Rewrite(AnyTag, s[m.len..]);
        StripLeavesNoTag(s[m.len..]);
      case None =>
        var rest := Rewrite(AnyTag, s[1..]);
        StripLeavesNoTag(s[1..]);
        assert r == [s[0]] + rest;
        forall i | 1 <= i < |r|
          ensures MatchAt(AnyTag, r[i..]).None?
        {
          assert r[i..] == rest[i - 1..];
        }
        if s[0] == '<' && |s| >= 2 {
          if s[1] == '>' {
            StripKeepsLeadingClose(s[1..]);
          } else {
            assert IndexOf(s, 2, '>') == None;
            forall j | 1 <= j < |s| ensures s[j] != '>' {
              if j >= 2 && s[j] == '>' {
                IndexOfFinds(s, 2, j, '>');
              }
            }
            assert '>' !in s[1..];
            StripKeepsNoClose(s[1..]);
            forall j | 2 <= j < |r| ensures r[j] != '>' {
              assert r[j] == rest[j - 1];
            }
            IndexOfAbsent(r, 2, '>');
          }
        }
    }
  }

  /** A `c` at or after `from` is found. */
  lemma {:induction false} IndexOfFinds(s: string, from: nat, j: nat, c: char)
    requires from <= j < |s| && s[j] == c
    ensures IndexOf(s, from, c).Some?
    decreases j - from
  {
    if s[from] != c {
      IndexOfFinds(s, from + 1, j, c);
    }
  }

  /** What the collapse emits starts with as many newlines as its input, but at most two. */
  lemma {:induction false} CollapseLeading(s: string)
    ensures LeadingNewlines(CollapseNewlines(s)) == (if LeadingNewlines(s) >= 3 then 2 else LeadingNewlines(s))
    decreases |s|
  {
    if s != [] {
      var n := LeadingNewlines(s);
      if n >= 3 {
        RunEnds(s);
        var t := CollapseNewlines(s[n..]);
        assert s[n..] == [] || s[n..][0] != '\n';
        assert CollapseNewlines(s) == "\n\n" + t;
        assert LeadingNewlines(t) == 0;
        assert ("\n\n" + t)[1..] == "\n" + t;
        assert ("\n" + t)[1..] == t;
      } else {
        CollapseLeading(s[1..]);
        assert CollapseNewlines(s) == [s[0]] + CollapseNewlines(s[1..]);
        assert ([s[0]] + CollapseNewlines(s[1..]))[1..] == CollapseNewlines(s[1..]);
      }
    }
  }

  /** A run of newlines ends at a character that is not a newline, or at the end. */
  lemma {:induction false} RunEnds(s: string)
    ensures LeadingNewlines(s) == |s| || s[LeadingNewlines(s)] != '\n'
    ensures forall k :: 0 <= k < LeadingNewlines(s) ==> s[k] == '\n'
    decreases |s|
  {
    if s != [] && s[0] == '\n' {
      RunEnds(s[1..]);
    }
  }

  lemma {:induction false} CollapseEmptyStart(t: string)
    requires t == [] || t[0] != '\n'
    ensures LeadingNewlines(CollapseNewlines(t)) == 0
  {
    CollapseLeading(t);
  }

  /** Two newlines in front of a text that does not start with one make no run. */
  lemma TwoNewlinesBefore(t: string)
    requires NoNewlineRun(t) && (t == [] || t[0] != '\n')
    ensures NoNewlineRun("\n\n" + t)
  {
    var r := "\n\n" + t;
    forall i | 0 <= i < |r| - 2
      ensures !(r[i] == '\n' && r[i + 1] == '\n' && r[i + 2] == '\n')
    {
      if i >= 2 {
        assert r[i] == t[i - 2] && r[i + 1] == t[i - 1] && r[i + 2] == t[i];
      } else {
        assert r[2] == t[0];
      }
    }
  }

  /** One character in front of a text makes no run, unless it is a newline
      and the text already starts with two. */
  lemma CharBefore(c: char, t: string)
    requires NoNewlineRun(t) && (c == '\n' ==> LeadingNewlines(t) <= 1)
    ensures NoNewlineRun([c] + t)
  {
    var r := [c] + t;
    if c == '\n' {
      RunEnds(t);
    }
    forall i | 0 <= i < |r| - 2
      ensures !(r[i] == '\n' && r[i + 1] == '\n' && r[i + 2] == '\n')
    {
      if i >= 1 {
        assert r[i] == t[i - 1] && r[i + 1] == t[i] && r[i + 2] == t[i + 1];
      } else if c == '\n' {
        assert r[1] == t[0] && r[2] == t[1];
      }
    }
  }

  /** After the collapse no three newlines are left in a row. */
  lemma {:induction false} CollapseLeavesNoRun(s: string)
    ensures NoNewlineRun(CollapseNewlines(s))
    decreases |s|
  {
    if s != [] {
      var n := LeadingNewlines(s);
      if n >= 3 {
        RunEnds(s);
        var t := CollapseNewlines(s[n..]);
        CollapseLeavesNoRun(s[n..]);
        CollapseEmptyStart(s[n..]);
        assert t == [] || t[0] != '\n';
        TwoNewlinesBefore(t);
      } else {
        var t := CollapseNewlines(s[1..]);
        CollapseLeavesNoRun(s[1..]);
        if s[0] == '\n' {
          CollapseLeading(s[1..]);
          assert LeadingNewlines(s) == 1 + LeadingNewlines(s[1..]);
        }
        CharBefore(s[0], t);
      }
    }
  }

  /** A slice of a string with no run of three newlines has none either. */
  lemma SliceKeepsNoRun(s: string, lo: nat, hi: nat)
    requires lo <= hi <= |s| && NoNewlineRun(s)
    ensures NoNewlineRun(s[lo..hi])
  {
    var r := s[lo..hi];
    forall i | 0 <= i < |r| - 2
      ensures !(r[i] == '\n' && r[i + 1] == '\n' && r[i + 2] == '\n')
    {
      assert r[i] == s[lo + i] && r[i + 1] == s[lo + i + 1] && r[i + 2] == s[lo + i + 2];
    }
  }

  /** Trimming takes a slice, so it cannot create a run of newlines. */
  lemma TrimKeepsNoRun(s: string)
    requires NoNewlineRun(s)
    ensures NoNewlineRun(Trim(s))
  {
    var lo, hi := TrimSlice(s);
    SliceKeepsNoRun(s, lo, hi);
  }

  /** A string with no run of three newlines is left as it is by the collapse. */
  lemma {:induction false} CollapseKeepsShortRuns(s: string)
    requires NoNewlineRun(s)
    ensures CollapseNewlines(s) == s
    decreases |s|
  {
    if s != [] {
      var n := LeadingNewlines(s);
      RunEnds(s);
      if |s| >= 3 {
        assert !(s[0] == '\n' && s[1] == '\n' && s[2] == '\n');
      }
      assert n < 3;
      assert NoNewlineRun(s[1..]) by {
        forall i | 0 <= i < |s[1..]| - 2
          ensures !(s[1..][i] == '\n' && s[1..][i + 1] == '\n' && s[1..][i + 2] == '\n')
        {
          assert s[1..][i] == s[i + 1] && s[1..][i + 1] == s[i + 2] && s[1..][i + 2] == s[i + 3];
        }
      }
      CollapseKeepsShortRuns(s[1..]);
    }
  }

  /** The shape of every conversion result: empty input gives `''`, the
      result is trimmed and holds no run of three newlines. */
  lemma ConvertShape(html: string, decode: string -> string)
    ensures html == "" ==> Convert(html, decode) == ""
    ensures IsTrimmed(Convert(html, decode))
    ensures NoNewlineRun(Convert(html, decode))
  {
    if html != "" {
      var c := CollapseNewlines(decode(ApplyRules(Rules, html)));
      CollapseLeavesNoRun(decode(ApplyRules(Rules, html)));
      TrimKeepsNoRun(c);
    }
  }

  /** The generic strip is the last replacement, so `<[^>]+>` matches nowhere
      in the text that entity decoding receives. */
  lemma DecodeSeesNoTag(html: string)
    ensures forall i :: 0 <= i < |ApplyRules(Rules, html)| ==> MatchAt(AnyTag, ApplyRules(Rules, html)[i..]).None?
  {
    assert Rules[|Rules| - 1] == AnyTag;
    StripLeavesNoTag(ApplyRules(Rules[..|Rules| - 1], html));
  }

  // ------------------------------------------------ the rules on examples

  /** Lower-case ASCII letters and digits, as the tag names of the patterns are written. */
  predicate IsTagName(name: string) {
    name != [] && forall k :: 0 <= k < |name| ==> 'a' <= name[k] <= 'z' || '0' <= name[k] <= '9'
  }

  predicate NoLineTerminator(x: string) {
    forall k :: 0 <= k < |x| ==> !IsLineTerminator(x[k])
  }

  /** A literal present at `at`, written in lower case, is recognised whatever its case. */
  lemma HasAtCIOfLower(s: string, at: nat, lit: string)
    requires at + |lit| <= |s| && s[at..at + |lit|] == lit
    requires forall k :: 0 <= k < |lit| ==> !('A' <= lit[k] <= 'Z')
    ensures HasAtCI(s, at, lit)
  {
    forall k | 0 <= k < |lit| ensures LowerAscii(s[at + k]) == lit[k] {
      assert s[at + k] == s[at..at + |lit|][k];
    }
  }

  /** No alternative that starts with `<` is found where the text has no `<`. */
  lemma NotLiteralAt(s: string, at: nat, alternatives: seq<string>)
    requires at < |s| && s[at] != '<'
    requires forall i :: 0 <= i < |alternatives| ==> alternatives[i] != [] && alternatives[i][0] == '<'
    ensures LiteralAt(s, at, alternatives) == None
    decreases |alternatives|
  {
    if alternatives != [] {
      assert LowerAscii(s[at + 0]) != alternatives[0][0];
      NotLiteralAt(s, at, alternatives[1..]);
    }
  }

  /** The lazy `(.*?)` runs over text with no `<` (and no line terminator, unless
      `dotAll`) up to the closing literal that follows it. */
  lemma {:induction false} LazyCloseReaches(s: string, from: nat, c: nat, closes: seq<string>, dotAll: bool, n: nat)
    requires from <= c <= |s|
    requires forall i :: 0 <= i < |closes| ==> closes[i] != [] && closes[i][0] == '<'
    requires forall j :: from <= j < c ==> s[j] != '<' && (dotAll || !IsLineTerminator(s[j]))
    requires LiteralAt(s, c, closes) == Some(n)
    ensures LazyClose(s, from, closes, dotAll) == Some(Span(c, c + n))
    decreases c - from
  {
    if from < c {
      NotLiteralAt(s, from, closes);
      LazyCloseReaches(s, from + 1, c, closes, dotAll, n);
    }
  }

  /** The opening `<name…>` of an element pattern, up to its first `>`. */
  lemma OpensWith(s: string, name: string)
    requires IsTagName(name) && |name| + 2 <= |s| && s[..|name| + 2] == "<" + name + ">"
    ensures HasAtCI(s, 0, "<" + name)
    ensures IndexOf(s, |name| + 1, '>') == Some(|name| + 1)
  {
    assert s[..|name| + 1] == "<" + name;
    HasAtCIOfLower(s, 0, "<" + name);
    assert s[|name| + 1] == (s[..|name| + 2])[|name| + 1] == '>';
  }

  /** The content `x` at `from`, followed by the closing literal `close`, which ends the string. */
  lemma ClosesAfter(s: string, from: nat, x: string, close: string, dotAll: bool)
    requires from + |x| + |close| == |s| && s[from..from + |x|] == x
    requires close != [] && close[0] == '<' && HasAtCI(s, from + |x|, close)
    requires '<' !in x && (dotAll || NoLineTerminator(x))
    ensures LazyClose(s, from, [close], dotAll) == Some(Span(from + |x|, |s|))
  {
    var c := from + |x|;
    assert LiteralAt(s, c, [close]) == Some(|close|);
    forall j | from <= j < c
      ensures s[j] != '<' && (dotAll || !IsLineTerminator(s[j]))
    {
      assert s[j] == s[from..c][j - from] == x[j - from];
    }
    LazyCloseReaches(s, from, c, [close], dotAll, |close|);
  }

  /** A whole string consumed by one match is replaced by that match's replacement. */
  lemma RewriteWhole(rule: Rule, s: string, replacement: string)
    requires MatchAt(rule, s) == Some(Match(|s|, replacement))
    ensures Rewrite(rule, s) == replacement
  {
    assert s[|s|..] == [];
  }

  /** `</name>` has no upper-case letter when `name` has none. */
  lemma CloseTagLower(name: string)
    requires IsTagName(name)
    ensures var close := "</" + name + ">"; forall k :: 0 <= k < |close| ==> !('A' <= close[k] <= 'Z')
  {
    var close := "</" + name + ">";
    forall k | 0 <= k < |close| ensures !('A' <= close[k] <= 'Z') {
      if 2 <= k < |close| - 1 {
        assert close[k] == name[k - 2];
      }
    }
  }

  /** Where each part of `<name>x</name>` sits. */
  lemma ElementLayout(s: string, name: string, x: string)
    requires s == "<" + name + ">" + x + "</" + name + ">"
    ensures |s| == 2 * |name| + |x| + 5
    ensures s[..|name| + 2] == "<" + name + ">"
    ensures s[|name| + 2..|name| + 2 + |x|] == x
    ensures s[|name| + 2 + |x|..] == "</" + name + ">"
  {
    assert s == ("<" + name + ">") + x + ("</" + name + ">");
  }

  /** `</name>` ending the string is recognised whatever its case. */
  lemma ClosingTag(s: string, at: nat, name: string)
    requires IsTagName(name) && at + |name| + 3 == |s| && s[at..] == "</" + name + ">"
    ensures HasAtCI(s, at, "</" + name + ">")
  {
    CloseTagLower(name);
    assert s[at..at + |name| + 3] == s[at..];
    HasAtCIOfLower(s, at, "</" + name + ">");
  }

  /** An element pattern matches the whole of `<name>x</name>`. */
  lemma ElementMatches(s: string, name: string, dotAll: bool, before: string, after: string, x: string)
    requires IsTagName(name) && '<' !in x && (dotAll || NoLineTerminator(x))
    requires |s| == 2 * |name| + |x| + 5 && s[..|name| + 2] == "<" + name + ">"
    requires s[|name| + 2..|name| + 2 + |x|] == x && HasAtCI(s, |name| + 2 + |x|, "</" + name + ">")
    ensures ElementAt(s, name, dotAll, before, after) == Some(Match(|s|, before + x + after))
  {
    OpensWith(s, name);
    ClosesAfter(s, |name| + 2, x, "</" + name + ">", dotAll);
  }

  /** An element pattern turns `<name>x</name>` into `before x after` when the
      content holds no tag (and no line break, for the rules without `s`). */
  lemma ElementConverts(name: string, dotAll: bool, before: string, after: string, x: string)
    requires IsTagName(name) && '<' !in x && (dotAll || NoLineTerminator(x))
    ensures Rewrite(Element(name, dotAll, before, after), "<" + name + ">" + x + "</" + name + ">")
            == before + x + after
  {
    var s := "<" + name + ">" + x + "</" + name + ">";
    ElementLayout(s, name, x);
    ClosingTag(s, |name| + 2 + |x|, name);
    ElementMatches(s, name, dotAll, before, after, x);
    RewriteWhole(Element(name, dotAll, before, after), s, before + x + after);
  }

  /** The first `c` at or after `from`, when none comes before `k`. */
  lemma {:induction false} IndexOfFirst(s: string, from: nat, k: nat, c: char)
    requires from <= k < |s| && s[k] == c
    requires forall j :: from <= j < k ==> s[j] != c
    ensures IndexOf(s, from, c) == Some(k)
    decreases k - from
  {
    if from < k {
      IndexOfFirst(s, from + 1, k, c);
    }
  }

  lemma {:induction false} IndexOfQuoteFirst(s: string, from: nat, k: nat)
    requires from <= k < |s| && IsQuote(s[k])
    requires forall j :: from <= j < k ==> !IsQuote(s[j])
    ensures IndexOfQuote(s, from) == Some(k)
    decreases k - from
  {
    if from < k {
      IndexOfQuoteFirst(s, from + 1, k);
    }
  }

  /** Candidate ends that fail hand over to the next one on the left. */
  lemma {:induction false} LinkFromSkips(s: string, p: nat, lo: nat)
    requires 2 <= lo <= p
    requires forall q :: lo < q <= p ==> LinkAttempt(s, q) == None
    ensures LinkFrom(s, p) == LinkFrom(s, lo)
    decreases p
  {
    if lo < p {
      LinkFromSkips(s, p - 1, lo);
    }
  }

  /** Where each part of `<a href="u">t</a>` sits. */
  predicate LinkShape(s: string, u: string, t: string) {
    |s| == |u| + |t| + 15
    && s[..9] == "<a href=\""
    && s[9..9 + |u|] == u && s[9 + |u|] == '"' && s[10 + |u|] == '>'
    && s[11 + |u|..11 + |u| + |t|] == t && s[11 + |u| + |t|..] == "</a>"
  }

  lemma LinkLayout(s: string, u: string, t: string)
    requires s == "<a href=\"" + u + "\">" + t + "</a>"
    ensures LinkShape(s, u, t)
  {
  }

  /** The opening `<a href="` of a link. */
  lemma LinkHead(s: string, u: string, t: string)
    requires LinkShape(s, u, t)
    ensures s[0..2] == "<a" && s[3..8] == "href=" && s[8] == '"'
    ensures forall j :: 2 <= j < 9 ==> s[j] != '>' && s[j] != '<'
  {
    var head := "<a href=\"";
    forall j | 0 <= j < 9
      ensures s[j] == head[j]
    {
      assert s[j] == s[..9][j];
    }
    assert s[0..2] == head[0..2];
    assert s[3..8] == head[3..8];
  }

  lemma LinkUrlAt(s: string, u: string, t: string, j: nat)
    requires LinkShape(s, u, t) && 9 <= j < 9 + |u|
    ensures s[j] == u[j - 9]
  {
    assert s[j] == s[9..9 + |u|][j - 9];
  }

  lemma LinkTextAt(s: string, u: string, t: string, j: nat)
    requires LinkShape(s, u, t) && 11 + |u| <= j < 11 + |u| + |t|
    ensures s[j] == t[j - 11 - |u|]
  {
    assert s[j] == s[11 + |u|..11 + |u| + |t|][j - 11 - |u|];
  }

  /** Inside the URL no candidate has a quote five places on. */
  lemma LinkCandidateInUrl(s: string, u: string, t: string, q: nat)
    requires LinkShape(s, u, t)
    requires forall k :: 0 <= k < |u| ==> !IsQuote(u[k])
    requires 3 < q < 4 + |u|
    ensures QuotedValue(s, q, "href") == None
  {
    LinkUrlAt(s, u, t, q + 5);
  }

  /** A candidate whose `href=` would end the URL finds no `>` but the last
      one, so the lazy text has nowhere to stop. */
  lemma LinkCandidateAtUrlEnd(s: string, u: string, t: string)
    requires LinkShape(s, u, t)
    requires '>' !in t
    ensures LinkAttempt(s, 4 + |u|) == None
  {
    match QuotedValue(s, 4 + |u|, "href")
    case None =>
    case Some(v) =>
      assert v.end >= 11 + |u|;
      match IndexOf(s, v.end + 1, '>')
      case None =>
      case Some(g) =>
        LinkOnlyLastGt(s, u, t, g);
        LazyCloseAtEnd(s);
  }

  /** After the tag's own `>`, the only `>` is the last character. */
  lemma LinkOnlyLastGt(s: string, u: string, t: string, g: nat)
    requires LinkShape(s, u, t) && '>' !in t
    requires 11 + |u| <= g < |s| && s[g] == '>'
    ensures g == |s| - 1
  {
    var e := 11 + |u| + |t|;
    if g < e {
      LinkTextAt(s, u, t, g);
    } else {
      assert s[e..] == "</a>";
      assert s[g] == s[e..][g - e];
    }
  }

  /** Nothing is left to close a link at the end of the text. */
  lemma LazyCloseAtEnd(s: string)
    ensures LazyClose(s, |s|, ["</a>"], false) == None
  {
  }

  /** A candidate from the closing quote on cannot spell `href=`. */
  lemma LinkCandidateAfterUrl(s: string, u: string, t: string, q: nat)
    requires LinkShape(s, u, t)
    requires 4 + |u| < q <= 10 + |u|
    ensures QuotedValue(s, q, "href") == None
  {
    var k := if q < 10 + |u| then 9 + |u| - q else 0;
    assert "href" + "=" == "href=";
    assert LowerAscii(s[q + k]) != "href="[k];
  }

  /** The value of the real `href` is the URL. */
  lemma LinkHrefValue(s: string, u: string, t: string)
    requires LinkShape(s, u, t)
    requires forall k :: 0 <= k < |u| ==> !IsQuote(u[k])
    ensures QuotedValue(s, 3, "href") == Some(Span(9, 9 + |u|))
  {
    LinkHead(s, u, t);
    HasAtCIOfLower(s, 3, "href=");
    forall j | 9 <= j < 9 + |u|
      ensures !IsQuote(s[j])
    {
      LinkUrlAt(s, u, t, j);
    }
    IndexOfQuoteFirst(s, 9, 9 + |u|);
  }

  /** The closing `</a>` of a link. */
  lemma LinkTail(s: string, u: string, t: string)
    requires LinkShape(s, u, t)
    ensures HasAtCI(s, 11 + |u| + |t|, "</a>")
  {
    var e := 11 + |u| + |t|;
    assert s[e..e + 4] == s[e..];
    HasAtCIOfLower(s, e, "</a>");
  }

  /** The URL is followed by a `>`, then the text and `</a>`, which end the string. */
  lemma LinkTextCloses(s: string, u: string, t: string)
    requires LinkShape(s, u, t)
    requires '<' !in t && NoLineTerminator(t)
    ensures IndexOf(s, 10 + |u|, '>') == Some(10 + |u|)
    ensures LazyClose(s, 11 + |u|, ["</a>"], false) == Some(Span(11 + |u| + |t|, |s|))
  {
    var close := "</a>";
    LinkTail(s, u, t);
    ClosesAfter(s, 11 + |u|, t, close, false);
    assert LazyClose(s, 11 + |u|, [close], false) == Some(Span(11 + |u| + |t|, |s|));
  }

  /** The real `href` is the one the pattern settles on. */
  lemma LinkAttemptAtHref(s: string, u: string, t: string)
    requires LinkShape(s, u, t)
    requires forall k :: 0 <= k < |u| ==> !IsQuote(u[k])
    requires '<' !in t && NoLineTerminator(t)
    ensures LinkAttempt(s, 3) == Some(Match(|s|, "[" + t + "](" + u + ")"))
  {
    var n := |u|;
    LinkHrefValue(s, u, t);
    LinkTextCloses(s, u, t);
    LinkAttemptFound(s, 3, Span(9, 9 + n), 10 + n, Span(11 + n + |t|, |s|));
  }

  /** A link attempt that finds its `href` value, the `>` after it and a closing
      `</a>` gives the text before the closing tag and the value. */
  lemma LinkAttemptFound(s: string, p: nat, url: Span, g: nat, c: Span)
    requires QuotedValue(s, p, "href") == Some(url)
    requires IndexOf(s, url.end + 1, '>') == Some(g)
    requires LazyClose(s, g + 1, ["</a>"], false) == Some(c)
    ensures LinkAttempt(s, p) == Some(Match(c.end, "[" + s[g + 1..c.start] + "](" + s[url.start..url.end] + ")"))
  {
  }

  /** On `<a href="u">t</a>` the pattern's first `[^>]*` can reach the `>`
      after the URL, and every candidate end after the real `href` fails. */
  lemma LinkCandidatesFail(s: string, u: string, t: string)
    requires LinkShape(s, u, t)
    requires forall k :: 0 <= k < |u| ==> !IsQuote(u[k]) && u[k] != '>'
    requires '>' !in t
    ensures RunEnd(s, 2) == 10 + |u|
    ensures forall q :: 3 < q <= 10 + |u| ==> LinkAttempt(s, q) == None
  {
    var n := |u|;
    LinkHead(s, u, t);
    forall j | 9 <= j < 9 + n
      ensures s[j] != '>'
    {
      LinkUrlAt(s, u, t, j);
    }
    IndexOfFirst(s, 2, 10 + n, '>');
    forall q | 3 < q <= 10 + n
      ensures LinkAttempt(s, q) == None
    {
      if q < 4 + n {
        LinkCandidateInUrl(s, u, t, q);
      } else if q == 4 + n {
        LinkCandidateAtUrlEnd(s, u, t);
      } else {
        LinkCandidateAfterUrl(s, u, t, q);
      }
    }
  }

  /** The link pattern matches the whole of `<a href="u">t</a>`. */
  lemma LinkMatches(s: string, u: string, t: string)
    requires LinkShape(s, u, t)
    requires forall k :: 0 <= k < |u| ==> !IsQuote(u[k]) && u[k] != '>'
    requires '<' !in t && '>' !in t && NoLineTerminator(t)
    ensures MatchAt(Link, s) == Some(Match(|s|, "[" + t + "](" + u + ")"))
  {
    LinkHead(s, u, t);
    HasAtCIOfLower(s, 0, "<a");
    LinkCandidatesFail(s, u, t);
    LinkFromSkips(s, 10 + |u|, 3);
    LinkAttemptAtHref(s, u, t);
  }

  /** The link pattern turns `<a href="u">t</a>` into `[t](u)` when the URL
      holds no quote or `>` and the text no tag, `>` or line break. */
  lemma LinkConverts(u: string, t: string)
    requires forall k :: 0 <= k < |u| ==> !IsQuote(u[k]) && u[k] != '>'
    requires '<' !in t && '>' !in t && NoLineTerminator(t)
    ensures Rewrite(Link, "<a href=\"" + u + "\">" + t + "</a>") == "[" + t + "](" + u + ")"
  {
    var s := "<a href=\"" + u + "\">" + t + "</a>";
    LinkLayout(s, u, t);
    LinkMatches(s, u, t);
    RewriteWhole(Link, s, "[" + t + "](" + u + ")");
  }

  /** The block pattern matches the whole of `<name>x</name>`. */
  lemma BlockMatches(s: string, name: string, x: string)
    requires IsTagName(name) && '<' !in x
    requires |s| == 2 * |name| + |x| + 5 && s[..|name| + 2] == "<" + name + ">"
    requires s[|name| + 2..|name| + 2 + |x|] == x && HasAtCI(s, |name| + 2 + |x|, "</" + name + ">")
    ensures BlockAt(s, name) == Some(Match(|s|, ""))
  {
    var k := |name| + 1;
    OpensWith(s, name);
    assert s[k] == '>' && !IsWordChar(s[k]);
    assert s[k..k + 1 + |x|] == ">" + x;
    assert '<' !in ">" + x;
    ClosesAfter(s, k, ">" + x, "</" + name + ">", true);
  }

  /** A script or style block `<name>x</name>` disappears entirely, line breaks
      included, when `x` holds no `<`. */
  lemma BlockRemoved(name: string, x: string)
    requires IsTagName(name) && '<' !in x
    ensures Rewrite(Block(name), "<" + name + ">" + x + "</" + name + ">") == ""
  {
    var s := "<" + name + ">" + x + "</" + name + ">";
    ElementLayout(s, name, x);
    ClosingTag(s, |name| + 2 + |x|, name);
    BlockMatches(s, name, x);
    RewriteWhole(Block(name), s, "");
  }

  /** `<name`, optional white space, an optional `/` and `>` is matched as a whole. */
  lemma VoidTagMatches(s: string, name: string, rep: string, space: string, slash: bool)
    requires IsTagName(name)
    requires forall k :: 0 <= k < |space| ==> IsWhitespace(space[k])
    requires s == "<" + name + space + (if slash then "/>" else ">")
    ensures MatchAt(VoidTag(name, rep), s) == Some(Match(|s|, rep))
  {
    var k := |name| + 1;
    assert s[..k] == "<" + name;
    HasAtCIOfLower(s, 0, "<" + name);
    assert s[k..k + |space|] == space;
    SkipsSpace(s, k, space);
    assert VoidTagAt(s, name, rep) == Some(Match(|s|, rep));
  }

  /** `<name`, optional white space, an optional `/` and `>` is replaced as a whole. */
  lemma VoidTagConverts(name: string, rep: string, space: string, slash: bool)
    requires IsTagName(name)
    requires forall k :: 0 <= k < |space| ==> IsWhitespace(space[k])
    ensures Rewrite(VoidTag(name, rep), "<" + name + space + (if slash then "/>" else ">")) == rep
  {
    var s := "<" + name + space + (if slash then "/>" else ">");
    VoidTagMatches(s, name, rep, space, slash);
    RewriteWhole(VoidTag(name, rep), s, rep);
  }


  lemma {:induction false} SkipsSpace(s: string, k: nat, space: string)
    requires k + |space| < |s| && s[k..k + |space|] == space && !IsWhitespace(s[k + |space|])
    requires forall j :: 0 <= j < |space| ==> IsWhitespace(space[j])
    ensures SkipSpace(s, k) == k + |space|
    decreases |space|
  {
    if space != [] {
      assert s[k] == space[0];
      assert s[k + 1..k + 1 + |space[1..]|] == space[1..];
      SkipsSpace(s, k + 1, space[1..]);
    }
  }
  // ------------------------------------------------------------ emphasis

  /** Where a lower-case tag name different from `a` stands, `a` is not found:
      one name stops where the other goes on, or they differ in a letter. */
  lemma OtherTagAbsent(s: string, at: nat, p: string, a: string, b: string)
    requires IsTagName(a) && IsTagName(b) && a != b
    requires at + |p| + |b| + 1 <= |s| && s[at..at + |p| + |b| + 1] == p + b + ">"
    ensures !HasAtCI(s, at, p + a + ">")
  {
    var lit := p + a + ">";
    var here := p + b + ">";
    if |a| < |b| {
      var k := |p| + |a|;
      assert s[at + k] == here[k] == b[|a|];
      assert LowerAscii(s[at + k]) != lit[k];
    } else if |a| > |b| {
      var k := |p| + |b|;
      assert s[at + k] == here[k] == '>';
      if at + |lit| <= |s| {
        assert LowerAscii(s[at + k]) != lit[k];
      }
    } else {
      var j :| 0 <= j < |a| && a[j] != b[j];
      var k := |p| + j;
      assert s[at + k] == here[k] == b[j];
      assert LowerAscii(s[at + k]) != lit[k];
    }
  }

  /** Of the two alternatives `p first >` and `p second >`, the one spelled out at `at` is found. */
  lemma PairedLiteralAt(s: string, at: nat, p: string, first: string, second: string, tag: string)
    requires p == "<" || p == "</"
    requires IsTagName(first) && IsTagName(second) && first != second && (tag == first || tag == second)
    requires at + |p| + |tag| + 1 <= |s| && s[at..at + |p| + |tag| + 1] == p + tag + ">"
    ensures LiteralAt(s, at, [p + first + ">", p + second + ">"]) == Some(|p| + |tag| + 1)
  {
    var lit := p + tag + ">";
    forall k | 0 <= k < |lit| ensures !('A' <= lit[k] <= 'Z') {
      if |p| <= k < |p| + |tag| {
        assert lit[k] == tag[k - |p|];
      }
    }
    HasAtCIOfLower(s, at, lit);
    if tag == second {
      OtherTagAbsent(s, at, p, first, second);
    }
    var rest := [p + first + ">", p + second + ">"][1..];
    assert rest == [p + second + ">"];
  }

  /** Where each part of `<open>x</close>` sits. */
  lemma PairLayout(s: string, open: string, close: string, x: string)
    requires s == "<" + open + ">" + x + "</" + close + ">"
    ensures |s| == |open| + |x| + |close| + 5
    ensures s[..|open| + 2] == "<" + open + ">"
    ensures s[|open| + 2..|open| + 2 + |x|] == x
    ensures s[|open| + 2 + |x|..] == "</" + close + ">"
  {
    assert s == ("<" + open + ">") + x + ("</" + close + ">");
  }

  /** The lazy text of an emphasis runs over `x` up to the closing tag, which ends the string. */
  lemma EmphasisCloses(s: string, first: string, second: string, n: nat, x: string, close: string)
    requires IsTagName(first) && IsTagName(second) && first != second && (close == first || close == second)
    requires '<' !in x && NoLineTerminator(x)
    requires n + |x| + |close| + 3 == |s| && s[n..n + |x|] == x && s[n + |x|..] == "</" + close + ">"
    ensures LazyClose(s, n, ["</" + first + ">", "</" + second + ">"], false) == Some(Span(n + |x|, |s|))
  {
    var c := n + |x|;
    assert s[c..c + |close| + 3] == s[c..];
    PairedLiteralAt(s, c, "</", first, second, close);
    PlainBetween(s, n, x);
    LazyCloseReaches(s, n, c, ["</" + first + ">", "</" + second + ">"], false, |close| + 3);
  }

  /** The characters of `x`, where it stands in `s`, are no `<` and no line terminator. */
  lemma PlainBetween(s: string, n: nat, x: string)
    requires n + |x| <= |s| && s[n..n + |x|] == x
    requires '<' !in x && NoLineTerminator(x)
    ensures forall j :: n <= j < n + |x| ==> s[j] != '<' && !IsLineTerminator(s[j])
  {
    forall j | n <= j < n + |x|
      ensures s[j] != '<' && !IsLineTerminator(s[j])
    {
      assert s[j] == s[n..n + |x|][j - n] == x[j - n];
    }
  }

  /** An emphasis pattern matches the whole of `<open>x</close>`, either name
      opening and either name closing. */
  lemma EmphasisMatches(s: string, first: string, second: string, marker: string, open: string, close: string, x: string)
    requires IsTagName(first) && IsTagName(second) && first != second
    requires (open == first || open == second) && (close == first || close == second)
    requires '<' !in x && NoLineTerminator(x)
    requires |s| == |open| + |x| + |close| + 5 && s[..|open| + 2] == "<" + open + ">"
    requires s[|open| + 2..|open| + 2 + |x|] == x && s[|open| + 2 + |x|..] == "</" + close + ">"
    ensures EmphasisAt(s, first, second, marker) == Some(Match(|s|, marker + x + marker))
  {
    var n := |open| + 2;
    OpeningTagAt(s, first, second, open);
    EmphasisCloses(s, first, second, n, x, close);
    EmphasisAtSpans(s, first, second, marker, n, n + |x|);
  }

  /** `<open>` at the start of the text is an opening tag of the pair. */
  lemma OpeningTagAt(s: string, first: string, second: string, open: string)
    requires IsTagName(first) && IsTagName(second) && first != second && (open == first || open == second)
    requires |open| + 2 <= |s| && s[..|open| + 2] == "<" + open + ">"
    ensures LiteralAt(s, 0, ["<" + first + ">", "<" + second + ">"]) == Some(|open| + 2)
  {
    assert s[0..|open| + 2] == s[..|open| + 2];
    PairedLiteralAt(s, 0, "<", first, second, open);
  }

  /** An emphasis match is decided by where its opening tag ends and where its closing tag starts. */
  lemma EmphasisAtSpans(s: string, first: string, second: string, marker: string, n: nat, c: nat)
    requires n <= c <= |s|
    requires LiteralAt(s, 0, ["<" + first + ">", "<" + second + ">"]) == Some(n)
    requires LazyClose(s, n, ["</" + first + ">", "</" + second + ">"], false) == Some(Span(c, |s|))
    ensures EmphasisAt(s, first, second, marker) == Some(Match(|s|, marker + s[n..c] + marker))
  {
  }

  /** `<strong>` and `<b>` (and likewise `<em>` and `<i>`) around a text with no
      tag and no line break become the text between two markers. */
  lemma EmphasisConverts(first: string, second: string, marker: string, open: string, close: string, x: string)
    requires IsTagName(first) && IsTagName(second) && first != second
    requires (open == first || open == second) && (close == first || close == second)
    requires '<' !in x && NoLineTerminator(x)
    ensures Rewrite(Emphasis(first, second, marker), "<" + open + ">" + x + "</" + close + ">") == marker + x + marker
  {
    var s := "<" + open + ">" + x + "</" + close + ">";
    PairLayout(s, open, close, x);
    EmphasisMatches(s, first, second, marker, open, close, x);
    RewriteWhole(Emphasis(first, second, marker), s, marker + x + marker);
  }

  // --------------------------------------------------- list and paragraph tags

  /** An opening tag `<name…>`, attributes and all, is replaced as a whole. */
  lemma OpenTagConverts(name: string, rep: string, attributes: string)
    requires IsTagName(name) && '>' !in attributes
    ensures Rewrite(OpenTag(name, rep), "<" + name + attributes + ">") == rep
  {
    var s := "<" + name + attributes + ">";
    var k := |name| + 1;
    assert s[..k] == "<" + name;
    HasAtCIOfLower(s, 0, "<" + name);
    forall j | k <= j < |s| - 1 ensures s[j] != '>' {
      assert s[j] == attributes[j - k];
    }
    IndexOfFirst(s, k, |s| - 1, '>');
    RewriteWhole(OpenTag(name, rep), s, rep);
  }

  /** A closing tag `</name>` is replaced as a whole. */
  lemma CloseTagConverts(name: string, rep: string)
    requires IsTagName(name)
    ensures Rewrite(CloseTag(name, rep), "</" + name + ">") == rep
  {
    var s := "</" + name + ">";
    ClosingTag(s, 0, name);
    RewriteWhole(CloseTag(name, rep), s, rep);
  }
  // ------------------------------------------------------------- images

  /** An attribute value the image lemmas are stated for: no quote, no `<`, no `>` and no `=`. */
  predicate AttrValue(v: string) {
    forall k :: 0 <= k < |v| ==> !IsQuote(v[k]) && v[k] != '<' && v[k] != '>' && v[k] != '='
  }

  /** A value is found only where `name` is followed by `=`. */
  lemma QuotedValueNeedsEquals(s: string, p: nat, name: string)
    ensures QuotedValue(s, p, name).Some? ==> p + |name| < |s| && s[p + |name|] == '='
  {
    if QuotedValue(s, p, name).Some? {
      assert LowerAscii(s[p + |name|]) == (name + "=")[|name|];
    }
  }

  /** Where another attribute name of the same length stands, `name` is not found. */
  lemma OtherNameAbsent(s: string, p: nat, name: string, other: string)
    requires IsTagName(name) && IsTagName(other) && |name| == |other| && name != other
    requires p + |other| <= |s| && s[p..p + |other|] == other
    ensures QuotedValue(s, p, name) == None
  {
    var j :| 0 <= j < |name| && name[j] != other[j];
    assert s[p + j] == other[j];
    assert LowerAscii(s[p + j]) != (name + "=")[j];
  }

  /** `name="v"` at `p` yields the span of `v`. */
  lemma AttrFound(s: string, p: nat, name: string, v: string)
    requires IsTagName(name) && AttrValue(v)
    requires p + |name| + 3 + |v| <= |s| && s[p..p + |name|] == name
    requires s[p + |name|] == '=' && s[p + |name| + 1] == '"'
    requires s[p + |name| + 2..p + |name| + 2 + |v|] == v && s[p + |name| + 2 + |v|] == '"'
    ensures QuotedValue(s, p, name) == Some(Span(p + |name| + 2, p + |name| + 2 + |v|))
  {
    var lit := name + "=";
    var start := p + |name| + 2;
    forall k | 0 <= k < |lit| ensures LowerAscii(s[p + k]) == lit[k] {
      if k < |name| {
        assert s[p + k] == s[p..p + |name|][k];
      }
    }
    forall j | start <= j < start + |v| ensures !IsQuote(s[j]) {
      assert s[j] == s[start..start + |v|][j - start];
    }
    IndexOfQuoteFirst(s, start, start + |v|);
  }

  /** Candidate ends of the first attribute's prefix that find no value hand over to the next. */
  lemma {:induction false} PairFromSkips(s: string, a: string, b: string, p: nat, lo: nat)
    requires lo <= p <= |s|
    requires forall q :: lo < q <= p ==> QuotedValue(s, q, a) == None
    ensures PairFrom(s, a, b, p) == PairFrom(s, a, b, lo)
    decreases p
  {
    if lo < p {
      PairFromSkips(s, a, b, p - 1, lo);
    }
  }

  /** The same for the second attribute. */
  lemma {:induction false} SecondFromSkips(s: string, first: Span, name: string, p: nat, lo: nat)
    requires first.end < |s| && lo <= p <= |s|
    requires forall q :: lo < q <= p ==> QuotedValue(s, q, name) == None
    ensures SecondFrom(s, first, name, p) == SecondFrom(s, first, name, lo)
    decreases p
  {
    if lo < p {
      SecondFromSkips(s, first, name, p - 1, lo);
    }
  }

  /** The same for the single-attribute pattern. */
  lemma {:induction false} SrcFromSkips(s: string, p: nat, lo: nat)
    requires lo <= p <= |s|
    requires forall q :: lo < q <= p ==> QuotedValue(s, q, "src") == None
    ensures SrcFrom(s, p) == SrcFrom(s, lo)
    decreases p
  {
    if lo < p {
      SrcFromSkips(s, p - 1, lo);
    }
  }

  /** Where each part of `<img a1="v1" a2="v2">` sits. */
  predicate TwoAttrShape(s: string, a1: string, v1: string, a2: string, v2: string) {
    |a1| == 3 && |a2| == 3
    && |s| == |v1| + |v2| + 19
    && s[..5] == "<img " && s[5..8] == a1 && s[8] == '=' && s[9] == '"'
    && s[10..10 + |v1|] == v1 && s[10 + |v1|] == '"' && s[11 + |v1|] == ' '
    && s[12 + |v1|..15 + |v1|] == a2 && s[15 + |v1|] == '=' && s[16 + |v1|] == '"'
    && s[17 + |v1|..17 + |v1| + |v2|] == v2 && s[17 + |v1| + |v2|] == '"' && s[18 + |v1| + |v2|] == '>'
  }

  lemma TwoAttrLayout(s: string, a1: string, v1: string, a2: string, v2: string)
    requires |a1| == 3 && |a2| == 3
    requires s == "<img " + a1 + "=\"" + v1 + "\" " + a2 + "=\"" + v2 + "\">"
    ensures TwoAttrShape(s, a1, v1, a2, v2)
  {
    var n1 := |v1|;
    var n2 := |v2|;
    var head := "<img " + a1 + "=\"";
    var mid := "\" " + a2 + "=\"";
    assert s == head + v1 + mid + v2 + "\">";
    assert s[..10] == head;
    assert s[..5] == head[..5] && s[5..8] == head[5..8];
    assert s[10 + n1..17 + n1] == mid;
    assert s[12 + n1..15 + n1] == mid[2..5];
  }

  /** In `<img a1="v1" a2="v2">` the only `=` are the two after the names, the
      only `>` is the last character and the only `<` the first. */
  lemma TwoAttrChars(s: string, a1: string, v1: string, a2: string, v2: string)
    requires TwoAttrShape(s, a1, v1, a2, v2) && IsTagName(a1) && IsTagName(a2) && AttrValue(v1) && AttrValue(v2)
    ensures forall j :: 0 <= j < |s| && s[j] == '=' ==> j == 8 || j == 15 + |v1|
    ensures forall j :: 0 <= j < |s| - 1 ==> s[j] != '>'
    ensures forall j :: 0 < j < |s| ==> s[j] != '<'
  {
    var n1 := |v1|;
    var n2 := |v2|;
    forall j | 0 <= j < |s|
      ensures s[j] == '=' ==> j == 8 || j == 15 + n1
      ensures j < |s| - 1 ==> s[j] != '>'
      ensures 0 < j ==> s[j] != '<'
    {
      if j < 5 {
        assert s[j] == s[..5][j];
      } else if j < 8 {
        assert s[j] == a1[j - 5];
      } else if 10 <= j < 10 + n1 {
        assert s[j] == s[10..10 + n1][j - 10] == v1[j - 10];
      } else if 12 + n1 <= j < 15 + n1 {
        assert s[j] == s[12 + n1..15 + n1][j - 12 - n1] == a2[j - 12 - n1];
      } else if 17 + n1 <= j < 17 + n1 + n2 {
        assert s[j] == s[17 + n1..17 + n1 + n2][j - 17 - n1] == v2[j - 17 - n1];
      }
    }
  }

  /** A two-attribute image pattern whose names come in the order of the tag finds both values. */
  lemma PairFound(s: string, a1: string, v1: string, a2: string, v2: string)
    requires TwoAttrShape(s, a1, v1, a2, v2) && IsTagName(a1) && IsTagName(a2) && a1 != a2
    requires AttrValue(v1) && AttrValue(v2)
    ensures RunEnd(s, 4) == |s| - 1
    ensures PairFrom(s, a1, a2, |s| - 1) == Some(Pair(Span(10, 10 + |v1|), Span(17 + |v1|, 17 + |v1| + |v2|), |s|))
  {
    var top := |s| - 1;
    TwoAttrChars(s, a1, v1, a2, v2);
    IndexOfFirst(s, 4, top, '>');
    FirstNameSkips(s, a1, v1, a2, v2);
    AttrFound(s, 5, a1, v1);
    IndexOfFirst(s, 11 + |v1|, top, '>');
    SecondFound(s, a1, v1, a2, v2);
  }

  /** The candidate ends after the first name find no value for it. */
  lemma FirstNameSkips(s: string, a1: string, v1: string, a2: string, v2: string)
    requires TwoAttrShape(s, a1, v1, a2, v2) && IsTagName(a1) && IsTagName(a2) && a1 != a2
    requires forall j :: 0 <= j < |s| && s[j] == '=' ==> j == 8 || j == 15 + |v1|
    ensures PairFrom(s, a1, a2, |s| - 1) == PairFrom(s, a1, a2, 5)
  {
    var n1 := |v1|;
    forall q | 5 < q <= |s| - 1 ensures QuotedValue(s, q, a1) == None {
      if q == 12 + n1 {
        OtherNameAbsent(s, q, a1, a2);
      } else {
        QuotedValueNeedsEquals(s, q, a1);
      }
    }
    PairFromSkips(s, a1, a2, |s| - 1, 5);
  }

  /** After the first value, the second name's value is found and the tag closes at the end. */
  lemma SecondFound(s: string, a1: string, v1: string, a2: string, v2: string)
    requires TwoAttrShape(s, a1, v1, a2, v2) && IsTagName(a2) && AttrValue(v2)
    requires forall j :: 0 <= j < |s| && s[j] == '=' ==> j == 8 || j == 15 + |v1|
    requires forall j :: 0 <= j < |s| - 1 ==> s[j] != '>'
    ensures SecondFrom(s, Span(10, 10 + |v1|), a2, |s| - 1) == Some(Pair(Span(10, 10 + |v1|), Span(17 + |v1|, 17 + |v1| + |v2|), |s|))
  {
    var n1 := |v1|;
    var top := |s| - 1;
    forall q | 12 + n1 < q <= top ensures QuotedValue(s, q, a2) == None {
      QuotedValueNeedsEquals(s, q, a2);
    }
    SecondFromSkips(s, Span(10, 10 + n1), a2, top, 12 + n1);
    AttrFound(s, 12 + n1, a2, v2);
    IndexOfFirst(s, top, top, '>');
  }

  /** The same pattern with the names the other way round finds nothing. */
  lemma PairMissing(s: string, a1: string, v1: string, a2: string, v2: string)
    requires TwoAttrShape(s, a1, v1, a2, v2) && IsTagName(a1) && IsTagName(a2) && a1 != a2
    requires AttrValue(v1) && AttrValue(v2)
    ensures RunEnd(s, 4) == |s| - 1
    ensures PairFrom(s, a2, a1, |s| - 1) == None
  {
    var top := |s| - 1;
    TwoAttrChars(s, a1, v1, a2, v2);
    IndexOfFirst(s, 4, top, '>');
    SecondNameFirstFails(s, a1, v1, a2, v2);
    SecondNameSkips(s, a1, v1, a2, v2);
  }

  /** Taking the second name's value first leaves no room for the first name after it. */
  lemma SecondNameFirstFails(s: string, a1: string, v1: string, a2: string, v2: string)
    requires TwoAttrShape(s, a1, v1, a2, v2) && IsTagName(a1) && IsTagName(a2) && AttrValue(v2)
    requires forall j :: 0 <= j < |s| && s[j] == '=' ==> j == 8 || j == 15 + |v1|
    requires forall j :: 0 <= j < |s| - 1 ==> s[j] != '>'
    ensures PairFrom(s, a2, a1, |s| - 1) == PairFrom(s, a2, a1, 11 + |v1|)
  {
    var n1 := |v1|;
    var top := |s| - 1;
    forall q | 12 + n1 < q <= top ensures QuotedValue(s, q, a2) == None {
      QuotedValueNeedsEquals(s, q, a2);
    }
    PairFromSkips(s, a2, a1, top, 12 + n1);
    AttrFound(s, 12 + n1, a2, v2);
    var second := Span(17 + n1, top - 1);
    IndexOfFirst(s, top, top, '>');
    QuotedValueNeedsEquals(s, top, a1);
    SecondFromRightAfter(s, second, a1, top);
    PairFromFallsThrough(s, a2, a1, 12 + n1, second);
  }

  /** A second-name search that may start only right after the first value finds nothing there. */
  lemma SecondFromRightAfter(s: string, first: Span, name: string, p: nat)
    requires first.end + 1 == p <= |s| && QuotedValue(s, p, name) == None
    ensures SecondFrom(s, first, name, p) == None
  {
  }

  /** A candidate whose first value leaves no second one hands over to the candidate before it. */
  lemma PairFromFallsThrough(s: string, a: string, b: string, p: nat, v: Span)
    requires 4 <= p <= |s| && QuotedValue(s, p, a) == Some(v)
    requires SecondFrom(s, v, b, RunEnd(s, v.end + 1)) == None
    ensures PairFrom(s, a, b, p) == PairFrom(s, a, b, p - 1)
  {
  }

  /** Before the second name, no candidate finds its value. */
  lemma SecondNameSkips(s: string, a1: string, v1: string, a2: string, v2: string)
    requires TwoAttrShape(s, a1, v1, a2, v2) && IsTagName(a1) && IsTagName(a2) && a1 != a2
    requires forall j :: 0 <= j < |s| && s[j] == '=' ==> j == 8 || j == 15 + |v1|
    ensures PairFrom(s, a2, a1, 11 + |v1|) == None
  {
    var n1 := |v1|;
    forall q | 3 < q <= 11 + n1 ensures QuotedValue(s, q, a2) == None {
      if q == 5 {
        OtherNameAbsent(s, q, a2, a1);
      } else {
        QuotedValueNeedsEquals(s, q, a2);
      }
    }
    PairFromSkips(s, a2, a1, 11 + n1, 3);
  }

  /** Where each part of `<img a="v">` sits. */
  predicate OneAttrShape(s: string, a: string, v: string) {
    |a| == 3 && |s| == |v| + 12
    && s[..5] == "<img " && s[5..8] == a && s[8] == '=' && s[9] == '"'
    && s[10..10 + |v|] == v && s[10 + |v|] == '"' && s[11 + |v|] == '>'
  }

  lemma OneAttrLayout(s: string, a: string, v: string)
    requires |a| == 3 && s == "<img " + a + "=\"" + v + "\">"
    ensures OneAttrShape(s, a, v)
  {
    var head := "<img " + a + "=\"";
    assert s == head + v + "\">";
    assert s[..10] == head;
    assert s[..5] == head[..5] && s[5..8] == head[5..8];
  }

  /** In `<img a="v">` the only `=` follows the name, the only `>` is the last
      character and the only `<` the first. */
  lemma OneAttrChars(s: string, a: string, v: string)
    requires OneAttrShape(s, a, v) && IsTagName(a) && AttrValue(v)
    ensures forall j :: 0 <= j < |s| && s[j] == '=' ==> j == 8
    ensures forall j :: 0 <= j < |s| - 1 ==> s[j] != '>'
    ensures forall j :: 0 < j < |s| ==> s[j] != '<'
  {
    forall j | 0 <= j < |s|
      ensures s[j] == '=' ==> j == 8
      ensures j < |s| - 1 ==> s[j] != '>'
      ensures 0 < j ==> s[j] != '<'
    {
      if j < 5 {
        assert s[j] == s[..5][j];
      } else if j < 8 {
        assert s[j] == a[j - 5];
      } else if 10 <= j < 10 + |v| {
        assert s[j] == s[10..10 + |v|][j - 10] == v[j - 10];
      }
    }
  }

  /** With one attribute, neither two-attribute pattern matches. */
  lemma OneAttrPairsMissing(s: string, a: string, v: string, b: string)
    requires OneAttrShape(s, a, v) && IsTagName(a) && IsTagName(b) && |b| == 3 && a != b && AttrValue(v)
    ensures RunEnd(s, 4) == |s| - 1
    ensures PairFrom(s, a, b, |s| - 1) == None && PairFrom(s, b, a, |s| - 1) == None
  {
    var top := |s| - 1;
    OneAttrChars(s, a, v);
    IndexOfFirst(s, 4, top, '>');
    forall q | 5 < q <= top ensures QuotedValue(s, q, a) == None {
      QuotedValueNeedsEquals(s, q, a);
    }
    PairFromSkips(s, a, b, top, 5);
    AttrFound(s, 5, a, v);
    IndexOfFirst(s, top, top, '>');
    QuotedValueNeedsEquals(s, top, b);
    assert SecondFrom(s, Span(10, 10 + |v|), b, top) == None;
    QuotedValueNeedsEquals(s, 4, a);
    assert PairFrom(s, a, b, 4) == None;
    forall q | 3 < q <= top ensures QuotedValue(s, q, b) == None {
      if q == 5 {
        OtherNameAbsent(s, q, b, a);
      } else {
        QuotedValueNeedsEquals(s, q, b);
      }
    }
    PairFromSkips(s, b, a, top, 3);
  }

  /** The single-attribute pattern finds the `src` of `<img src="v">`. */
  lemma SrcFound(s: string, v: string)
    requires OneAttrShape(s, "src", v) && AttrValue(v)
    ensures RunEnd(s, 4) == |s| - 1
    ensures SrcFrom(s, |s| - 1) == Some(Match(|s|, "![](" + v + ")"))
  {
    var top := |s| - 1;
    OneAttrChars(s, "src", v);
    IndexOfFirst(s, 4, top, '>');
    forall q | 5 < q <= top ensures QuotedValue(s, q, "src") == None {
      QuotedValueNeedsEquals(s, q, "src");
    }
    SrcFromSkips(s, top, 5);
    AttrFound(s, 5, "src", v);
    IndexOfFirst(s, top, top, '>');
    assert s[10..10 + |v|] == v;
  }

  lemma ImgHead(s: string)
    requires |s| >= 5 && s[..5] == "<img "
    ensures HasAtCI(s, 0, "<img")
  {
    assert s[..4] == s[..5][..4];
    HasAtCIOfLower(s, 0, "<img");
  }

  /** A rule that does not match at the first `<` of a string with no other `<` leaves it unchanged. */
  lemma RewriteNoMatch(rule: Rule, s: string)
    requires s != [] && MatchAt(rule, s) == None
    requires forall j :: 0 < j < |s| ==> s[j] != '<'
    ensures Rewrite(rule, s) == s
  {
    assert '<' !in s[1..] by {
      forall j | 0 <= j < |s[1..]| ensures s[1..][j] != '<' {
        assert s[1..][j] == s[j + 1];
      }
    }
    RewriteWithoutAngle(rule, s[1..]);
    assert [s[0]] + s[1..] == s;
  }

  /** `![alt](src)` holds no `<`, so an image rule after the one that wrote it leaves it alone. */
  lemma ImageMarkdownStays(rule: Rule, alt: string, src: string)
    requires AttrValue(alt) && AttrValue(src)
    ensures Rewrite(rule, "![" + alt + "](" + src + ")") == "![" + alt + "](" + src + ")"
  {
    var md := "![" + alt + "](" + src + ")";
    assert '<' !in md by {
      forall j | 0 <= j < |md| ensures md[j] != '<' {
        if 2 <= j < 2 + |alt| {
          assert md[j] == alt[j - 2];
        } else if 4 + |alt| <= j < 4 + |alt| + |src| {
          assert md[j] == src[j - 4 - |alt|];
        }
      }
    }
    RewriteWithoutAngle(rule, md);
  }

  /** The first image rule takes the whole of `<img src="…" alt="…">`. */
  lemma SrcAltMatches(s: string, src: string, alt: string)
    requires TwoAttrShape(s, "src", src, "alt", alt) && AttrValue(src) && AttrValue(alt)
    ensures MatchAt(ImageSrcAlt, s) == Some(Match(|s|, "![" + alt + "](" + src + ")"))
  {
    ImgHead(s);
    PairFound(s, "src", src, "alt", alt);
    assert s[10..10 + |src|] == src && s[17 + |src|..17 + |src| + |alt|] == alt;
  }

  /** The second image rule takes the whole of `<img alt="…" src="…">`. */
  lemma AltSrcMatches(s: string, src: string, alt: string)
    requires TwoAttrShape(s, "alt", alt, "src", src) && AttrValue(src) && AttrValue(alt)
    ensures MatchAt(ImageAltSrc, s) == Some(Match(|s|, "![" + alt + "](" + src + ")"))
  {
    ImgHead(s);
    PairFound(s, "alt", alt, "src", src);
    assert s[10..10 + |alt|] == alt && s[17 + |alt|..17 + |alt| + |src|] == src;
  }

  /** The first image rule does not match `<img alt="…" src="…">`. */
  lemma AltSrcPassedOver(s: string, src: string, alt: string)
    requires TwoAttrShape(s, "alt", alt, "src", src) && AttrValue(src) && AttrValue(alt)
    ensures MatchAt(ImageSrcAlt, s) == None
  {
    PairMissing(s, "alt", alt, "src", src);
  }

  /** The three image rules, in their order: `src` before `alt` is taken by the first. */
  lemma ImageSrcAltConverts(src: string, alt: string)
    requires AttrValue(src) && AttrValue(alt)
    ensures var s := "<img src=\"" + src + "\" alt=\"" + alt + "\">";
            Rewrite(ImageSrc, Rewrite(ImageAltSrc, Rewrite(ImageSrcAlt, s))) == "![" + alt + "](" + src + ")"
  {
    var s := "<img src=\"" + src + "\" alt=\"" + alt + "\">";
    TwoAttrLayout(s, "src", src, "alt", alt);
    SrcAltMatches(s, src, alt);
    RewriteWhole(ImageSrcAlt, s, "![" + alt + "](" + src + ")");
    ImageMarkdownStays(ImageAltSrc, alt, src);
    ImageMarkdownStays(ImageSrc, alt, src);
  }

  /** `alt` before `src` is passed over by the first image rule and taken by the second. */
  lemma ImageAltSrcConverts(src: string, alt: string)
    requires AttrValue(src) && AttrValue(alt)
    ensures var s := "<img alt=\"" + alt + "\" src=\"" + src + "\">";
            Rewrite(ImageSrc, Rewrite(ImageAltSrc, Rewrite(ImageSrcAlt, s))) == "![" + alt + "](" + src + ")"
  {
    var s := "<img alt=\"" + alt + "\" src=\"" + src + "\">";
    TwoAttrLayout(s, "alt", alt, "src", src);
    AltSrcRewrites(s, src, alt);
    ImageMarkdownStays(ImageSrc, alt, src);
  }

  /** The first two image rules on `<img alt="…" src="…">`: the first leaves it, the second takes it. */
  lemma AltSrcRewrites(s: string, src: string, alt: string)
    requires TwoAttrShape(s, "alt", alt, "src", src) && AttrValue(src) && AttrValue(alt)
    ensures Rewrite(ImageAltSrc, Rewrite(ImageSrcAlt, s)) == "![" + alt + "](" + src + ")"
  {
    TwoAttrChars(s, "alt", alt, "src", src);
    AltSrcPassedOver(s, src, alt);
    RewriteNoMatch(ImageSrcAlt, s);
    AltSrcMatches(s, src, alt);
    RewriteWhole(ImageAltSrc, s, "![" + alt + "](" + src + ")");
  }

  /** An image with only `src` is passed over by both two-attribute rules and
      taken by the third, with an empty description. */
  lemma ImageSrcConverts(src: string)
    requires AttrValue(src)
    ensures var s := "<img src=\"" + src + "\">";
            Rewrite(ImageSrc, Rewrite(ImageAltSrc, Rewrite(ImageSrcAlt, s))) == "![](" + src + ")"
  {
    var s := "<img src=\"" + src + "\">";
    OneAttrLayout(s, "src", src);
    SrcOnlyPassedOver(s, src);
    ImageSrcMatches(s, src);
    RewriteWhole(ImageSrc, s, "![](" + src + ")");
  }

  /** The single-attribute rule matches the whole of `<img src="…">`. */
  lemma ImageSrcMatches(s: string, src: string)
    requires OneAttrShape(s, "src", src) && AttrValue(src)
    ensures MatchAt(ImageSrc, s) == Some(Match(|s|, "![](" + src + ")"))
  {
    ImgHead(s);
    SrcFound(s, src);
  }

  /** `<img src="…">` is left alone by both rules that need an `alt`. */
  lemma SrcOnlyPassedOver(s: string, src: string)
    requires OneAttrShape(s, "src", src) && AttrValue(src)
    ensures Rewrite(ImageAltSrc, Rewrite(ImageSrcAlt, s)) == s
  {
    OneAttrChars(s, "src", src);
    ImgHead(s);
    OneAttrPairsMissing(s, "src", src, "alt");
    assert MatchAt(ImageSrcAlt, s) == None;
    RewriteNoMatch(ImageSrcAlt, s);
    assert MatchAt(ImageAltSrc, s) == None;
    RewriteNoMatch(ImageAltSrc, s);
  }
}
