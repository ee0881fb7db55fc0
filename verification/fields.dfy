/**
 * Reading one field out of the export: `getTextContent` looks a value up
 * under a comma-separated list of selectors, `cleanCDATA` strips CDATA
 * markers and surrounding whitespace.
 */
module Fields {
  import opened Wrappers
  import opened Strings

  const CDataOpen: string := "<![CDATA["
  const CDataClose: string := "]]>"

  /** `pat` starts nowhere in `s`. */
  predicate Free(s: string, pat: string) {
    forall k :: 0 <= k < |s| ==> !MatchesAt(s, k, pat)
  }

  /** cleanCDATA: remove every CDATA opening marker, then every closing
      marker, then trim; the empty string stays empty. */
  function CleanCData(text: string): string {
    if text == "" then "" else Trim(RemoveAll(RemoveAll(text, CDataOpen), CDataClose))
  }

  /** Cleaning never lengthens the text, leaves no surrounding whitespace,
      and maps the empty string to itself. */
  lemma CleanCDataShape(text: string)
    ensures text == "" ==> CleanCData(text) == ""
    ensures IsTrimmed(CleanCData(text))
    ensures |CleanCData(text)| <= |text|
  {
  }

  /** No opening marker starts anywhere in `x` followed by the closing marker. */
  lemma {:induction false} OpenFreeInTail(x: string)
    requires Free(x, CDataOpen)
    ensures forall k :: 0 <= k < |x + CDataClose| ==> !MatchesAt(x + CDataClose, k, CDataOpen)
  {
    var t := x + CDataClose;
    assert ']' !in CDataOpen;
    forall k | 0 <= k < |t| ensures !MatchesAt(t, k, CDataOpen) {
      if k + |CDataOpen| <= |x| {
        assert !MatchesAt(x, k, CDataOpen);
        assert t[k..k + |CDataOpen|] == x[k..k + |CDataOpen|];
      } else if k + |CDataOpen| <= |t| {
        assert t[k..k + |CDataOpen|][|x| - k] == t[|x|] == ']';
      }
    }
  }

  /** The closing marker appended to `x` is the first place it occurs. */
  lemma {:induction false} CloseFreeBeforeTail(x: string)
    requires Free(x, CDataClose)
    ensures forall k :: 0 <= k < |x| ==> !MatchesAt(x + CDataClose, k, CDataClose)
  {
    var t := x + CDataClose;
    forall k | 0 <= k < |x| ensures !MatchesAt(t, k, CDataClose) {
      if k + 3 <= |x| {
        assert !MatchesAt(x, k, CDataClose);
        assert t[k..k + 3] == x[k..k + 3];
      } else {
        assert t[k..k + 3][2] == t[k + 2] == ']';
      }
    }
  }

  /** Wrapping text in a CDATA section and cleaning it gives back the text, trimmed. */
  lemma {:induction false} CleanCDataUnwraps(x: string)
    requires Free(x, CDataOpen) && Free(x, CDataClose)
    ensures CleanCData(CDataOpen + x + CDataClose) == Trim(x)
  {
    var s := CDataOpen + x + CDataClose;
    var t := x + CDataClose;
    assert s[|CDataOpen|..] == t;
    assert CDataOpen <= s;
    assert RemoveAll(s, CDataOpen) == RemoveAll(t, CDataOpen);
    OpenFreeInTail(x);
    RemoveAllKeepsPrefix(t, |t|, CDataOpen);
    assert t[..|t|] == t && t[|t|..] == "";
    assert RemoveAll(s, CDataOpen) == t;
    CloseFreeBeforeTail(x);
    RemoveAllKeepsPrefix(t, |x|, CDataClose);
    assert t[..|x|] == x && t[|x|..] == CDataClose;
    assert CDataClose <= CDataClose && CDataClose[|CDataClose|..] == "";
    assert RemoveAll(CDataClose, CDataClose) == "";
    assert RemoveAll(t, CDataClose) == x;
  }

  lemma HelloHasNoMarkers(x: string)
    requires x == "Hello"
    ensures Free(x, CDataOpen) && Free(x, CDataClose) && IsTrimmed(x)
  {
    assert ']' !in x;
    forall k | 0 <= k < |x| ensures !MatchesAt(x, k, CDataClose) {
      if k + 3 <= |x| {
        assert x[k..k + 3][0] == x[k] != ']';
      }
    }
  }

  /** The worked example of the format: `<![CDATA[Hello]]>` reads as `Hello`. */
  lemma CleanCDataHello(x: string)
    requires x == "Hello"
    ensures CleanCData(CDataOpen + x + CDataClose) == x
  {
    HelloHasNoMarkers(x);
    CleanCDataUnwraps(x);
    TrimOfTrimmed(x);
  }

  // ---------------------------------------------------------- field lookup

  /** What the parsed tree reveals of one element: for each selector that
      `querySelector` resolves below it, the `textContent` of the first element found. */
  type Element = map<string, string>

  /** `selectors.split(',').map(s => s.trim())`. */
  function SelectorList(selectors: string): seq<string> {
    var parts := Split(selectors, ',');
    seq(|parts|, i requires 0 <= i < |parts| => Trim(parts[i]))
  }

  /** The text found under the first selector, in list order, that the element resolves. */
  function FirstMatch(element: Element, selectorList: seq<string>): string
    decreases |selectorList|
  {
    if selectorList == [] then ""
    else if selectorList[0] in element then element[selectorList[0]]
    else FirstMatch(element, selectorList[1..])
  }

  /** No selector resolves: the lookup gives `''`. */
  lemma {:induction false} FirstMatchNone(element: Element, selectorList: seq<string>)
    requires forall i :: 0 <= i < |selectorList| ==> selectorList[i] !in element
    ensures FirstMatch(element, selectorList) == ""
    decreases |selectorList|
  {
    if selectorList != [] {
      assert selectorList[0] !in element;
      FirstMatchNone(element, selectorList[1..]);
    }
  }

  /** The first selector that resolves decides the text; later ones are never consulted. */
  lemma {:induction false} FirstMatchFirst(element: Element, selectorList: seq<string>, i: nat)
    requires i < |selectorList| && selectorList[i] in element
    requires forall j :: 0 <= j < i ==> selectorList[j] !in element
    ensures FirstMatch(element, selectorList) == element[selectorList[i]]
    decreases i
  {
    if i > 0 {
      assert selectorList[0] !in element;
      FirstMatchFirst(element, selectorList[1..], i - 1);
    }
  }

  /** getTextContent, as a function of the (possibly absent) parent and the selector list. */
  function TextContent(parent: Option<Element>, selectors: string): string {
    if parent.None? then "" else FirstMatch(parent.value, SelectorList(selectors))
  }

  /** The lookup loop of getTextContent: try the selectors in order and stop at the first one the element resolves. */
  method LookUp(element: Element, selectorList: seq<string>) returns (text: string)
    ensures text == FirstMatch(element, selectorList)
  {
    for i := 0 to |selectorList|
      invariant forall j :: 0 <= j < i ==> selectorList[j] !in element
    {
      var selector := selectorList[i];
      if selector in element {
        FirstMatchFirst(element, selectorList, i);
        return element[selector];
      }
    }
    FirstMatchNone(element, selectorList);
    return "";
  }

  /** getTextContent: an absent parent gives `''`; otherwise the selectors,
      split at commas and trimmed, are tried in order and the first that the
      parent resolves gives the text, or `''` when none does. */
  method GetTextContent(parent: Option<Element>, selectors: string) returns (text: string)
    ensures parent.None? ==> text == ""
    ensures text == TextContent(parent, selectors)
  {
    if parent.None? {
      return "";
    }
    text := LookUp(parent.value, SelectorList(selectors));
  }
}
