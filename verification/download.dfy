/**
 * The name of the downloaded file: the site title turned into a slug
 * (lowercased, every run of characters other than `a`-`z` and `0`-`9`
 * turned into one `-`, a `-` at either end dropped), or else the name of
 * the uploaded file without `.xml`, or else `wordpress-export`; then `.md`.
 */
module Download {
  import opened Wrappers
  import opened Strings
  import opened Extraction

  // ------------------------------------------------------------ the slug

  /** `toLowerCase`, on the letters A to Z. */
  function Lower(s: string): (r: string)
    ensures |r| == |s|
    ensures forall i :: 0 <= i < |s| ==> r[i] == LowerAscii(s[i])
    decreases |s|
  {
    if s == [] then [] else [LowerAscii(s[0])] + Lower(s[1..])
  }

  /** What survives of a run of other characters: nothing up to its end. */
  function DropRun(s: string): (r: string)
    ensures |r| <= |s|
    ensures r == [] || IsLowerAlnum(r[0])
    decreases |s|
  {
    if s != [] && !IsLowerAlnum(s[0]) then DropRun(s[1..]) else s
  }

  /** `.replace(/[^a-z0-9]+/g, '-')`: each maximal run of other characters becomes one `-`. */
  function DashRuns(s: string): string
    decreases |s|
  {
    if s == [] then []
    else if IsLowerAlnum(s[0]) then [s[0]] + DashRuns(s[1..])
    else "-" + DashRuns(DropRun(s[1..]))
  }

  /** What survives of a run of dashes: nothing up to its end. */
  function DropDashes(s: string): (r: string)
    ensures |r| <= |s| && (r == [] || r[0] != '-')
    decreases |s|
  {
    if s != [] && s[0] == '-' then DropDashes(s[1..]) else s
  }

  /** `.replace(/-+/g, '-')`: each run of dashes becomes one `-`. */
  function CollapseDashes(s: string): string
    decreases |s|
  {
    if s == [] then []
    else if s[0] == '-' then "-" + CollapseDashes(DropDashes(s[1..]))
    else [s[0]] + CollapseDashes(s[1..])
  }

  /** `.replace(/^-|-$/g, '')`: one `-` at the start and one at the end are dropped;
      a lone `-` is dropped once. */
  function StripEdges(s: string): (r: string)
    ensures |s| - 2 <= |r| <= |s|
  {
    var t := if s != [] && s[0] == '-' then s[1..] else s;
    if t != [] && t[|t| - 1] == '-' then t[..|t| - 1] else t
  }

  function Slug(title: string): string {
    StripEdges(CollapseDashes(DashRuns(Lower(title))))
  }

  /** Only slug characters and dashes. */
  predicate SlugAlphabet(s: string) {
    forall i :: 0 <= i < |s| ==> IsLowerAlnum(s[i]) || s[i] == '-'
  }

  /** No two dashes next to each other. */
  predicate NoDoubleDash(s: string) {
    forall i :: 0 <= i < |s| - 1 ==> !(s[i] == '-' && s[i + 1] == '-')
  }

  /** The characters of `s` that the slug keeps, in order. */
  function Alnums(s: string): (r: string)
    ensures |r| <= |s|
    decreases |s|
  {
    if s == [] then []
    else (if IsLowerAlnum(s[0]) then [s[0]] else []) + Alnums(s[1..])
  }

  lemma {:induction false} AlnumsAppend(a: string, b: string)
    ensures Alnums(a + b) == Alnums(a) + Alnums(b)
    decreases |a|
  {
    if a != [] {
      AlnumsAppend(a[1..], b);
      assert (a + b)[0] == a[0] && (a + b)[1..] == a[1..] + b;
      var head := if IsLowerAlnum(a[0]) then [a[0]] else [];
      AppendAssoc(head, Alnums(a[1..]), Alnums(b));
    } else {
      assert a + b == b;
    }
  }

  /** A run the slug drops holds none of the characters it keeps. */
  lemma {:induction false} AlnumsDropRun(s: string)
    ensures Alnums(DropRun(s)) == Alnums(s)
    decreases |s|
  {
    if s != [] && !IsLowerAlnum(s[0]) {
      AlnumsDropRun(s[1..]);
    }
  }

  /** Replacing the runs leaves only slug characters and dashes. */
  lemma {:induction false} DashRunsAlphabet(s: string)
    ensures SlugAlphabet(DashRuns(s))
    decreases |s|
  {
    if s != [] {
      var tail := if IsLowerAlnum(s[0]) then s[1..] else DropRun(s[1..]);
      DashRunsAlphabet(tail);
      PrependAlphabet(if IsLowerAlnum(s[0]) then s[0] else '-', DashRuns(tail));
    }
  }

  lemma PrependAlphabet(c: char, s: string)
    requires IsLowerAlnum(c) || c == '-'
    requires SlugAlphabet(s)
    ensures SlugAlphabet([c] + s)
  {
    assert forall i :: 1 <= i < |[c] + s| ==> ([c] + s)[i] == s[i - 1];
  }

  /** Replacing the runs never puts two dashes side by side, and starts with
      a dash only where the text starts with a character the slug drops. */
  lemma {:induction false} DashRunsSpacing(s: string)
    ensures NoDoubleDash(DashRuns(s))
    ensures DashRuns(s) != [] && DashRuns(s)[0] == '-' ==> !IsLowerAlnum(s[0])
    decreases |s|
  {
    if s != [] {
      if IsLowerAlnum(s[0]) {
        DashRunsSpacing(s[1..]);
        PrependSpacing(s[0], DashRuns(s[1..]));
      } else {
        var rest := DropRun(s[1..]);
        DashRunsSpacing(rest);
        PrependSpacing('-', DashRuns(rest));
      }
    }
  }

  lemma PrependSpacing(c: char, s: string)
    requires NoDoubleDash(s)
    requires c == '-' ==> s == [] || s[0] != '-'
    ensures NoDoubleDash([c] + s)
  {
    var r := [c] + s;
    forall i | 0 <= i < |r| - 1 ensures !(r[i] == '-' && r[i + 1] == '-') {
      if i > 0 {
        assert r[i] == s[i - 1] && r[i + 1] == s[i];
      }
    }
  }

  /** Replacing the runs keeps every slug character, in order. */
  lemma {:induction false} DashRunsAlnums(s: string)
    ensures Alnums(DashRuns(s)) == Alnums(s)
    decreases |s|
  {
    if s != [] {
      if IsLowerAlnum(s[0]) {
        DashRunsAlnums(s[1..]);
        AlnumsAppend([s[0]], DashRuns(s[1..]));
      } else {
        var rest := DropRun(s[1..]);
        DashRunsAlnums(rest);
        AlnumsDropRun(s[1..]);
        AlnumsAppend("-", DashRuns(rest));
      }
    }
  }

  /** Collapsing dashes changes nothing once no two dashes are adjacent. */
  lemma {:induction false} CollapseDashesNoop(s: string)
    requires NoDoubleDash(s)
    ensures CollapseDashes(s) == s
    decreases |s|
  {
    if s != [] {
      assert NoDoubleDash(s[1..]) by {
        forall i | 0 <= i < |s[1..]| - 1 ensures !(s[1..][i] == '-' && s[1..][i + 1] == '-') {
          assert s[1..][i] == s[i + 1] && s[1..][i + 1] == s[i + 2];
        }
      }
      if s[0] == '-' {
        assert s[1..] == [] || s[1] != '-';
        assert DropDashes(s[1..]) == s[1..];
      }
      CollapseDashesNoop(s[1..]);
      assert [s[0]] + s[1..] == s;
    }
  }

  /** A slice of a spaced slug alphabet string is one too. */
  lemma SliceShape(s: string, i: nat, j: nat)
    requires i <= j <= |s|
    requires SlugAlphabet(s) && NoDoubleDash(s)
    ensures SlugAlphabet(s[i..j]) && NoDoubleDash(s[i..j])
  {
    assert forall k :: 0 <= k < j - i ==> s[i..j][k] == s[i + k];
  }

  /** The spacing, the alphabet and the slug characters survive dropping a
      leading dash, and what is left does not start with one. */
  lemma DropLeadingDash(s: string)
    requires SlugAlphabet(s) && NoDoubleDash(s) && s != [] && s[0] == '-'
    ensures SlugAlphabet(s[1..]) && NoDoubleDash(s[1..]) && Alnums(s[1..]) == Alnums(s)
    ensures s[1..] == [] || s[1..][0] != '-'
  {
    assert s == "-" + s[1..];
    AlnumsAppend("-", s[1..]);
    SliceShape(s, 1, |s|);
  }

  /** The same for a trailing dash; what is left keeps its first character. */
  lemma DropTrailingDash(t: string)
    requires SlugAlphabet(t) && NoDoubleDash(t) && t != [] && t[|t| - 1] == '-'
    ensures var r := t[..|t| - 1];
            SlugAlphabet(r) && NoDoubleDash(r) && Alnums(r) == Alnums(t)
            && (r == [] || (r[0] == t[0] && r[|r| - 1] != '-'))
  {
    var r := t[..|t| - 1];
    assert t == r + "-";
    AlnumsAppend(r, "-");
    SliceShape(t, 0, |t| - 1);
    assert |t| == 1 || t[|t| - 2] != '-';
  }

  /** Dropping the edge dashes keeps the alphabet, the spacing and the slug characters. */
  lemma StripEdgesShape(s: string)
    requires SlugAlphabet(s) && NoDoubleDash(s)
    ensures var r := StripEdges(s);
            SlugAlphabet(r) && NoDoubleDash(r) && Alnums(r) == Alnums(s)
            && (r == [] || (r[0] != '-' && r[|r| - 1] != '-'))
  {
    var t := if s != [] && s[0] == '-' then s[1..] else s;
    if s != [] && s[0] == '-' {
      DropLeadingDash(s);
    }
    if t != [] && t[|t| - 1] == '-' {
      DropTrailingDash(t);
    }
  }

  /** The slug holds only `a`-`z`, `0`-`9` and single dashes, never a dash at
      either end, and exactly the title's letters and digits, lowercased, in order. */
  lemma SlugShape(title: string)
    ensures var slug := Slug(title);
            SlugAlphabet(slug) && NoDoubleDash(slug)
            && (slug == [] || (slug[0] != '-' && slug[|slug| - 1] != '-'))
            && Alnums(slug) == Alnums(Lower(title))
  {
    var d := DashRuns(Lower(title));
    DashRunsAlphabet(Lower(title));
    DashRunsSpacing(Lower(title));
    DashRunsAlnums(Lower(title));
    CollapseDashesNoop(d);
    StripEdgesShape(d);
  }

  /** A slug without letters or digits is empty. */
  lemma SlugWithoutAlnums(title: string)
    requires Alnums(Lower(title)) == []
    ensures Slug(title) == []
  {
    var slug := Slug(title);
    SlugShape(title);
  }

  /** Lowercasing leaves slug characters and dashes alone. */
  lemma {:induction false} LowerOfAlphabet(s: string)
    requires SlugAlphabet(s)
    ensures Lower(s) == s
    decreases |s|
  {
    if s != [] {
      LowerOfAlphabet(s[1..]);
    }
  }

  /** A string of slug characters with single inner dashes is its own run replacement. */
  lemma {:induction false} DashRunsOfSlug(s: string)
    requires SlugAlphabet(s) && NoDoubleDash(s)
    ensures DashRuns(s) == s
    decreases |s|
  {
    if s != [] {
      assert SlugAlphabet(s[1..]) && NoDoubleDash(s[1..]) by {
        forall i | 0 <= i < |s[1..]| ensures IsLowerAlnum(s[1..][i]) || s[1..][i] == '-' {
          assert s[1..][i] == s[i + 1];
        }
        forall i | 0 <= i < |s[1..]| - 1 ensures !(s[1..][i] == '-' && s[1..][i + 1] == '-') {
          assert s[1..][i] == s[i + 1] && s[1..][i + 1] == s[i + 2];
        }
      }
      if !IsLowerAlnum(s[0]) {
        assert s[1..] == [] || IsLowerAlnum(s[1]);
        assert DropRun(s[1..]) == s[1..];
      }
      DashRunsOfSlug(s[1..]);
      assert [s[0]] + s[1..] == s;
    }
  }

  /** Slugging a slug gives it back. */
  lemma SlugIdempotent(title: string)
    ensures Slug(Slug(title)) == Slug(title)
  {
    var slug := Slug(title);
    SlugShape(title);
    LowerOfAlphabet(slug);
    DashRunsOfSlug(slug);
    CollapseDashesNoop(slug);
  }

  // ------------------------------------------------ runs between words

  /** Lowercasing works character by character. */
  lemma LowerAppend(a: string, b: string)
    ensures Lower(a + b) == Lower(a) + Lower(b)
  {
    assert forall i :: 0 <= i < |a + b| ==> Lower(a + b)[i] == (Lower(a) + Lower(b))[i];
  }

  /** A string with none of the slug's characters has none at any position. */
  lemma NoAlnumAt(s: string, i: nat)
    requires Alnums(s) == [] && i < |s|
    ensures !IsLowerAlnum(s[i])
  {
    assert s == s[..i] + s[i..];
    AlnumsAppend(s[..i], s[i..]);
  }

  /** A run that ends inside `s` ends at the same place when more text follows. */
  lemma {:induction false} DropRunAppend(s: string, b: string)
    requires Alnums(s) != []
    ensures DropRun(s + b) == DropRun(s) + b
    decreases |s|
  {
    assert (s + b)[0] == s[0];
    if !IsLowerAlnum(s[0]) {
      assert (s + b)[1..] == s[1..] + b;
      DropRunAppend(s[1..], b);
    }
  }

  /** A run that covers all of `s` goes on into what follows. */
  lemma {:induction false} DropRunAcross(s: string, b: string)
    requires Alnums(s) == []
    ensures DropRun(s + b) == DropRun(b)
    decreases |s|
  {
    if s == [] {
      assert s + b == b;
    } else {
      NoAlnumAt(s, 0);
      assert (s + b)[0] == s[0] && (s + b)[1..] == s[1..] + b;
      DropRunAcross(s[1..], b);
    }
  }

  /** Replacing the runs of `a + b` replaces those of `a` and of `b` when no run
      spans the join, that is when a slug character stands on one side of it. */
  lemma {:induction false} DashRunsAppend(a: string, b: string)
    requires a == [] || b == [] || IsLowerAlnum(a[|a| - 1]) || IsLowerAlnum(b[0])
    ensures DashRuns(a + b) == DashRuns(a) + DashRuns(b)
    decreases |a|
  {
    if a == [] {
      assert a + b == b;
    } else if b == [] {
      assert a + b == a;
    } else if IsLowerAlnum(a[0]) {
      assert |a| == 1 || a[1..][|a| - 2] == a[|a| - 1];
      DashRunsAppend(a[1..], b);
      KeptStep(a, b);
    } else if Alnums(a[1..]) != [] {
      var r := DroppedHead(a, b);
      DashRunsAppend(r, b);
      DroppedStep(a, b, r);
    } else {
      if |a| > 1 {
        NoAlnumAt(a[1..], |a| - 2);
        assert a[|a| - 1] == a[1..][|a| - 2];
      }
      RunHead(a, b);
    }
  }

  /** The step of `DashRunsAppend` past a kept first character. */
  lemma KeptStep(a: string, b: string)
    requires a != [] && IsLowerAlnum(a[0])
    requires DashRuns(a[1..] + b) == DashRuns(a[1..]) + DashRuns(b)
    ensures DashRuns(a + b) == DashRuns(a) + DashRuns(b)
  {
    KeptHead(a, b);
    AppendAssoc([a[0]], DashRuns(a[1..]), DashRuns(b));
  }

  /** The step of `DashRunsAppend` past a leading run that ends inside `a`. */
  lemma DroppedStep(a: string, b: string, r: string)
    requires DashRuns(a + b) == "-" + DashRuns(r + b) && DashRuns(a) == "-" + DashRuns(r)
    requires DashRuns(r + b) == DashRuns(r) + DashRuns(b)
    ensures DashRuns(a + b) == DashRuns(a) + DashRuns(b)
  {
    AppendAssoc("-", DashRuns(r), DashRuns(b));
  }

  /** A kept first character stays first. */
  lemma KeptHead(a: string, b: string)
    requires a != [] && IsLowerAlnum(a[0])
    ensures DashRuns(a + b) == [a[0]] + DashRuns(a[1..] + b)
    ensures DashRuns(a) == [a[0]] + DashRuns(a[1..])
  {
    var ab := a + b;
    assert ab[0] == a[0];
    assert ab[1..] == a[1..] + b;
  }

  /** A leading run that ends inside `a` becomes a dash, and the rest of `a`
      (which ends as `a` does) follows. */
  lemma DroppedHead(a: string, b: string) returns (r: string)
    requires a != [] && !IsLowerAlnum(a[0]) && Alnums(a[1..]) != []
    ensures r == DropRun(a[1..]) && |r| < |a| && r != [] && r[|r| - 1] == a[|a| - 1]
    ensures DashRuns(a + b) == "-" + DashRuns(r + b)
    ensures DashRuns(a) == "-" + DashRuns(r)
  {
    r := DropRun(a[1..]);
    var ab := a + b;
    assert ab[0] == a[0];
    assert ab[1..] == a[1..] + b;
    DropRunAppend(a[1..], b);
    AlnumsDropRun(a[1..]);
    DropRunSuffix(a[1..]);
    assert r[|r| - 1] == a[1..][|a| - 2] == a[|a| - 1];
  }

  /** When all of `a` is one run and a slug character follows, the run becomes one dash. */
  lemma RunHead(a: string, b: string)
    requires a != [] && !IsLowerAlnum(a[0]) && Alnums(a[1..]) == []
    requires b != [] && IsLowerAlnum(b[0])
    ensures DashRuns(a + b) == DashRuns(a) + DashRuns(b)
  {
    RunBeforeWord(a, b);
    NoAlnumsAfterHead(a);
    DashRunsOfRun(a);
  }

  lemma RunBeforeWord(a: string, b: string)
    requires a != [] && !IsLowerAlnum(a[0]) && Alnums(a[1..]) == []
    requires b != [] && IsLowerAlnum(b[0])
    ensures DashRuns(a + b) == "-" + DashRuns(b)
  {
    DropRunTail(a, b);
    DashRunsJunkHead(a + b);
  }

  /** After a first character, a run that covers the rest of `a` ends where a slug character starts. */
  lemma DropRunTail(a: string, b: string)
    requires a != [] && Alnums(a[1..]) == []
    requires b != [] && IsLowerAlnum(b[0])
    ensures a + b != [] && DropRun((a + b)[1..]) == b
  {
    assert (a + b)[1..] == a[1..] + b;
    DropRunAcross(a[1..], b);
    DropRunWord(b);
  }

  lemma DropRunWord(b: string)
    requires b != [] && IsLowerAlnum(b[0])
    ensures DropRun(b) == b
  {
  }

  lemma DashRunsJunkHead(s: string)
    requires s != [] && !IsLowerAlnum(s[0])
    ensures DashRuns(s) == "-" + DashRuns(DropRun(s[1..]))
  {
  }

  /** What survives of a run is a suffix of the text. */
  lemma {:induction false} DropRunSuffix(s: string)
    ensures DropRun(s) == s[|s| - |DropRun(s)|..]
    decreases |s|
  {
    if s != [] && !IsLowerAlnum(s[0]) {
      DropRunSuffix(s[1..]);
      assert s[1..][|s| - 1 - |DropRun(s)|..] == s[|s| - |DropRun(s)|..];
    }
  }

  lemma NoAlnumsAfterHead(a: string)
    requires a != [] && !IsLowerAlnum(a[0]) && Alnums(a[1..]) == []
    ensures Alnums(a) == []
  {
  }

  /** A run of characters the slug drops becomes a single dash. */
  lemma DashRunsOfRun(s: string)
    requires s != [] && Alnums(s) == []
    ensures DashRuns(s) == "-"
  {
    NoAlnumAt(s, 0);
    DropRunAcross(s[1..], []);
    assert s[1..] + [] == s[1..];
  }

  /** Replacing the runs keeps a final slug character last. */
  lemma DashRunsLast(s: string)
    requires s != [] && IsLowerAlnum(s[|s| - 1])
    ensures DashRuns(s) != [] && DashRuns(s)[|DashRuns(s)| - 1] == s[|s| - 1]
  {
    var c := s[|s| - 1];
    assert s == s[..|s| - 1] + [c];
    DashRunsAppend(s[..|s| - 1], [c]);
    assert DashRuns([c]) == [c] + DashRuns([]);
  }

  /** Dropping the edge dashes of two parts joined by a dash drops those of each
      part, when the dash that joins them has a non-dash on either side. */
  lemma StripEdgesAround(p: string, q: string)
    requires p != [] && p[|p| - 1] != '-' && q != [] && q[0] != '-'
    ensures StripEdges(p + "-" + q) == StripEdges(p) + "-" + StripEdges(q)
  {
    var w := p + "-" + q;
    var tp := if p[0] == '-' then p[1..] else p;
    assert tp != [] && tp[|tp| - 1] == p[|p| - 1];
    assert StripEdges(p) == tp;
    var t := if w[0] == '-' then w[1..] else w;
    assert w[0] == p[0];
    assert t == tp + "-" + q;
    if q[|q| - 1] == '-' {
      assert StripEdges(q) == q[..|q| - 1];
      assert t[..|t| - 1] == tp + "-" + q[..|q| - 1];
    } else {
      assert StripEdges(q) == q;
    }
  }

  /** Replacing the runs turns a run between two slug characters into one dash. */
  lemma DashRunsSeparator(lx: string, ls: string, ly: string)
    requires lx != [] && IsLowerAlnum(lx[|lx| - 1]) && ly != [] && IsLowerAlnum(ly[0])
    requires ls != [] && Alnums(ls) == []
    ensures DashRuns(lx + ls + ly) == DashRuns(lx) + "-" + DashRuns(ly)
  {
    RunThenWord(ls, ly);
    DashRunsAppend(lx, ls + ly);
    AppendAssoc(lx, ls, ly);
    AppendAssoc(DashRuns(lx), "-", DashRuns(ly));
  }

  /** A run with no slug character before a slug character becomes one dash. */
  lemma RunThenWord(ls: string, ly: string)
    requires ls != [] && Alnums(ls) == [] && ly != [] && IsLowerAlnum(ly[0])
    ensures DashRuns(ls + ly) == "-" + DashRuns(ly)
  {
    DashRunsOfRun(ls);
    DashRunsAppend(ls, ly);
  }

  /** The slug of a run replacement joined by a dash, with slug characters on both sides. */
  lemma SlugOfJoined(p: string, q: string)
    requires SlugAlphabet(p) && NoDoubleDash(p) && SlugAlphabet(q) && NoDoubleDash(q)
    requires p != [] && IsLowerAlnum(p[|p| - 1]) && q != [] && IsLowerAlnum(q[0])
    ensures StripEdges(CollapseDashes(p + "-" + q)) == StripEdges(CollapseDashes(p)) + "-" + StripEdges(CollapseDashes(q))
  {
    var w := p + "-" + q;
    assert NoDoubleDash(w) by {
      forall i | 0 <= i < |w| - 1 ensures !(w[i] == '-' && w[i + 1] == '-') {
        if i < |p| - 1 {
          assert w[i] == p[i] && w[i + 1] == p[i + 1];
        } else if i > |p| {
          assert w[i] == q[i - |p| - 1] && w[i + 1] == q[i - |p|];
        }
      }
    }
    CollapseDashesNoop(w);
    CollapseDashesNoop(p);
    CollapseDashesNoop(q);
    StripEdgesAround(p, q);
  }

  /** A run of characters other than `a`-`z` and `0`-`9` between a letter or
      digit of `x` and one of `y` becomes exactly one dash: the slug of the
      whole is the slug of `x`, a dash, and the slug of `y`. */
  lemma SlugSeparator(x: string, sep: string, y: string)
    requires x != [] && IsLowerAlnum(LowerAscii(x[|x| - 1]))
    requires y != [] && IsLowerAlnum(LowerAscii(y[0]))
    requires sep != [] && Alnums(Lower(sep)) == []
    ensures Slug(x + sep + y) == Slug(x) + "-" + Slug(y)
  {
    var lx, ls, ly := Lower(x), Lower(sep), Lower(y);
    LowerAppend(x, sep);
    LowerAppend(x + sep, y);
    DashRunsSeparator(lx, ls, ly);
    DashRunsLast(lx);
    var p, q := DashRuns(lx), DashRuns(ly);
    assert q[0] == ly[0];
    DashRunsAlphabet(lx);
    DashRunsAlphabet(ly);
    DashRunsSpacing(lx);
    DashRunsSpacing(ly);
    SlugOfJoined(p, q);
  }

  /** A word made only of letters and digits is its own slug, lowercased. */
  lemma SlugOfWord(w: string)
    requires forall i :: 0 <= i < |w| ==> IsLowerAlnum(LowerAscii(w[i]))
    ensures Slug(w) == Lower(w)
  {
    var lw := Lower(w);
    assert SlugAlphabet(lw) && NoDoubleDash(lw);
    DashRunsOfSlug(lw);
    CollapseDashesNoop(lw);
  }

  // ------------------------------------------------------------ the name

  /** `name.replace('.xml', '')`: the first occurrence of `pat` is dropped. */
  function RemoveFirst(s: string, pat: string): (r: string)
    requires pat != []
    ensures |r| == |s| || |r| == |s| - |pat|
    decreases |s|
  {
    if |s| < |pat| then s
    else if s[..|pat|] == pat then s[|pat|..]
    else [s[0]] + RemoveFirst(s[1..], pat)
  }

  const XmlExtension: string := ".xml"

  /** A file name `x.xml` with no other dot loses its extension. */
  lemma {:induction false} RemoveXmlExtension(x: string)
    requires '.' !in x
    ensures RemoveFirst(x + XmlExtension, XmlExtension) == x
    decreases |x|
  {
    var s := x + XmlExtension;
    if x == [] {
      assert s[..4] == XmlExtension && s[4..] == [];
    } else {
      assert s[..4][0] == x[0] != '.';
      RemoveXmlExtension(x[1..]);
      assert s[1..] == x[1..] + XmlExtension;
    }
  }

  const DefaultName: string := "wordpress-export"

  /** The file name before `.md`, as the download handler computes it: the title
      decides as soon as it is non-empty, even when its slug is empty. */
  function BaseNameAsWritten(parsed: Option<ParsedExport>, fileName: Option<string>): string {
    if parsed.Some? && parsed.value.siteInfo.title != "" then Slug(parsed.value.siteInfo.title)
    else if fileName.Some? then RemoveFirst(fileName.value, XmlExtension)
    else DefaultName
  }

  /** A title made only of characters the slug drops, such as `!!!`, still
      decides the name, and the name is empty: the file is called `.md`. */
  lemma TitleWithoutLettersNamesNothing(data: ParsedExport, fileName: Option<string>)
    requires data.siteInfo.title != "" && Alnums(Lower(data.siteInfo.title)) == []
    ensures BaseNameAsWritten(Some(data), fileName) == ""
  {
    SlugWithoutAlnums(data.siteInfo.title);
  }

  /** The file name before `.md`: the first non-empty one of the title's slug,
      the uploaded file's name without `.xml`, and `wordpress-export`. */
  function BaseName(parsed: Option<ParsedExport>, fileName: Option<string>): (name: string)
    ensures name != []
    ensures BaseNameAsWritten(parsed, fileName) != [] ==> name == BaseNameAsWritten(parsed, fileName)
  {
    var fromTitle := if parsed.Some? then Slug(parsed.value.siteInfo.title) else "";
    var fromFile := if fileName.Some? then RemoveFirst(fileName.value, XmlExtension) else "";
    assert Slug("") == "";
    if fromTitle != [] then fromTitle
    else if fromFile != [] then fromFile
    else DefaultName
  }

  datatype DownloadFile = DownloadFile(name: string, content: string)

  /** downloadMarkdown: nothing to download before a conversion has produced text;
      otherwise the text under the base name followed by `.md`. */
  function Download(markdown: string, parsed: Option<ParsedExport>, fileName: Option<string>): (file: Option<DownloadFile>)
    ensures file.None? <==> markdown == ""
    ensures file.Some? ==> file.value.content == markdown
    ensures file.Some? ==> var n := file.value.name; |n| > 3 && n[|n| - 3..] == ".md"
  {
    if markdown == "" then None
    else
      var base := BaseName(parsed, fileName);
      assert (base + ".md")[|base|..] == ".md";
      Some(DownloadFile(base + ".md", markdown))
  }
}
