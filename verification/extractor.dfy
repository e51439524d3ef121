/** `TextExtractor` (src/scraper/extractor.py): cleaning the paragraph texts
    of a fetched page and assembling the page text stored per URL.

    Fetching and HTML parsing are outside the model: a page is given as its
    optional `<title>` text and the texts of its `<p>` elements, in
    document order. */
module Extractor {
  import opened Common
  import opened Strings
  import opened Dicts

  // ---------------------------------------------------------------------
  // `_clean_links`

  const HttpsTarget: string := "https://"

  /** No occurrence of `p` lies wholly before its first occurrence. */
  lemma PrefixBeforeFirst(s: string, p: string, n: nat)
    requires n <= |s|
    requires forall j :: 0 <= j < n ==> !OccursAt(s, p, j)
    requires OccursAt(s, p, n) || n == |s|
    requires |p| > 0
    ensures !Contains(s[..n], p)
  {
    if Contains(s[..n], p) {
      var i :| 0 <= i <= n && OccursAt(s[..n], p, i);
      OccursInPrefix(s, p, n, i);
      assert false;
    }
  }

  /** `_clean_links`: the text up to the first `"https://"`, or all of it. */
  function CleanLinks(text: string): (r: string)
    ensures StartsWith(text, r)
    ensures !Contains(r, HttpsTarget)
    ensures !Contains(text, HttpsTarget) ==> r == text
    ensures Contains(text, HttpsTarget) ==> OccursAt(text, HttpsTarget, |r|)
  {
    match FindFirst(text, HttpsTarget)
    case None =>
      text
    case Some(i) =>
      PrefixBeforeFirst(text, HttpsTarget, i);
      text[..i]
  }

  /** Cleaning links twice is cleaning them once. */
  lemma CleanLinksIdempotent(text: string)
    ensures CleanLinks(CleanLinks(text)) == CleanLinks(text)
  {
  }

  /** Whatever follows a link-free prefix survives: the cut is at the first link. */
  lemma {:induction false} CleanLinksAppend(a: string, b: string)
    requires !Contains(a, HttpsTarget)
    requires StartsWith(b, HttpsTarget)
    ensures CleanLinks(a + b) == a
  {
    var s := a + b;
    assert s[|a|..|a| + |HttpsTarget|] == b[..|HttpsTarget|];
    assert OccursAt(s, HttpsTarget, |a|);
    var i := FindFirst(s, HttpsTarget).value;
    if i < |a| {
      NoEarlierLink(a, b, i);
      assert false;
    }
    assert s[..|a|] == a;
  }

  /** No link starts inside the link-free prefix, not even one that runs
      on into the link after it. */
  lemma NoEarlierLink(a: string, b: string, i: int)
    requires !Contains(a, HttpsTarget)
    requires StartsWith(b, HttpsTarget)
    requires 0 <= i < |a|
    ensures !OccursAt(a + b, HttpsTarget, i)
  {
    var s := a + b;
    if OccursAt(s, HttpsTarget, i) {
      if i + |HttpsTarget| <= |a| {
        OccursInLeft(a, b, HttpsTarget, i);
        assert false;
      }
      // The occurrence at i straddles the end of `a`: then `b` would start
      // with a proper suffix of "https://" followed by "https://", and no
      // proper suffix of "https://" is also its prefix.
      var k := |a| - i;
      assert s[|a|..i + |HttpsTarget|] == HttpsTarget[k..];
      assert s[|a|..i + |HttpsTarget|] == b[..|HttpsTarget| - k];
      NoBorder(k);
    }
  }

  lemma OccursInLeft(a: string, b: string, p: string, i: int)
    requires OccursAt(a + b, p, i) && i + |p| <= |a|
    ensures OccursAt(a, p, i)
  {
    assert (a + b)[i..i + |p|] == a[i..i + |p|];
  }

  /** "https://" has no border: no proper suffix of it is also a prefix. */
  lemma NoBorder(k: nat)
    requires 0 < k < |HttpsTarget|
    ensures HttpsTarget[k..] != HttpsTarget[..|HttpsTarget| - k]
  {
    assert HttpsTarget[k..][0] == HttpsTarget[k];
    assert HttpsTarget[..|HttpsTarget| - k][0] == 'h';
  }

  // ---------------------------------------------------------------------
  // The steps of `_clean_body`

  /** The characters Python's `str.isspace()` accepts, which `str.strip()`
      removes from both ends. */
  predicate IsPySpace(c: char) {
    || ('\t' <= c <= '\r')
    || ('\U{1C}' <= c <= '\U{1F}')
    || c == ' ' || c == '\U{85}' || c == '\U{A0}' || c == '\U{1680}'
    || ('\U{2000}' <= c <= '\U{200A}')
    || c == '\U{2028}' || c == '\U{2029}' || c == '\U{202F}' || c == '\U{205F}' || c == '\U{3000}'
  }

  predicate AllSpace(s: string) {
    forall i :: 0 <= i < |s| ==> IsPySpace(s[i])
  }

  function StripLeft(s: string): (r: string)
    ensures |r| <= |s| && r == s[|s| - |r|..]
    ensures AllSpace(s[..|s| - |r|])
    ensures |r| > 0 ==> !IsPySpace(r[0])
  {
    if |s| == 0 || !IsPySpace(s[0]) then s
    else
      var r := StripLeft(s[1..]);
      TailSlices(s, |s| - |r|);
      r
  }

  /** Slices of `s[1..]` in terms of slices of `s`. */
  lemma TailSlices(s: string, k: nat)
    requires 1 <= k <= |s|
    ensures s[1..][k - 1..] == s[k..]
    ensures forall i :: 0 < i < k ==> s[..k][i] == s[1..][..k - 1][i - 1]
    ensures s[..k][0] == s[0]
  {
  }

  function StripRight(s: string): (r: string)
    ensures |r| <= |s| && r == s[..|r|]
    ensures AllSpace(s[|r|..])
    ensures |r| > 0 ==> !IsPySpace(r[|r| - 1])
  {
    if |s| == 0 || !IsPySpace(s[|s| - 1]) then s
    else
      var r := StripRight(s[..|s| - 1]);
      assert s[|r|..] == s[..|s| - 1][|r|..] + [s[|s| - 1]];
      r
  }

  /** `r` is the slice of `s` at `i` with only whitespace around it. */
  predicate SliceWithin(s: string, r: string, i: int) {
    && 0 <= i <= |s| - |r|
    && r == s[i..i + |r|]
    && AllSpace(s[..i])
    && AllSpace(s[i + |r|..])
  }

  /** Python's `s.strip()`: the slice of `s` left once the whitespace at both
      ends is removed; it begins and ends with a non-space. */
  function Strip(s: string): (r: string)
    ensures exists i :: SliceWithin(s, r, i)
    ensures |r| > 0 ==> !IsPySpace(r[0]) && !IsPySpace(r[|r| - 1])
  {
    var l := StripLeft(s);
    var r := StripRight(l);
    StripSlice(s, l, r);
    r
  }

  /** A prefix of a suffix, with only whitespace cut at both ends, is a slice within. */
  lemma StripSlice(s: string, l: string, r: string)
    requires |l| <= |s| && l == s[|s| - |l|..] && AllSpace(s[..|s| - |l|])
    requires |r| <= |l| && r == l[..|r|] && AllSpace(l[|r|..])
    ensures SliceWithin(s, r, |s| - |l|)
  {
    var i := |s| - |l|;
    SuffixSlices(s, i, |r|);
    assert s[i + |r|..] == l[|r|..];
  }

  lemma SuffixSlices(s: string, i: nat, n: nat)
    requires i + n <= |s|
    ensures s[i..][..n] == s[i..i + n]
    ensures s[i..][n..] == s[i + n..]
  {
  }

  /** Stripping leaves no whitespace to strip. */
  lemma StripIdempotent(s: string)
    ensures Strip(Strip(s)) == Strip(s)
  {
    var r := Strip(s);
    if |r| > 0 {
      assert StripLeft(r) == r;
      assert StripRight(r) == r;
    }
  }

  /** Python's `s.replace(old, new)` for a single character `target`
      and its replacement. */
  function ReplaceChar(s: string, target: char, replacement: char): (r: string)
    ensures |r| == |s|
    ensures forall i :: 0 <= i < |s| ==> r[i] == (if s[i] == target then replacement else s[i])
  {
    if |s| == 0 then []
    else [if s[0] == target then replacement else s[0]] + ReplaceChar(s[1..], target, replacement)
  }

  predicate AllAscii(s: string) {
    forall i :: 0 <= i < |s| ==> IsAscii(s[i])
  }

  predicate NoAscii(s: string) {
    forall i :: 0 <= i < |s| ==> !IsAscii(s[i])
  }

  /** Drops the run of non-ASCII characters at the front. */
  function DropNonAscii(s: string): (r: string)
    ensures |r| <= |s| && r == s[|s| - |r|..]
    ensures NoAscii(s[..|s| - |r|])
    ensures |r| > 0 ==> IsAscii(r[0])
  {
    if |s| == 0 || IsAscii(s[0]) then s
    else
      var r := DropNonAscii(s[1..]);
      var k := |s| - |r|;
      TailSlices(s, k);
      NoAsciiCons(s[0], s[1..][..k - 1], s[..k]);
      r
  }

  lemma NoAsciiCons(c: char, t: string, s: string)
    requires !IsAscii(c) && NoAscii(t) && s == [c] + t
    ensures NoAscii(s)
  {
  }

  /** `re.sub(r"[^\x00-\x7F]+", " ", s)`: every maximal run of non-ASCII
      characters becomes one space. */
  function CollapseNonAscii(s: string): (r: string)
    ensures AllAscii(r)
    ensures |r| <= |s|
    decreases |s|
  {
    if |s| == 0 then []
    else if IsAscii(s[0]) then [s[0]] + CollapseNonAscii(s[1..])
    else " " + CollapseNonAscii(DropNonAscii(s[1..]))
  }

  /** ASCII text passes through unchanged. */
  lemma {:induction false} CollapseAscii(s: string)
    requires AllAscii(s)
    ensures CollapseNonAscii(s) == s
  {
    if |s| > 0 {
      CollapseAscii(s[1..]);
      assert s == [s[0]] + s[1..];
    }
  }

  /** A whole run of non-ASCII characters becomes a single space. */
  lemma CollapseRun(s: string)
    requires |s| > 0 && NoAscii(s)
    ensures CollapseNonAscii(s) == " "
  {
    var rest := DropNonAscii(s[1..]);
    assert |rest| == 0;
  }

  /** Splitting where one side is ASCII, the two halves are collapsed apart. */
  lemma {:induction false} CollapseConcat(a: string, b: string)
    requires |a| == 0 || |b| == 0 || IsAscii(a[|a| - 1]) || IsAscii(b[0])
    ensures CollapseNonAscii(a + b) == CollapseNonAscii(a) + CollapseNonAscii(b)
    decreases |a|
  {
    if |a| == 0 {
      assert a + b == b;
    } else if |b| == 0 {
      assert a + b == a;
    } else if IsAscii(a[0]) {
      CollapseConcat(a[1..], b);
      ConcatAsciiHead(a, b);
    } else {
      var tail := a[1..];
      var rest := DropNonAscii(tail);
      DropConcat(tail, b);
      if |rest| > 0 {
        assert rest[|rest| - 1] == a[|a| - 1];
        CollapseConcat(rest, b);
      }
      ConcatRunHead(a, b);
    }
  }

  lemma ConcatAsciiHead(a: string, b: string)
    requires |a| > 0 && IsAscii(a[0])
    requires CollapseNonAscii(a[1..] + b) == CollapseNonAscii(a[1..]) + CollapseNonAscii(b)
    ensures CollapseNonAscii(a + b) == CollapseNonAscii(a) + CollapseNonAscii(b)
  {
    TailOfConcat(a, b);
    CollapseAsciiHead(a + b);
    CollapseAsciiHead(a);
    AppendAssoc([a[0]], CollapseNonAscii(a[1..]), CollapseNonAscii(b));
  }

  lemma AppendAssoc(x: string, y: string, z: string)
    ensures x + (y + z) == (x + y) + z
  {
  }

  lemma TailOfConcat(a: string, b: string)
    requires |a| > 0
    ensures (a + b)[0] == a[0] && (a + b)[1..] == a[1..] + b
  {
  }

  lemma CollapseAsciiHead(s: string)
    requires |s| > 0 && IsAscii(s[0])
    ensures CollapseNonAscii(s) == [s[0]] + CollapseNonAscii(s[1..])
  {
  }

  lemma CollapseRunHead(s: string)
    requires |s| > 0 && !IsAscii(s[0])
    ensures CollapseNonAscii(s) == " " + CollapseNonAscii(DropNonAscii(s[1..]))
  {
  }

  lemma ConcatRunHead(a: string, b: string)
    requires |a| > 0 && !IsAscii(a[0]) && |b| > 0
    requires var rest := DropNonAscii(a[1..]);
      if |rest| > 0 then
        && DropNonAscii(a[1..] + b) == rest + b
        && CollapseNonAscii(rest + b) == CollapseNonAscii(rest) + CollapseNonAscii(b)
      else DropNonAscii(a[1..] + b) == b
    ensures CollapseNonAscii(a + b) == CollapseNonAscii(a) + CollapseNonAscii(b)
  {
    var rest := DropNonAscii(a[1..]);
    TailOfConcat(a, b);
    CollapseRunHead(a + b);
    CollapseRunHead(a);
    if |rest| > 0 {
      AppendAssoc(" ", CollapseNonAscii(rest), CollapseNonAscii(b));
    } else {
      assert CollapseNonAscii(rest) == [];
    }
  }

  lemma {:induction false} DropConcat(a: string, b: string)
    requires |b| > 0
    requires IsAscii(b[0]) || (|a| > 0 && IsAscii(a[|a| - 1]))
    ensures |DropNonAscii(a)| > 0 ==> DropNonAscii(a + b) == DropNonAscii(a) + b
    ensures |DropNonAscii(a)| == 0 ==> DropNonAscii(a + b) == b
    decreases |a|
  {
    if |a| == 0 {
      assert a + b == b;
    } else if !IsAscii(a[0]) {
      assert (a + b)[1..] == a[1..] + b;
      if |a[1..]| > 0 {
        assert a[1..][|a[1..]| - 1] == a[|a| - 1];
      }
      DropConcat(a[1..], b);
    }
  }

  // ---------------------------------------------------------------------
  // `_clean_body` and the page assembly

  /** One iteration of `_clean_body`: strip, newlines and tabs to spaces,
      non-ASCII runs to one space, cut at the first link. */
  function CleanParagraph(text: string): (r: string)
    ensures AllAscii(r)
    ensures '\n' !in r && '\t' !in r
  {
    var stripped := Strip(text);
    var noNewlines := ReplaceChar(stripped, '\n', ' ');
    var noTabs := ReplaceChar(noNewlines, '\t', ' ');
    var ascii := CollapseNonAscii(noTabs);
    var r := CleanLinks(ascii);
    ReplaceRemoves(stripped, '\n', ' ', '\n');
    ReplaceRemoves(noNewlines, '\t', ' ', '\n');
    ReplaceRemoves(noNewlines, '\t', ' ', '\t');
    CleanSteps(noTabs, r);
    r
  }

  /** The last two steps keep out the characters already gone, and leave ASCII. */
  lemma CleanSteps(noTabs: string, r: string)
    requires '\n' !in noTabs && '\t' !in noTabs
    requires r == CleanLinks(CollapseNonAscii(noTabs))
    ensures AllAscii(r) && '\n' !in r && '\t' !in r
  {
    CollapseKeeps(noTabs);
    PrefixKeeps(CollapseNonAscii(noTabs), r);
  }

  /** A cleaned paragraph holds no link. */
  lemma CleanParagraphNoLinks(text: string)
    ensures !Contains(CleanParagraph(text), HttpsTarget)
  {
    var noTabs := ReplaceChar(ReplaceChar(Strip(text), '\n', ' '), '\t', ' ');
    assert CleanParagraph(text) == CleanLinks(CollapseNonAscii(noTabs));
  }

  /** After `s.replace(target, replacement)`, a character other than the
      replacement occurs only if it occurred before and is not the target. */
  lemma ReplaceRemoves(s: string, target: char, replacement: char, c: char)
    requires c != replacement
    requires c == target || c !in s
    ensures c !in ReplaceChar(s, target, replacement)
  {
  }

  /** A prefix holds only characters of the whole string. */
  lemma PrefixKeeps(s: string, r: string)
    requires StartsWith(s, r)
    ensures forall c :: c in r ==> c in s
    ensures AllAscii(s) ==> AllAscii(r)
  {
    assert forall i :: 0 <= i < |r| ==> r[i] == s[i];
  }

  /** Every ASCII character the collapse emits was in its input, or is the space. */
  lemma {:induction false} CollapseKeeps(s: string)
    ensures forall c :: c in CollapseNonAscii(s) ==> c == ' ' || c in s
    decreases |s|
  {
    if |s| > 0 {
      SuffixChars(s, s[1..]);
      if IsAscii(s[0]) {
        CollapseKeeps(s[1..]);
        CollapseAsciiHead(s);
      } else {
        var rest := DropNonAscii(s[1..]);
        CollapseKeeps(rest);
        SuffixChars(s[1..], rest);
        CollapseRunHead(s);
      }
    }
  }

  /** A suffix holds only characters of the whole string. */
  lemma SuffixChars(s: string, r: string)
    requires |r| <= |s| && r == s[|s| - |r|..]
    ensures forall c :: c in r ==> c in s
  {
    assert forall i :: 0 <= i < |r| ==> r[i] == s[|s| - |r| + i];
  }

  /** A loop that appends `f` of each element in turn. */
  function AppendEach(xs: seq<string>, f: string -> string): (ys: seq<string>)
    ensures |ys| == |xs|
    ensures forall k :: 0 <= k < |ys| ==> ys[k] == f(xs[k])
  {
    if |xs| == 0 then []
    else
      var n := |xs| - 1;
      var before := AppendEach(xs[..n], f);
      assert forall k :: 0 <= k < n ==> xs[..n][k] == xs[k];
      before + [f(xs[n])]
  }

  /** `_clean_body`: the loop appends each paragraph, cleaned, in turn. */
  function CleanBody(paragraphs: seq<string>): (body: seq<string>)
    ensures |body| == |paragraphs|
    ensures forall k :: 0 <= k < |body| ==> body[k] == CleanParagraph(paragraphs[k])
  {
    AppendEach(paragraphs, CleanParagraph)
  }

  /** Every paragraph of the body is cleaned: the k-th string is the k-th
      paragraph cleaned, plain ASCII on one line with no tabs and no
      `https://` link. */
  lemma CleanBodyParagraphs(paragraphs: seq<string>)
    ensures |CleanBody(paragraphs)| == |paragraphs|
    ensures forall k :: 0 <= k < |paragraphs| ==>
      && CleanBody(paragraphs)[k] == CleanParagraph(paragraphs[k])
      && CleanText(CleanBody(paragraphs)[k])
      && !Contains(CleanBody(paragraphs)[k], HttpsTarget)
  {
    forall k | 0 <= k < |paragraphs|
      ensures CleanText(CleanBody(paragraphs)[k]) && !Contains(CleanBody(paragraphs)[k], HttpsTarget)
    {
      ParagraphClean(paragraphs[k]);
      CleanParagraphNoLinks(paragraphs[k]);
    }
  }

  /** What the parser yields for one fetched page. */
  datatype Page = Page(title: Option<string>, paragraphs: seq<string>)

  /** Lines 49-54 of `get_requests_from_urls`: the title (or `""`), a space,
      and the cleaned paragraphs joined by spaces. */
  function PageText(page: Page): (r: string)
    ensures StartsWith(r, page.title.GetOr("") + " ")
    ensures r[|page.title.GetOr("")| + 1..] == Join(" ", CleanBody(page.paragraphs))
  {
    var title := page.title.GetOr("");
    var r := title + " " + Join(" ", CleanBody(page.paragraphs));
    assert r[..|title| + 1] == title + " ";
    r
  }

  /** Plain ASCII on one line, without tabs. */
  predicate CleanText(s: string) {
    forall i :: 0 <= i < |s| ==> IsAscii(s[i]) && s[i] != '\n' && s[i] != '\t'
  }

  /** Joining clean parts with spaces gives clean text. */
  lemma JoinClean(parts: seq<string>)
    requires forall k :: 0 <= k < |parts| ==> CleanText(parts[k])
    ensures CleanText(Join(" ", parts))
  {
    var joined := Join(" ", parts);
    forall i | 0 <= i < |joined|
      ensures IsAscii(joined[i]) && joined[i] != '\n' && joined[i] != '\t'
    {
      var c := joined[i];
      JoinChars(" ", parts, c);
      if c !in " " {
        var k :| 0 <= k < |parts| && c in parts[k];
        var m :| 0 <= m < |parts[k]| && parts[k][m] == c;
      }
    }
  }

  /** After the title and its space, the page text is plain ASCII on one
      line with no tabs. */
  lemma PageBodyClean(page: Page)
    ensures CleanText(PageText(page)[|page.title.GetOr("")| + 1..])
  {
    var title := page.title.GetOr("");
    var body := CleanBody(page.paragraphs);
    forall k | 0 <= k < |body| ensures CleanText(body[k]) {
      ParagraphClean(page.paragraphs[k]);
    }
    JoinClean(body);
    var joined := Join(" ", body);
    DropPrefix(title + " ", joined);
  }

  /** A cleaned paragraph is clean text. */
  lemma ParagraphClean(text: string)
    ensures CleanText(CleanParagraph(text))
  {
    var r := CleanParagraph(text);
    assert forall i :: 0 <= i < |r| ==> r[i] in r;
  }

  lemma DropPrefix(a: string, b: string)
    ensures (a + b)[|a|..] == b
  {
  }

  /** A page with one paragraph gives its title, a space and that paragraph cleaned. */
  lemma OneParagraph(title: Option<string>, p: string)
    ensures PageText(Page(title, [p])) == title.GetOr("") + " " + CleanParagraph(p)
  {
    assert CleanBody([p]) == [CleanParagraph(p)];
  }

  /** One more paragraph adds a space and that paragraph, cleaned, at the end. */
  lemma PageTextAppend(title: Option<string>, paragraphs: seq<string>, p: string)
    requires |paragraphs| > 0
    ensures PageText(Page(title, paragraphs + [p])) ==
      PageText(Page(title, paragraphs)) + " " + CleanParagraph(p)
  {
    var c := CleanParagraph(p);
    AppendEachSnoc(paragraphs, p, CleanParagraph);
    JoinSnoc(" ", CleanBody(paragraphs), c);
    SpacedAssoc(title.GetOr(""), Join(" ", CleanBody(paragraphs)), c);
  }

  lemma AppendEachSnoc(xs: seq<string>, x: string, f: string -> string)
    ensures AppendEach(xs + [x], f) == AppendEach(xs, f) + [f(x)]
  {
    assert (xs + [x])[..|xs|] == xs;
  }

  lemma SpacedAssoc(t: string, a: string, b: string)
    ensures t + " " + (a + " " + b) == (t + " " + a) + " " + b
  {
  }

  /** The text of a page with no paragraphs is its title and one space. */
  lemma EmptyPage(title: Option<string>)
    ensures PageText(Page(title, [])) == title.GetOr("") + " "
  {
  }

  // ---------------------------------------------------------------------
  // `get_requests_from_urls`

  /** `output` maps each URL of `urls`, and nothing else, to its page text. */
  ghost predicate PagesFor(output: Dict<string, string>, urls: seq<string>, fetch: string -> Page) {
    && DistinctKeys(output)
    && (forall u :: u in KeySet(output) <==> u in urls)
    && (forall u :: u in urls ==> Get(output, u) == Some(PageText(fetch(u))))
  }

  /** The loop of `get_requests_from_urls`: `output[url] = full_page` for
      each URL in turn, `fetch` standing for the request and the parse. A
      URL listed twice is fetched twice and keeps its first position. */
  method ExtractPages(urls: seq<string>, fetch: string -> Page) returns (output: Dict<string, string>)
    ensures DistinctKeys(output)
    ensures forall u :: u in KeySet(output) <==> u in urls
    ensures forall u :: u in urls ==> Get(output, u) == Some(PageText(fetch(u)))
    ensures Keys(output) == FirstOccurrences(urls)
  {
    output := [];
    for n := 0 to |urls|
      invariant PagesFor(output, urls[..n], fetch)
      invariant Keys(output) == FirstOccurrences(urls[..n])
    {
      ExtractStep(output, urls, n, fetch);
      KeyOrderStep(output, urls, n, PageText(fetch(urls[n])));
      output := Put(output, urls[n], PageText(fetch(urls[n])));
    }
    assert urls[..|urls|] == urls;
  }

  /** The URLs in the order they are first listed, each once. */
  function FirstOccurrences(urls: seq<string>): (r: seq<string>)
    ensures forall u :: u in r <==> u in urls
    ensures forall i, j :: 0 <= i < j < |r| ==> r[i] != r[j]
  {
    if |urls| == 0 then []
    else
      var last := urls[|urls| - 1];
      var d := FirstOccurrences(urls[..|urls| - 1]);
      assert urls == urls[..|urls| - 1] + [last];
      if last in d then d else d + [last]
  }

  /** Assigning the next URL keeps the keys in first-listed order. */
  lemma KeyOrderStep(output: Dict<string, string>, urls: seq<string>, n: nat, v: string)
    requires n < |urls| && Keys(output) == FirstOccurrences(urls[..n])
    requires urls[n] in KeySet(output) <==> urls[n] in urls[..n]
    ensures Keys(Put(output, urls[n], v)) == FirstOccurrences(urls[..n + 1])
  {
    assert urls[..n + 1][..n] == urls[..n];
    if urls[n] !in KeySet(output) {
      KeysSnoc(output, urls[n], v);
    }
  }

  lemma KeysSnoc(d: Dict<string, string>, k: string, v: string)
    ensures Keys(d + [(k, v)]) == Keys(d) + [k]
  {
  }

  lemma ExtractStep(output: Dict<string, string>, urls: seq<string>, n: nat, fetch: string -> Page)
    requires n < |urls| && PagesFor(output, urls[..n], fetch)
    ensures PagesFor(Put(output, urls[n], PageText(fetch(urls[n]))), urls[..n + 1], fetch)
  {
    assert urls[..n + 1] == urls[..n] + [urls[n]];
    ExtractAppend(output, urls[..n], urls[n], fetch);
  }

  lemma ExtractAppend(output: Dict<string, string>, done: seq<string>, url: string, fetch: string -> Page)
    requires PagesFor(output, done, fetch)
    ensures PagesFor(Put(output, url, PageText(fetch(url))), done + [url], fetch)
  {
    var v := PageText(fetch(url));
    PutDistinct(output, url, v);
    forall u | u in done + [url] && u != url
      ensures Get(Put(output, url, v), u) == Some(PageText(fetch(u)))
    {
      PutOther(output, url, v, u);
    }
  }
}
