/**
  The blog list page (client/src/pages/blogs.tsx): the one-paragraph summary shown for each
  post, and the list that shows five posts more each time "Load more" is pressed.
*/
module Blogs {
  import opened Wrappers
  import opened Text
  import BlogLoader

  // ---------------------------------------------------------------------------------------
  // The summary (client/src/pages/blogs.tsx:8-36)
  // ---------------------------------------------------------------------------------------

  /** `lines.map(l => l.trim()).filter(Boolean)`: the trimmed lines that are not empty. */
  function TrimmedLines(pieces: seq<string>): (lines: seq<string>)
    ensures |lines| <= |pieces|
    ensures [] !in lines
  {
    if pieces == [] then []
    else
      var t := Trim(pieces[0]);
      var rest := TrimmedLines(pieces[1..]);
      if t == [] then rest else [t] + rest
  }

  /** The length of the run of `c` that `s` starts with. */
  function LeadingRun(s: string, c: char): (k: nat)
    ensures k <= |s|
    ensures forall i :: 0 <= i < k ==> s[i] == c
    ensures k < |s| ==> s[k] != c
  {
    if s == [] || s[0] != c then 0 else 1 + LeadingRun(s[1..], c)
  }

  /** `replace(/^#+\s*\/g, "")`: one or more '#' at the start, with the white space after them, removed. */
  function StripHeading(s: string): (r: string)
    ensures |r| <= |s| && r == s[|s| - |r|..]
    ensures s == [] || s[0] != '#' ==> r == s
  {
    if s == [] || s[0] != '#' then s else TrimStart(s[LeadingRun(s, '#')..])
  }

  /** What a heading mark removes: the whole run of '#' at the start, then all the white space after it. */
  lemma StripHeadingMark(s: string)
    requires s != [] && s[0] == '#'
    ensures var r := StripHeading(s);
      exists h :: 1 <= h <= |s| - |r| &&
        (forall i :: 0 <= i < h ==> s[i] == '#') && (h < |s| ==> s[h] != '#') &&
        (forall i :: h <= i < |s| - |r| ==> IsSpace(s[i])) && (r == [] || !IsSpace(r[0]))
  {
    var h := LeadingRun(s, '#');
    var r := StripHeading(s);
    SkippedSpaces(s, h, r);
    assert 1 <= h <= |s| - |r|;
  }

  /** The white space `trimStart` skips in a suffix sits at the same places of the whole text. */
  lemma SkippedSpaces(s: string, h: nat, r: string)
    requires h <= |s| && r == TrimStart(s[h..])
    ensures forall i :: h <= i < |s| - |r| ==> IsSpace(s[i])
  {
    forall i | h <= i < |s| - |r|
      ensures IsSpace(s[i])
    {
      assert s[i] == s[h..][i - h];
    }
  }

  /** The characters `replace(/[*_`>]/g, "")` drops. */
  const Markup: set<char> := {'*', '_', '`', '>'}

  /**
    The link `[text](url)` the text starts with, as `\[([^\]]+)\]\([^)]+\)` matches it there:
    the link text and the length of the match.
  */
  function LinkAt(s: string): (m: Option<(string, nat)>)
    ensures m.Some? ==> 4 <= m.value.1 <= |s| && |m.value.0| + 4 <= m.value.1 && m.value.0 == s[1..1 + |m.value.0|]
  {
    if s == [] || s[0] != '[' then None
    else
      var k := IndexOf(s[1..], ']');
      if k < 1 || k + 2 >= |s| || s[k + 2] != '(' then None
      else
        var m := IndexOf(s[k + 3..], ')');
        if m < 1 then None else Some((s[1..k + 1], k + m + 4))
  }

  /** `replace(/\[([^\]]+)\]\([^)]+\)/g, "$1")`: every link, scanning left to right, becomes its text. */
  function ReplaceLinks(s: string): (r: string)
    ensures |r| <= |s|
    decreases |s|
  {
    if s == [] then []
    else
      match LinkAt(s)
      case Some((text, len)) => text + ReplaceLinks(s[len..])
      case None => [s[0]] + ReplaceLinks(s[1..])
  }

  /** Replacing links only keeps characters of the text. */
  lemma {:induction false} ReplaceLinksMembers(s: string)
    ensures forall c :: c in ReplaceLinks(s) ==> c in s
    decreases |s|
  {
    if s != [] {
      match LinkAt(s)
      case Some((text, len)) =>
        ReplaceLinksMembers(s[len..]);
        assert forall c :: c in text ==> c in s by {
          assert text == s[1..1 + |text|];
        }
        assert forall c :: c in s[len..] ==> c in s;
      case None =>
        ReplaceLinksMembers(s[1..]);
        assert forall c :: c in s[1..] ==> c in s;
    }
  }

  /** A text without '[' holds no link and is left as it is. */
  lemma {:induction false} ReplaceLinksPlain(a: string, rest: string)
    requires '[' !in a
    ensures ReplaceLinks(a + rest) == a + ReplaceLinks(rest)
    decreases |a|
  {
    if a != [] {
      var s := a + rest;
      assert a[0] in a;
      assert s[0] == a[0] && LinkAt(s).None?;
      assert s[1..] == a[1..] + rest;
      assert '[' !in a[1..] by {
        assert forall c :: c in a[1..] ==> c in a;
      }
      ReplaceLinksPlain(a[1..], rest);
      assert ReplaceLinks(s) == [a[0]] + (a[1..] + ReplaceLinks(rest));
      assert a == [a[0]] + a[1..];
    } else {
      assert a + rest == rest;
    }
  }

  /** A link written out is replaced by its text, and the scan goes on after it. */
  lemma ReplaceLinksLink(text: string, url: string, rest: string)
    requires text != [] && ']' !in text && url != [] && ')' !in url
    ensures ReplaceLinks("[" + text + "](" + url + ")" + rest) == text + ReplaceLinks(rest)
  {
    var s := "[" + text + "](" + url + ")" + rest;
    var k := |text|;
    assert s[1..] == text + ("](" + url + ")" + rest);
    IndexOfAfter(text, "](" + url + ")" + rest, ']');
    assert s[k + 2] == '(';
    assert s[k + 3..] == url + (")" + rest);
    IndexOfAfter(url, ")" + rest, ')');
    assert s[1..k + 1] == text;
    assert s[k + |url| + 4..] == rest;
  }

  /** The first line with its heading marks, emphasis characters and link syntax taken out. */
  function Clean(line: string): (r: string)
    ensures forall c :: c in r ==> c in line && c !in Markup
  {
    RemoveCharsMembers(StripHeading(line), Markup);
    ReplaceLinksMembers(RemoveChars(StripHeading(line), Markup));
    ReplaceLinks(RemoveChars(StripHeading(line), Markup))
  }

  /**
    Cutting a text longer than `maxLength`: kept up to the last space within the first
    `maxLength` characters, or all but the last of them when there is no space, then "…".
  */
  function Truncate(text: string, maxLength: int): (r: string)
    ensures |text| <= maxLength ==> r == text
    ensures forall c :: c in r ==> c in text || c == '…'
  {
    if |text| > maxLength then
      var cut := text[..SliceLength(|text|, maxLength)];
      var k := LastIndexOf(cut, ' ');
      assert forall c :: c in cut ==> c in text;
      cut[..SliceLength(|cut|, k)] + "…"
    else text
  }

  /** A cut text ends in "…" after a prefix that stops at the last space, and fits in `maxLength`. */
  lemma TruncateCut(text: string, maxLength: int)
    requires |text| > maxLength >= 1
    ensures |Truncate(text, maxLength)| <= maxLength
    ensures exists k ::
      0 <= k < maxLength && Truncate(text, maxLength) == text[..k] + "…" &&
      ((text[k] == ' ' && ' ' !in text[k + 1..maxLength]) || (' ' !in text[..maxLength] && k == maxLength - 1))
  {
    var cut := text[..maxLength];
    var k := LastIndexOf(cut, ' ');
    var j := if k >= 0 then k else maxLength - 1;
    assert cut[..j] == text[..j];
    assert Truncate(text, maxLength) == text[..j] + "…";
    if k >= 0 {
      assert cut[k + 1..] == text[k + 1..maxLength];
    }
  }

  /** The summary length used when the page asks for one. */
  const SummaryLength := 160

  /** `getSummary(content, maxLength)`. */
  function Summary(content: string, maxLength: int): (r: string)
    ensures forall c :: c in r ==> c !in Markup
  {
    if content == [] then [] else FirstLineSummary(TrimmedLines(Split(content, '\n')), maxLength)
  }

  /** The first of the lines, cleaned and cut to the length; nothing when there is no line. */
  function FirstLineSummary(lines: seq<string>, maxLength: int): (r: string)
    ensures forall c :: c in r ==> c !in Markup
  {
    if lines == [] then [] else Truncate(Clean(lines[0]), maxLength)
  }

  /** A summary never exceeds a positive `maxLength`. */
  lemma SummaryFits(content: string, maxLength: int)
    requires maxLength >= 1
    ensures |Summary(content, maxLength)| <= maxLength
  {
    if content != [] {
      var lines := TrimmedLines(Split(content, '\n'));
      if lines != [] && |Clean(lines[0])| > maxLength {
        TruncateCut(Clean(lines[0]), maxLength);
      }
    }
  }

  /** Text made only of white space and line breaks leaves no lines. */
  lemma {:induction false} BlankLines(s: string)
    ensures NoLines(s) <==> AllSpace(s)
    decreases |s|
  {
    var k := IndexOf(s, '\n');
    if k >= 0 {
      BlankLines(s[k + 1..]);
      BlankLinesStep(s, k);
    } else {
      assert Split(s, '\n') == [s];
      NoLinesCons(s, []);
      assert [s] + [] == [s];
    }
  }

  /** The text gives no line to summarise. */
  predicate NoLines(s: string) {
    TrimmedLines(Split(s, '\n')) == []
  }

  predicate AllSpace(s: string) {
    forall i :: 0 <= i < |s| ==> IsSpace(s[i])
  }

  /** A text with a line break gives no line exactly when the text before it is blank and the text after it gives none. */
  lemma BlankLinesStep(s: string, k: nat)
    requires k < |s| && k == IndexOf(s, '\n')
    requires NoLines(s[k + 1..]) <==> AllSpace(s[k + 1..])
    ensures NoLines(s) <==> AllSpace(s)
  {
    var rest := s[k + 1..];
    SplitFirst(s, '\n', k);
    NoLinesCons(s[..k], Split(rest, '\n'));
    SpacesAround(s, k, rest);
  }

  /** A first piece and more pieces give no line exactly when neither does. */
  lemma NoLinesCons(a: string, pieces: seq<string>)
    ensures TrimmedLines([a] + pieces) == [] <==> AllSpace(a) && TrimmedLines(pieces) == []
  {
    assert ([a] + pieces)[1..] == pieces;
  }

  /** Text around a line break is all white space exactly when both sides are. */
  lemma SpacesAround(s: string, k: nat, rest: string)
    requires k < |s| && s[k] == '\n' && rest == s[k + 1..]
    ensures AllSpace(s) <==> AllSpace(s[..k]) && AllSpace(rest)
  {
    assert IsSpace(s[k]);
    forall i | 0 <= i < |s|
      ensures i < k ==> s[i] == s[..k][i]
      ensures k < i ==> s[i] == rest[i - k - 1]
    {
    }
  }

  /** Empty content, or content that is only white space and blank lines, has the empty summary. */
  lemma BlankSummary(content: string, maxLength: int)
    requires forall i :: 0 <= i < |content| ==> IsSpace(content[i])
    ensures Summary(content, maxLength) == []
  {
    BlankLines(content);
  }

  /** Cutting the text after its first line. */
  lemma FirstLineSplit(a: string, b: string)
    requires '\n' !in a
    ensures Split(a + "\n" + b, '\n') == [a] + Split(b, '\n')
  {
    var s := a + "\n" + b;
    assert IndexOf(s, '\n') == |a| by {
      assert s[|a|] == '\n';
      assert s[..|a|] == a;
    }
    assert s[..|a|] == a && s[|a| + 1..] == b;
  }

  /** Only the first line that is not blank is summarised: what follows it is ignored. */
  lemma FirstLineOnly(a: string, b: string, maxLength: int)
    requires '\n' !in a && Trim(a) != []
    ensures Summary(a + "\n" + b, maxLength) == Summary(a, maxLength)
  {
    FirstLineSplit(a, b);
    assert Split(a, '\n') == [a] by {
      assert IndexOf(a, '\n') < 0;
    }
    assert a != [];
  }

  /** A blank first line is skipped. */
  lemma BlankLineSkipped(a: string, b: string, maxLength: int)
    requires '\n' !in a && Trim(a) == []
    ensures Summary(a + "\n" + b, maxLength) == Summary(b, maxLength)
  {
    BlankFirstLine(a, b);
    if b == [] {
      EmptySplit(b);
    }
    SameLines(a + "\n" + b, b, maxLength);
  }

  lemma BlankFirstLine(a: string, b: string)
    requires '\n' !in a && Trim(a) == []
    ensures TrimmedLines(Split(a + "\n" + b, '\n')) == TrimmedLines(Split(b, '\n'))
  {
    FirstLineSplit(a, b);
    BlankPieceDropped(a, Split(b, '\n'));
  }

  /** Two texts with the same lines have the same summary. */
  lemma SameLines(c: string, b: string, maxLength: int)
    requires c != [] && TrimmedLines(Split(c, '\n')) == TrimmedLines(Split(b, '\n'))
    requires b == [] ==> TrimmedLines(Split(b, '\n')) == []
    ensures Summary(c, maxLength) == Summary(b, maxLength)
  {
  }

  /** The empty text is one empty piece, which gives no line. */
  lemma EmptySplit(b: string)
    requires b == []
    ensures TrimmedLines(Split(b, '\n')) == []
  {
    var none: seq<string> := [];
    assert Split(b, '\n') == [b] + none;
    BlankPieceDropped(b, none);
  }

  /** A piece that trims to nothing gives no line. */
  lemma BlankPieceDropped(a: string, pieces: seq<string>)
    requires Trim(a) == []
    ensures TrimmedLines([a] + pieces) == TrimmedLines(pieces)
  {
    assert ([a] + pieces)[1..] == pieces;
  }

  /** A first line that needs no cleaning and fits is the summary as it is. */
  lemma ShortLineKept(line: string, maxLength: int)
    requires '\n' !in line && line != [] && Trim(line) == line
    requires line[0] != '#' && '[' !in line && forall c :: c in line ==> c !in Markup
    requires |line| <= maxLength
    ensures Summary(line, maxLength) == line
  {
    assert Split(line, '\n') == [line] by {
      assert IndexOf(line, '\n') < 0;
    }
    RemoveCharsNone(line, Markup);
    ReplaceLinksPlain(line, []);
    assert line + [] == line;
  }

  // ---------------------------------------------------------------------------------------
  // "Load more" (client/src/pages/blogs.tsx:61-62, 110, 146-156)
  // ---------------------------------------------------------------------------------------

  /** `POSTS_PER_PAGE`. */
  const PostsPerPage := 5

  /** `posts.slice(0, visibleCount)`. */
  function VisibleOf<T>(posts: seq<T>, visibleCount: int): (shown: seq<T>)
    requires visibleCount >= 0
    ensures |shown| == Min(visibleCount, |posts|)
    ensures shown == posts[..|shown|]
  {
    posts[..SliceLength(|posts|, visibleCount)]
  }

  /** `visibleCount < posts.length`: the button is drawn. */
  predicate ShowsLoadMore<T>(posts: seq<T>, visibleCount: int) {
    visibleCount < |posts|
  }

  /** The button is drawn exactly while some post is hidden. */
  lemma LoadMoreWhileHidden<T>(posts: seq<T>, visibleCount: int)
    requires visibleCount >= 0
    ensures ShowsLoadMore(posts, visibleCount) <==> |VisibleOf(posts, visibleCount)| < |posts|
  {
  }

  /** The number of presses after which every one of `n` posts is shown. */
  function PressesToShowAll(n: nat): (k: nat)
    ensures PostsPerPage * (k + 1) >= n
    ensures k > 0 ==> PostsPerPage * k < n
  {
    if n <= PostsPerPage then 0 else (n - 1) / PostsPerPage
  }

  /** The list a reader sees: the posts and how many of them are visible. */
  class Pager {
    const posts: seq<BlogLoader.Post>
    var visibleCount: int

    /** The count is a positive multiple of five. */
    predicate Valid()
      reads this
    {
      visibleCount >= PostsPerPage && visibleCount % PostsPerPage == 0
    }

    function Visible(): seq<BlogLoader.Post>
      reads this
      requires Valid()
    {
      VisibleOf(posts, visibleCount)
    }

    predicate LoadMoreShown()
      reads this
    {
      ShowsLoadMore(posts, visibleCount)
    }

    constructor (posts: seq<BlogLoader.Post>)
      ensures this.posts == posts && visibleCount == PostsPerPage && Valid()
      ensures Visible() == posts[..Min(PostsPerPage, |posts|)]
    {
      this.posts := posts;
      visibleCount := PostsPerPage;
    }

    /** `setVisibleCount(v => v + POSTS_PER_PAGE)`: five posts more, the shown ones stay first. */
    method LoadMore()
      requires Valid()
      modifies this
      ensures visibleCount == old(visibleCount) + PostsPerPage && Valid()
      ensures |Visible()| == Min(old(visibleCount) + PostsPerPage, |posts|)
      ensures old(Visible()) == Visible()[..|old(Visible())|]
    {
      visibleCount := visibleCount + PostsPerPage;
    }
  }
}
