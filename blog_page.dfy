/**
 * The single-post page src/pages/BlogPage.tsx: how plain-text content is
 * turned into paragraphs, which of the three views is shown, and when the
 * "Updated on" line appears.
 */
module BlogPage {
  import opened Js
  import opened Text
  import Lists
  import Blogs
  import ErrorHandler

  // ---------------------------------------------------------------- content

  /** `'<p>' + line + '</p>'`. */
  function Paragraph(line: string): string {
    "<p>" + line + "</p>"
  }

  /** `lines.map(p => `<p>${p}</p>`).join('')`. */
  function Paragraphs(lines: seq<string>): string {
    if lines == [] then [] else Paragraph(lines[0]) + Paragraphs(lines[1..])
  }

  /** The test `p.trim() !== ''` that keeps a line. */
  predicate NotBlankLine(line: string) {
    Trim(line) != []
  }

  /** The lines of `content` that hold more than white space, in order:
      every copy of a non-blank line is kept and no blank line is. */
  function KeptLines(content: string): (lines: seq<string>)
    ensures forall l :: l in lines <==> l in SplitOn(content, '\n') && NotBlankLine(l)
    ensures forall l :: multiset(lines)[l] == if NotBlankLine(l) then multiset(SplitOn(content, '\n'))[l] else 0
  {
    Lists.FilterCounts(SplitOn(content, '\n'), NotBlankLine);
    Lists.Filter(SplitOn(content, '\n'), NotBlankLine)
  }

  /** Content that is already HTML: it holds a `<p>` or a `<div>`. */
  predicate LooksLikeHtml(content: string) {
    Includes(content, "<p>") || Includes(content, "<div>")
  }

  /** `formatBlogContent`: empty content gives the empty string, HTML is
      passed through, and plain text becomes one paragraph per non-blank
      line. */
  function FormatBlogContent(content: string): (html: string)
    ensures content == [] ==> html == []
    ensures content != [] && LooksLikeHtml(content) ==> html == content
    ensures content != [] && !LooksLikeHtml(content) ==> html == Paragraphs(KeptLines(content))
  {
    if content == [] then []
    else if LooksLikeHtml(content) then content
    else Paragraphs(KeptLines(content))
  }

  /** Plain text keeps its non-blank lines in their original order. */
  lemma PlainTextKeepsOrder(content: string)
    ensures Lists.IsSubsequence(KeptLines(content), SplitOn(content, '\n'))
  {
    Lists.FilterIsSubsequence(SplitOn(content, '\n'), NotBlankLine);
  }

  /** Every kept line is a whole line: it holds no line break, and it holds
      more than white space. */
  lemma KeptLinesAreLines(content: string)
    ensures forall l :: l in KeptLines(content) ==> '\n' !in l && NotBlankLine(l)
  {
    var pieces := SplitOn(content, '\n');
    var kept := KeptLines(content);
    forall l | l in kept ensures '\n' !in l && NotBlankLine(l) {
      PieceHasNoBreak(pieces, l);
    }
  }

  lemma PieceHasNoBreak(pieces: seq<string>, l: string)
    requires forall k :: 0 <= k < |pieces| ==> '\n' !in pieces[k]
    requires l in pieces
    ensures '\n' !in l
  {
    var k :| 0 <= k < |pieces| && pieces[k] == l;
  }

  /** The pieces of a string of white space are white space. */
  lemma {:induction false} SplitBlank(s: string)
    requires IsBlank(s)
    ensures forall l :: l in SplitOn(s, '\n') ==> IsBlank(l)
    decreases |s|
  {
    var i := FindChar(s, '\n');
    if i != -1 {
      assert IsBlank(s[..i]);
      assert IsBlank(s[i + 1..]);
      SplitBlank(s[i + 1..]);
    }
  }

  /** Text taken for HTML holds a `<`. */
  lemma HtmlHasAngle(s: string)
    ensures LooksLikeHtml(s) ==> '<' in s
  {
    var k := IndexOf(s, "<p>");
    if k != -1 {
      assert s[k..k + 3] == "<p>";
      assert s[k] == '<';
    }
    var j := IndexOf(s, "<div>");
    if j != -1 {
      assert s[j..j + 5] == "<div>";
      assert s[j] == '<';
    }
  }

  /** No line of a string of white space is kept. */
  lemma BlankKeepsNoLine(content: string)
    requires IsBlank(content)
    ensures KeptLines(content) == []
  {
    var pieces := SplitOn(content, '\n');
    SplitBlank(content);
    forall l | l in pieces ensures !NotBlankLine(l) {
      TrimEmptyIffBlank(l);
    }
    Lists.FilterKeepsNone(pieces, NotBlankLine);
  }

  /** Content made of white space only (blank lines and the line breaks
      between them) formats to the empty string. */
  lemma BlankLinesFormatToEmpty(content: string)
    requires IsBlank(content)
    ensures FormatBlogContent(content) == []
  {
    BlankKeepsNoLine(content);
    assert forall k :: 0 <= k < |content| ==> content[k] != '<';
    HtmlHasAngle(content);
  }

  /** A non-empty run of paragraphs starts with `<p>`. */
  lemma ParagraphsLookLikeHtml(lines: seq<string>)
    requires lines != []
    ensures LooksLikeHtml(Paragraphs(lines))
  {
    var html := Paragraphs(lines);
    assert html == "<p>" + (lines[0] + "</p>" + Paragraphs(lines[1..]));
    assert OccursAt(html, "<p>", 0) by { assert html[0..3] == "<p>"; }
  }

  /** Formatting twice is formatting once: a non-empty result holds `<p>`
      (or was HTML already) and is passed through. */
  lemma FormatIdempotent(content: string)
    ensures FormatBlogContent(FormatBlogContent(content)) == FormatBlogContent(content)
  {
    if content != [] && !LooksLikeHtml(content) && KeptLines(content) != [] {
      ParagraphsLookLikeHtml(KeptLines(content));
    }
  }

  // ---------------------------------------------------------------- view

  /** "Updated on" is shown when there is an update date different from the
      creation date (a missing creation date differs from every date). */
  function ShowUpdated(blog: Blogs.Blog): (shown: bool)
    ensures shown ==> blog.updatedAt.Some?
    ensures blog.updatedAt.Some? && blog.createdAt.None? ==> shown
    ensures blog.updatedAt.Some? && blog.createdAt.Some? ==> (shown <==> blog.updatedAt.value != blog.createdAt.value)
  {
    blog.updatedAt.Some? && blog.updatedAt != blog.createdAt
  }

  /** The three renderings of the page. */
  datatype View = Skeleton | NotFound | Post(blog: Blogs.Blog)

  const NoBlogData := "No blog data found"

  /** The page's state: `loading` starts true, `blog` starts null. */
  class BlogPageState {
    var loading: bool
    var blog: Option<Blogs.Blog>

    constructor()
      ensures loading && blog == None
    {
      loading := true;
      blog := None;
    }

    /** The rendering: the skeleton while loading, "not found" when loading
        is over without a blog, the post otherwise. */
    function View(): (v: View)
      reads this
      ensures v == Skeleton <==> loading
      ensures v == NotFound <==> !loading && blog.None?
      ensures v.Post? ==> !loading && blog == Some(v.blog)
    {
      if loading then Skeleton
      else if blog.None? then NotFound
      else Post(blog.value)
    }

    /** `fetchBlogDetails` for the route parameter `blogId`, with the
        settled request: without an id nothing happens (and the skeleton
        stays); a body without `data.data` throws "No blog data found"; the
        `finally` ends loading on every path that fetched. */
    method FetchBlogDetails(blogId: Option<string>, outcome: Outcome<Response<Option<Blogs.Blog>>>)
      returns (requested: bool, effects: seq<Effect>)
      modifies this
      ensures requested <==> Present(blogId)
      ensures !requested ==> loading == old(loading) && blog == old(blog) && effects == []
      ensures requested ==> !loading
      ensures requested && outcome.Resolved? && outcome.value.data.Body? && outcome.value.data.body.Some? ==>
                blog == outcome.value.data.body && effects == []
      ensures (requested && outcome.Resolved? && !(outcome.value.data.Body? && outcome.value.data.body.Some?)) ==>
                blog == old(blog) &&
                effects == [ToastError(ErrorHandler.HandleError(Thrown(Undefined, Str(NoBlogData))))]
      ensures requested && outcome.Rejected? ==>
                blog == old(blog) && effects == [ToastError(ErrorHandler.HandleError(outcome.error))]
    {
      effects := [];
      if !Present(blogId) {
        return false, effects;
      }
      requested := true;
      loading := true;
      var thrown: Option<Thrown> := None;
      match outcome {
        case Resolved(response) =>
          if response.data.Body? && response.data.body.Some? {
            blog := response.data.body;
          } else {
            thrown := Some(Thrown(Undefined, Str(NoBlogData)));
          }
        case Rejected(e) =>
          thrown := Some(e);
      }
      if thrown.Some? {
        effects := effects + [ToastError(ErrorHandler.HandleError(thrown.value))];
      }
      loading := false;
    }
  }

  /** The error thrown for a body without a blog reaches the toast as its
      own message. */
  lemma NoBlogDataToast()
    ensures ErrorHandler.HandleError(Thrown(Undefined, Str(NoBlogData))) == Str(NoBlogData)
  {
  }
}
