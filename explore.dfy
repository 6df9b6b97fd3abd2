/**
 * The public list src/pages/Explore.tsx: the case-insensitive search over
 * title, content and author name, the card's preview and cover, and the
 * page's fetch and rendering.
 */
module Explore {
  import opened Js
  import opened Text
  import Lists
  import opened Blogs
  import ErrorHandler

  // ---------------------------------------------------------------- search

  /** The author's name, when the post has an author with a non-empty name
      (`blog.authorId && blog.authorId.name`). */
  function AuthorName(b: Blog): Option<string> {
    if b.author.Some? && b.author.value.name != [] then Some(b.author.value.name) else None
  }

  /** The search test: the lower-cased term occurs in the lower-cased title,
      in the lower-cased content, or in the lower-cased author name; that
      is, the term occurs in one of the three up to the case of its letters. */
  function Matches(b: Blog, term: string): (m: bool)
    ensures m <==> || OccursIgnoringCase(b.title, term)
                   || OccursIgnoringCase(b.content, term)
                   || (AuthorName(b).Some? && OccursIgnoringCase(AuthorName(b).value, term))
  {
    IncludesLoweredIff(b.title, term);
    IncludesLoweredIff(b.content, term);
    var name := if AuthorName(b).Some? then AuthorName(b).value else [];
    IncludesLoweredIff(name, term);
    var t := ToLower(term);
    || Includes(ToLower(b.title), t)
    || Includes(ToLower(b.content), t)
    || (AuthorName(b).Some? && Includes(ToLower(AuthorName(b).value), t))
  }

  function MatchesTerm(term: string): Blog -> bool {
    (b: Blog) => Matches(b, term)
  }

  /** `filteredBlogs`: the posts that match the search term. */
  function FilteredBlogs(blogs: seq<Blog>, term: string): (shown: seq<Blog>)
    ensures forall b :: b in shown <==> b in blogs && Matches(b, term)
    ensures |shown| <= |blogs|
  {
    Lists.Filter(blogs, MatchesTerm(term))
  }

  /** The posts shown keep the order in which the server sent them. */
  lemma FilteredInOrder(blogs: seq<Blog>, term: string)
    ensures Lists.IsSubsequence(FilteredBlogs(blogs, term), blogs)
  {
    Lists.FilterIsSubsequence(blogs, MatchesTerm(term));
  }

  /** An empty search shows every post. */
  lemma EmptyTermShowsAll(blogs: seq<Blog>)
    ensures FilteredBlogs(blogs, []) == blogs
  {
    forall b | b in blogs ensures MatchesTerm([])(b) {
      IncludesEmpty(ToLower(b.title));
    }
    Lists.FilterKeepsAll(blogs, MatchesTerm([]));
  }

  /** The search ignores the case of the term. */
  lemma MatchIgnoresTermCase(b: Blog, term: string)
    ensures Matches(b, ToLower(term)) <==> Matches(b, term)
  {
    ToLowerIdempotent(term);
  }

  /** A post whose title, content or author name holds the term, exactly as
      typed, is found. */
  lemma LiteralOccurrenceMatches(b: Blog, term: string)
    ensures Includes(b.title, term) ==> Matches(b, term)
    ensures Includes(b.content, term) ==> Matches(b, term)
    ensures AuthorName(b).Some? && Includes(AuthorName(b).value, term) ==> Matches(b, term)
  {
    IncludesLowered(b.title, term);
    IncludesLowered(b.content, term);
    if AuthorName(b).Some? {
      IncludesLowered(AuthorName(b).value, term);
    }
  }

  /** "Showing n of m" is shown exactly when some post does not match. */
  lemma ShowingNoteIff(blogs: seq<Blog>, term: string)
    ensures |FilteredBlogs(blogs, term)| < |blogs| <==> exists b :: b in blogs && !Matches(b, term)
  {
    Lists.FilterShorterIff(blogs, MatchesTerm(term));
  }

  // ---------------------------------------------------------------- card

  const PreviewLength := 120

  /** `contentPreview` of the text extracted from the content: its first
      120 characters followed by `...` when it is longer, else all of it. */
  function ContentPreview(stripped: string): (preview: string)
    ensures |stripped| <= PreviewLength ==> preview == stripped
    ensures |stripped| > PreviewLength ==> preview == stripped[..PreviewLength] + "..."
    ensures |preview| <= PreviewLength + 3
  {
    Truncate(stripped, PreviewLength)
  }

  /** The card's cover: the post's picture, or a placeholder with the
      title's first character (nothing for an empty title). */
  datatype Cover = Picture(src: string) | Placeholder(initial: string)

  function CoverOf(b: Blog): (c: Cover)
    ensures c.Picture? <==> b.image.Some? && StartsWith(b.image.value, "http")
    ensures c.Picture? ==> c.src == b.image.value
    ensures c.Placeholder? ==> |c.initial| <= 1 && StartsWith(b.title, c.initial)
    ensures c.Placeholder? && b.title != [] ==> c.initial == [b.title[0]]
  {
    if Present(b.image) && StartsWith(b.image.value, "http") then Picture(b.image.value)
    else Placeholder(if b.title == [] then [] else [b.title[0]])
  }

  // ---------------------------------------------------------------- page

  /** A card reads `blog.authorId.name` without a guard, so a post without
      an author makes it throw. */
  predicate CardThrows(b: Blog) {
    b.author.None?
  }

  /** Some card of `shown` throws while rendering. */
  predicate SomeCardThrows(shown: seq<Blog>) {
    exists b :: b in shown && CardThrows(b)
  }

  /** The page's renderings. `Crash` is a `TypeError` while rendering:
      thrown by `blogs.filter` when the list is `undefined`, or by a card
      whose post has no author. */
  datatype ExploreView =
    | Crash
    | Failed(message: string)
    | Loading
    | Cards(shown: seq<Blog>, showingNote: bool)
    | NoResults(offerClear: bool)

  class ExplorePage {
    /** `None` stands for `undefined`, stored when a body lacks `data.data`. */
    var blogs: Option<seq<Blog>>
    var searchTerm: string
    var isLoading: bool
    var error: Option<string>

    /** No handler ever sets `error`. */
    predicate Valid()
      reads this
    {
      error == None
    }

    constructor()
      ensures blogs == Some([]) && searchTerm == [] && isLoading && error == None
      ensures Valid()
    {
      blogs := Some([]);
      searchTerm := [];
      isLoading := true;
      error := None;
    }

    /** The rendering: the filter runs first (and throws on `undefined`),
        then the error view, the spinner, the cards (where a post without an
        author throws) or the empty result. */
    function View(): (v: ExploreView)
      reads this
      ensures v == Crash <==>
                blogs.None? ||
                (!Present(error) && !isLoading && SomeCardThrows(FilteredBlogs(blogs.value, searchTerm)))
      ensures v.Failed? <==> blogs.Some? && Present(error)
      ensures v == Loading <==> blogs.Some? && !Present(error) && isLoading
      ensures v.Cards? ==> v.shown == FilteredBlogs(blogs.value, searchTerm) && v.shown != []
      ensures v.Cards? ==> forall b :: b in v.shown ==> b.author.Some?
      ensures v.Cards? ==> (v.showingNote <==> |v.shown| < |blogs.value|)
      ensures v.NoResults? ==> blogs.Some? && !isLoading && FilteredBlogs(blogs.value, searchTerm) == []
      ensures v.NoResults? ==> (v.offerClear <==> searchTerm != [])
    {
      if blogs.None? then Crash
      else
        var shown := FilteredBlogs(blogs.value, searchTerm);
        if Present(error) then Failed(error.value)
        else if isLoading then Loading
        else if shown != [] then
          if SomeCardThrows(shown) then Crash else Cards(shown, |shown| < |blogs.value|)
        else NoResults(searchTerm != [])
    }

    /** `fetchBlogs` with the settled request. A body is stored as its
        `data.data` (possibly `undefined`); a response without a body makes
        reading `data.data` throw; a throw empties the list. Loading ends on
        every path. */
    method FetchBlogs(outcome: Outcome<Response<Option<seq<Blog>>>>) returns (effects: seq<Effect>)
      modifies this
      ensures !isLoading && searchTerm == old(searchTerm) && error == old(error)
      ensures outcome.Resolved? && outcome.value.data.Body? ==>
                blogs == outcome.value.data.body && effects == []
      ensures outcome.Resolved? && outcome.value.data.NoBody? ==>
                blogs == Some([]) && effects == [ToastError(ErrorHandler.HandleError(TypeErrorReading("data")))]
      ensures outcome.Rejected? ==>
                blogs == Some([]) && effects == [ToastError(ErrorHandler.HandleError(outcome.error))]
    {
      var thrown: Option<Thrown> := None;
      match outcome {
        case Resolved(response) =>
          if response.data.Body? {
            blogs := response.data.body;
            isLoading := false;
          } else {
            thrown := Some(TypeErrorReading("data"));
          }
        case Rejected(e) =>
          thrown := Some(e);
      }
      effects := [];
      if thrown.Some? {
        effects := [ToastError(ErrorHandler.HandleError(thrown.value))];
        isLoading := false;
        blogs := Some([]);
      }
    }

    /** The search box's `onChange`, and the "clear search" button with
        the empty string. */
    method SetSearchTerm(term: string)
      modifies this
      ensures searchTerm == term
      ensures blogs == old(blogs) && isLoading == old(isLoading) && error == old(error)
    {
      searchTerm := term;
    }
  }

  /** The error view is never shown: nothing sets `error`. */
  lemma ErrorViewUnreachable(page: ExplorePage)
    requires page.Valid()
    ensures !page.View().Failed?
  {
  }

  /** With an empty search every post gets a card, so a single post without
      an author makes the page throw once loading is over. */
  lemma AuthorlessPostCrashes(page: ExplorePage, b: Blog)
    requires page.Valid() && !page.isLoading && page.searchTerm == []
    requires page.blogs.Some? && b in page.blogs.value && b.author.None?
    ensures page.View() == Crash
  {
    EmptyTermShowsAll(page.blogs.value);
  }

  /** After a failed fetch the page shows the empty result, with the clear
      button exactly when a term has been typed. */
  lemma FailedFetchShowsNoResults(page: ExplorePage)
    requires page.Valid() && page.blogs == Some([]) && !page.isLoading
    ensures page.View() == NoResults(page.searchTerm != [])
  {
  }
}
