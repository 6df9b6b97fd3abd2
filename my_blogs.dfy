/**
 * The author's own list, src/pages/MyBlogs.tsx: loading and ordering the
 * list newest first, deleting a post, and the excerpt shown on each card.
 */
module MyBlogs {
  import opened Js
  import opened Text
  import Lists
  import opened Blogs
  import ErrorHandler

  // ---------------------------------------------------------------- order

  /** The sort key: the creation time, or 0 when the date is missing. */
  function CreatedKey(b: Blog): int {
    if b.createdAt.Some? then b.createdAt.value else 0
  }

  /** No post comes before a newer one. */
  predicate NewestFirst(bs: seq<Blog>) {
    forall i, j :: 0 <= i < j < |bs| ==> CreatedKey(bs[i]) >= CreatedKey(bs[j])
  }

  /** Puts `b` after every post at least as new as it. */
  function Insert(b: Blog, sorted: seq<Blog>): (r: seq<Blog>)
    ensures multiset(r) == multiset(sorted) + multiset{b}
    ensures NewestFirst(sorted) ==> NewestFirst(r)
  {
    if sorted == [] then [b]
    else if CreatedKey(sorted[0]) >= CreatedKey(b) then
      var rest := Insert(b, sorted[1..]);
      assert sorted == [sorted[0]] + sorted[1..];
      InsertHeadNewest(sorted[0], b, sorted[1..], rest);
      [sorted[0]] + rest
    else
      assert NewestFirst(sorted) ==> NewestFirst([b] + sorted) by {
        if NewestFirst(sorted) {
          ConsNewest(b, sorted);
        }
      }
      [b] + sorted
  }

  /** The head put back in front of the rest with `b` inserted. */
  lemma InsertHeadNewest(head: Blog, b: Blog, tail: seq<Blog>, rest: seq<Blog>)
    requires CreatedKey(head) >= CreatedKey(b)
    requires multiset(rest) == multiset(tail) + multiset{b}
    requires NewestFirst([head] + tail) ==> NewestFirst(tail)
    requires NewestFirst(tail) ==> NewestFirst(rest)
    ensures NewestFirst([head] + tail) ==> NewestFirst([head] + rest)
  {
    if NewestFirst([head] + tail) {
      forall x | x in rest ensures CreatedKey(head) >= CreatedKey(x) {
        assert x in multiset(rest);
        assert x in multiset(tail) || x == b;
        if x != b {
          assert x in tail;
          var k :| 0 <= k < |tail| && tail[k] == x;
          var whole := [head] + tail;
          assert whole[0] == head && whole[k + 1] == x;
          assert CreatedKey(whole[0]) >= CreatedKey(whole[k + 1]);
        }
      }
      ConsNewest(head, rest);
    }
  }

  /** A post at least as new as every post of a sorted list goes first. */
  lemma ConsNewest(b: Blog, s: seq<Blog>)
    requires NewestFirst(s)
    requires forall x :: x in s ==> CreatedKey(b) >= CreatedKey(x)
    ensures NewestFirst([b] + s)
  {
    var r := [b] + s;
    forall i, j | 0 <= i < j < |r| ensures CreatedKey(r[i]) >= CreatedKey(r[j]) {
      if i == 0 {
        assert r[j] == s[j - 1] && r[j] in s;
      } else {
        assert r[i] == s[i - 1] && r[j] == s[j - 1];
      }
    }
  }

  /** `[...data].sort((a, b) => dateB - dateA)`: newest first; the sort is
      stable (ECMAScript 2019), so posts of equal date keep their order.
      Insertion of each post, from the first to the last, gives that order. */
  function SortNewestFirst(xs: seq<Blog>): (r: seq<Blog>)
    ensures multiset(r) == multiset(xs)
    ensures NewestFirst(r)
    decreases |xs|
  {
    if xs == [] then []
    else
      assert xs == xs[..|xs| - 1] + [xs[|xs| - 1]];
      Insert(xs[|xs| - 1], SortNewestFirst(xs[..|xs| - 1]))
  }

  /** The posts dated `k`. */
  function DatedAt(k: int): Blog -> bool {
    (b: Blog) => CreatedKey(b) == k
  }

  /** The tail of a newest-first list is newest first. */
  lemma NewestFirstTail(s: seq<Blog>)
    requires s != [] && NewestFirst(s)
    ensures NewestFirst(s[1..])
  {
    var t := s[1..];
    forall i, j | 0 <= i < j < |t| ensures CreatedKey(t[i]) >= CreatedKey(t[j]) {
      assert t[i] == s[i + 1] && t[j] == s[j + 1];
    }
  }

  /** Inserting into a sorted list puts `b` after every post of its date. */
  lemma {:induction false} InsertStable(b: Blog, s: seq<Blog>, k: int)
    requires NewestFirst(s)
    ensures Lists.Filter(Insert(b, s), DatedAt(k)) ==
              Lists.Filter(s, DatedAt(k)) + (if CreatedKey(b) == k then [b] else [])
    decreases |s|
  {
    var p := DatedAt(k);
    if s == [] {
      FilterSingle(b, p);
    } else if CreatedKey(s[0]) >= CreatedKey(b) {
      var rest := Insert(b, s[1..]);
      assert Insert(b, s) == [s[0]] + rest;
      NewestFirstTail(s);
      InsertStable(b, s[1..], k);
      Lists.FilterConsStep(s[0], s[1..], rest, p, if CreatedKey(b) == k then [b] else []);
      Lists.HeadTail(s);
    } else {
      assert Insert(b, s) == [b] + s;
      InsertedFirstStable(b, s, k);
    }
  }

  /** A post newer than the head of a sorted list goes in front, and no
      post of the list shares its date. */
  lemma InsertedFirstStable(b: Blog, s: seq<Blog>, k: int)
    requires s != [] && NewestFirst(s) && CreatedKey(s[0]) < CreatedKey(b)
    ensures Lists.Filter([b] + s, DatedAt(k)) ==
              Lists.Filter(s, DatedAt(k)) + (if CreatedKey(b) == k then [b] else [])
  {
    var p := DatedAt(k);
    Lists.FilterAppend([b], s, p);
    FilterSingle(b, p);
    if CreatedKey(b) == k {
      forall x | x in s ensures !p(x) {
        var i :| 0 <= i < |s| && s[i] == x;
        assert CreatedKey(s[0]) >= CreatedKey(s[i]);
      }
      Lists.FilterKeepsNone(s, p);
    }
  }

  lemma FilterSingle(b: Blog, p: Blog -> bool)
    ensures Lists.Filter([b], p) == if p(b) then [b] else []
  {
    assert [b][1..] == [];
  }

  /** Stability: the posts of any one date appear in the sorted list in the
      order the server sent them. */
  lemma {:induction false} SortStable(xs: seq<Blog>, k: int)
    ensures Lists.Filter(SortNewestFirst(xs), DatedAt(k)) == Lists.Filter(xs, DatedAt(k))
    decreases |xs|
  {
    if xs != [] {
      var init, last := xs[..|xs| - 1], xs[|xs| - 1];
      var p := DatedAt(k);
      var sorted := SortNewestFirst(init);
      assert SortNewestFirst(xs) == Insert(last, sorted);
      SortStable(init, k);
      InsertStable(last, sorted, k);
      Lists.InitLast(xs);
      Lists.FilterAppend(init, [last], p);
      FilterSingle(last, p);
    }
  }

  // ---------------------------------------------------------------- delete

  /** The test `blog._id !== id`. */
  function OtherThan(id: string): Blog -> bool {
    (b: Blog) => b.id != Some(id)
  }

  /** `blogs.filter(blog => blog._id !== id)`: the posts with that id go, a
      post without an id stays. */
  function DeleteById(blogs: seq<Blog>, id: string): (r: seq<Blog>)
    ensures forall b :: b in r <==> b in blogs && b.id != Some(id)
    ensures forall b :: multiset(r)[b] == if b.id != Some(id) then multiset(blogs)[b] else 0
  {
    Lists.FilterCounts(blogs, OtherThan(id));
    Lists.Filter(blogs, OtherThan(id))
  }

  /** The other posts keep their order, and deleting an id no post carries
      changes nothing. */
  lemma DeleteKeepsOthers(blogs: seq<Blog>, id: string)
    ensures Lists.IsSubsequence(DeleteById(blogs, id), blogs)
    ensures (forall b :: b in blogs ==> b.id != Some(id)) ==> DeleteById(blogs, id) == blogs
  {
    Lists.FilterIsSubsequence(blogs, OtherThan(id));
    if forall b :: b in blogs ==> b.id != Some(id) {
      Lists.FilterKeepsAll(blogs, OtherThan(id));
    }
  }

  /** The delete button: `blog._id && handleDelete(blog._id)` asks for a
      deletion only for a post with a non-empty id. */
  function DeleteTarget(b: Blog): (id: Option<string>)
    ensures id.Some? <==> Present(b.id)
    ensures id.Some? ==> b.id == id
  {
    if Present(b.id) then b.id else None
  }

  // ---------------------------------------------------------------- excerpt

  const ExcerptLength := 100

  /** `createExcerpt(content, length)`: every `<...>` with something inside
      is removed, and the text is cut to `length` characters plus `...`
      when it is longer. */
  function CreateExcerpt(content: string, length: nat): (excerpt: string)
    ensures var plain := ReplaceTags(content, "", 1);
            && (|plain| <= length ==> excerpt == plain)
            && (|plain| > length ==> excerpt == plain[..length] + "...")
    ensures NoTags(ReplaceTags(content, "", 1), 1)
    ensures |excerpt| <= length + 3
  {
    ReplaceTagsLeavesNone(content, "", 1);
    Truncate(ReplaceTags(content, "", 1), length)
  }

  /** Text without `<` is its own excerpt when it is short enough. */
  lemma ShortPlainTextUnchanged(content: string, length: nat)
    requires '<' !in content && |content| <= length
    ensures CreateExcerpt(content, length) == content
  {
    ReplaceTagsNoOpen(content, "", 1);
  }

  // ---------------------------------------------------------------- page state

  class MyBlogsPage {
    var blogs: seq<Blog>

    constructor()
      ensures blogs == []
    {
      blogs := [];
    }

    /** The fetch effect for the signed-in user's id: no id, no request; a
        body carrying `data.data` replaces the list by it, newest first; a
        thrown request goes to the error handler and keeps the list. */
    method Load(userId: Option<string>, outcome: Outcome<Response<Option<seq<Blog>>>>)
      returns (requested: bool, effects: seq<Effect>)
      modifies this
      ensures requested <==> Present(userId)
      ensures !requested ==> blogs == old(blogs) && effects == []
      ensures requested && outcome.Resolved? && outcome.value.data.Body? && outcome.value.data.body.Some? ==>
                blogs == SortNewestFirst(outcome.value.data.body.value) && effects == []
      ensures (requested && outcome.Resolved? && !(outcome.value.data.Body? && outcome.value.data.body.Some?)) ==>
                blogs == old(blogs) && effects == []
      ensures requested && outcome.Rejected? ==>
                blogs == old(blogs) && effects == [ToastError(ErrorHandler.HandleError(outcome.error))]
    {
      effects := [];
      if !Present(userId) {
        return false, effects;
      }
      requested := true;
      match outcome {
        case Resolved(response) =>
          if response.data.Body? && response.data.body.Some? {
            blogs := SortNewestFirst(response.data.body.value);
          }
        case Rejected(e) =>
          effects := [ToastError(ErrorHandler.HandleError(e))];
      }
    }

    /** `handleDelete(id)` with the settled request: status 200 removes the
        posts with that id; any other status, or a thrown request, keeps
        the list. */
    method HandleDelete(id: string, outcome: Outcome<Response<JsValue>>) returns (effects: seq<Effect>)
      modifies this
      ensures outcome.Resolved? && outcome.value.status == 200 ==>
                blogs == DeleteById(old(blogs), id) && effects == [ToastSuccess("Blog deleted successfully")]
      ensures outcome.Resolved? && outcome.value.status != 200 ==>
                blogs == old(blogs) && effects == [ToastError(Str("Failed to delete blog"))]
      ensures outcome.Rejected? ==>
                blogs == old(blogs) && effects == [ToastError(ErrorHandler.HandleError(outcome.error))]
    {
      match outcome {
        case Resolved(response) =>
          if response.status == 200 {
            blogs := DeleteById(blogs, id);
            effects := [ToastSuccess("Blog deleted successfully")];
          } else {
            effects := [ToastError(Str("Failed to delete blog"))];
          }
        case Rejected(e) =>
          effects := [ToastError(ErrorHandler.HandleError(e))];
      }
    }
  }
}
