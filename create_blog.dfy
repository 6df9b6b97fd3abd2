/**
 * The authoring page src/pages/CreateBlog.tsx: the tag list, the word count
 * and reading time derived from the editor's HTML, the cover image, the
 * preview switch, and the submission (payload and `isSubmitting` flag).
 * The editor itself is external: its HTML arrives as a string.
 */
module CreateBlog {
  import opened Js
  import opened Text
  import Lists
  import Json
  import Validation
  import ErrorHandler

  // ---------------------------------------------------------------- word count

  /** The first position of `s` holding white space, or `|s|`. */
  function FirstSpace(s: string): (i: nat)
    ensures i <= |s|
    ensures forall k :: 0 <= k < i ==> !IsSpace(s[k])
    ensures i < |s| ==> IsSpace(s[i])
  {
    if s == [] || IsSpace(s[0]) then 0 else 1 + FirstSpace(s[1..])
  }

  /** `s.split(/\s+/)`: the pieces between maximal runs of white space; a
      leading or trailing run yields an empty first or last piece. */
  function SplitSpaces(s: string): (pieces: seq<string>)
    ensures |pieces| >= 1
    decreases |s|
  {
    var i := FirstSpace(s);
    if i == |s| then [s]
    else [s[..i]] + SplitSpaces(s[SpaceRunEnd(s, i)..])
  }

  predicate NonEmpty(w: string) { |w| > 0 }

  /** `text.split(/\s+/).filter(word => word.length > 0)`. */
  function Words(text: string): seq<string> {
    Lists.Filter(SplitSpaces(text), NonEmpty)
  }

  /** The count shown under the editor: every `<...>` run becomes a space,
      then the words are counted. */
  function WordCount(html: string): (n: nat)
    ensures n == WordStarts(ReplaceTags(html, " ", 0), true)
  {
    WordsCountStarts(ReplaceTags(html, " ", 0));
    |Words(ReplaceTags(html, " ", 0))|
  }

  /** An independent count of words: the number of positions holding a
      character that is not white space and that follow white space or the
      start (`prevSpace` says whether the position before `s` is a space). */
  function WordStarts(s: string, prevSpace: bool): nat {
    if s == [] then 0
    else (if prevSpace && !IsSpace(s[0]) then 1 else 0) + WordStarts(s[1..], IsSpace(s[0]))
  }

  lemma {:induction false} WordStartsAppend(a: string, b: string, prevSpace: bool)
    ensures WordStarts(a + b, prevSpace) ==
              WordStarts(a, prevSpace) + WordStarts(b, if a == [] then prevSpace else IsSpace(a[|a| - 1]))
    decreases |a|
  {
    if a == [] {
      assert a + b == b;
    } else {
      assert (a + b)[0] == a[0];
      assert (a + b)[1..] == a[1..] + b;
      WordStartsAppend(a[1..], b, IsSpace(a[0]));
    }
  }

  /** A piece without white space starts one word if it is not empty, and
      none if it continues a word. */
  lemma {:induction false} WordStartsOfPiece(p: string, prevSpace: bool)
    requires forall k :: 0 <= k < |p| ==> !IsSpace(p[k])
    ensures WordStarts(p, prevSpace) == if p != [] && prevSpace then 1 else 0
    decreases |p|
  {
    if p != [] {
      WordStartsOfPiece(p[1..], false);
    }
  }

  /** After a non-empty run of white space the next character starts afresh. */
  lemma {:induction false} WordStartsAfterRun(w: string, u: string, prevSpace: bool)
    requires w != [] && IsBlank(w)
    ensures WordStarts(w + u, prevSpace) == WordStarts(u, true)
    decreases |w|
  {
    assert (w + u)[1..] == w[1..] + u;
    if |w| > 1 {
      WordStartsAfterRun(w[1..], u, true);
    } else {
      assert w[1..] + u == u;
    }
  }

  /** One step of the split: the piece before the first run of white space,
      then the split of what follows the run. */
  lemma WordsStep(s: string, i: nat, j: nat)
    requires i == FirstSpace(s) < |s| && j == SpaceRunEnd(s, i)
    ensures |Words(s)| == (if i > 0 then 1 else 0) + |Words(s[j..])|
  {
    assert SplitSpaces(s) == [s[..i]] + SplitSpaces(s[j..]);
    Lists.FilterAppend([s[..i]], SplitSpaces(s[j..]), NonEmpty);
  }

  /** The same step for the word starts. */
  lemma WordStartsStep(s: string, i: nat, j: nat)
    requires i == FirstSpace(s) < |s| && j == SpaceRunEnd(s, i)
    ensures WordStarts(s, true) == (if i > 0 then 1 else 0) + WordStarts(s[j..], true)
  {
    var rest := s[j..];
    assert s == s[..i] + (s[i..j] + rest);
    WordStartsAppend(s[..i], s[i..j] + rest, true);
    WordStartsOfPiece(s[..i], true);
    assert IsBlank(s[i..j]) && s[i..j] != [];
    WordStartsAfterRun(s[i..j], rest, if i == 0 then true else IsSpace(s[i - 1]));
  }

  /** The split-and-filter pipeline counts exactly the word starts. */
  lemma {:induction false} WordsCountStarts(s: string)
    ensures |Words(s)| == WordStarts(s, true)
    decreases |s|
  {
    var i := FirstSpace(s);
    if i == |s| {
      WordStartsOfPiece(s, true);
      assert SplitSpaces(s) == [s];
    } else {
      var j := SpaceRunEnd(s, i);
      WordsStep(s, i, j);
      WordStartsStep(s, i, j);
      WordsCountStarts(s[j..]);
    }
  }

  /** `Math.ceil(words / 200)`: the minutes shown, 200 words a minute. */
  function ReadingTime(words: nat): (minutes: nat)
    ensures minutes * 200 >= words
    ensures minutes > 0 ==> (minutes - 1) * 200 < words
    ensures minutes == 0 <==> words == 0
  {
    (words + 199) / 200
  }

  // ---------------------------------------------------------------- tags

  const MaxTags := 5

  /** The tag list `addTag` and `removeTag` maintain: at most five tags, no
      two equal, each one trimmed and non-empty. */
  predicate TagsOk(tags: seq<string>) {
    && |tags| <= MaxTags
    && Lists.Distinct(tags)
    && forall t :: t in tags ==> t != [] && IsTrimmed(t)
  }

  /** `addTag` on the list and the input box: the trimmed input is appended
      and the box cleared when it is non-empty, new, and fewer than five tags
      are held; otherwise both stay as they are. */
  function AddTagTo(tags: seq<string>, input: string): (r: (seq<string>, string))
    ensures (Trim(input) != [] && Trim(input) !in tags && |tags| < MaxTags) ==>
              r == (tags + [Trim(input)], "")
    ensures !(Trim(input) != [] && Trim(input) !in tags && |tags| < MaxTags) ==>
              r == (tags, input)
    ensures TagsOk(tags) ==> TagsOk(r.0)
  {
    var t := Trim(input);
    if t != [] && t !in tags && |tags| < MaxTags then
      TrimIsTrimmed(input);
      AppendTagOk(tags, t);
      (tags + [t], "")
    else (tags, input)
  }

  /** A new trimmed, non-empty tag appended to a well-formed list of fewer
      than five tags keeps it well-formed. */
  lemma AppendTagOk(tags: seq<string>, t: string)
    ensures TagsOk(tags) && t != [] && IsTrimmed(t) && t !in tags && |tags| < MaxTags ==> TagsOk(tags + [t])
  {
    if TagsOk(tags) && t != [] && IsTrimmed(t) && t !in tags && |tags| < MaxTags {
      AppendDistinct(tags, t);
      assert forall x :: x in tags + [t] ==> x in tags || x == t;
    }
  }

  lemma AppendDistinct(tags: seq<string>, t: string)
    ensures Lists.Distinct(tags) && t !in tags ==> Lists.Distinct(tags + [t])
  {
    var s := tags + [t];
    if !Lists.Distinct(tags) || t in tags {
      return;
    }
    forall i, j | 0 <= i < j < |s| ensures s[i] != s[j] {
      if j == |tags| {
        assert s[i] == tags[i];
      } else {
        assert s[i] == tags[i] && s[j] == tags[j];
      }
    }
  }

  /** `tags.filter(tag => tag !== t)`: every copy of `t` goes and every
      other tag stays. */
  function RemoveTagFrom(tags: seq<string>, t: string): (r: seq<string>)
    ensures t !in r
    ensures forall x :: x in r <==> x in tags && x != t
  {
    Lists.Filter(tags, x => x != t)
  }

  /** Removal keeps the remaining tags in order, changes nothing when `t`
      is not held, and keeps the invariant. */
  lemma RemoveTagKeeps(tags: seq<string>, t: string)
    ensures Lists.IsSubsequence(RemoveTagFrom(tags, t), tags)
    ensures t !in tags ==> RemoveTagFrom(tags, t) == tags
    ensures TagsOk(tags) ==> TagsOk(RemoveTagFrom(tags, t))
  {
    Lists.FilterIsSubsequence(tags, x => x != t);
    if t !in tags {
      Lists.FilterKeepsAll(tags, x => x != t);
    }
    if Lists.Distinct(tags) {
      Lists.FilterDistinct(tags, x => x != t);
    }
  }

  /** Removing a tag held once takes out exactly that position. */
  lemma RemoveHeldTag(tags: seq<string>, i: nat)
    requires i < |tags| && Lists.Distinct(tags)
    ensures RemoveTagFrom(tags, tags[i]) == tags[..i] + tags[i + 1..]
  {
    var t := tags[i];
    var p := x => x != t;
    assert tags == tags[..i] + ([t] + tags[i + 1..]);
    Lists.FilterAppend(tags[..i], [t] + tags[i + 1..], p);
    Lists.FilterAppend([t], tags[i + 1..], p);
    assert t !in tags[..i] by {
      forall k | 0 <= k < i ensures tags[..i][k] != t { assert tags[k] != tags[i]; }
    }
    assert t !in tags[i + 1..] by {
      var after := tags[i + 1..];
      forall k | 0 <= k < |after| ensures after[k] != t { assert after[k] == tags[i + 1 + k]; }
    }
    Lists.FilterKeepsAll(tags[..i], p);
    Lists.FilterKeepsAll(tags[i + 1..], p);
  }

  /** With the invariant, the tag part of the blog schema fails only for an
      empty list. */
  lemma TagsOkAccepted(tags: seq<string>)
    requires TagsOk(tags)
    ensures Validation.TagsErrors(tags) == [] <==> tags != []
  {
    forall i | 0 <= i < |tags| ensures Validation.Filled(tags[i]) {
      assert tags[i] in tags;
      TrimOfTrimmed(tags[i]);
    }
    Validation.TagsAccepted(tags);
  }

  // ---------------------------------------------------------------- payload

  /** A chosen file; only its name is read. */
  datatype File = File(name: string)

  /** A `FormData` entry value: a string or a file. */
  datatype FormValue = Text(s: string) | Attachment(file: File)

  type FormData = seq<(string, FormValue)>

  /** The value of the first entry named `key`. */
  function FormGet(fd: FormData, key: string): Option<FormValue> {
    if fd == [] then None
    else if fd[0].0 == key then Some(fd[0].1)
    else FormGet(fd[1..], key)
  }

  /** The entries submit appends, in order: title, content, tags as JSON,
      the user id when there is one, the cover file when one was chosen. */
  function Payload(values: Validation.BlogForm, userId: Option<string>, imageFile: Option<File>): (fd: FormData)
    ensures |fd| == 3 + (if Present(userId) then 1 else 0) + (if imageFile.Some? then 1 else 0)
    ensures FormGet(fd, "title") == Some(Text(values.title))
    ensures FormGet(fd, "content") == Some(Text(values.content))
    ensures FormGet(fd, "tags") == Some(Text(Json.StringifyStrings(values.tags)))
    ensures FormGet(fd, "userId") == if Present(userId) then Some(Text(userId.value)) else None
    ensures FormGet(fd, "image") == if imageFile.Some? then Some(Attachment(imageFile.value)) else None
    ensures forall k :: 0 <= k < |fd| ==> fd[k].0 in ["title", "content", "tags", "userId", "image"]
  {
    var fixed := [("title", Text(values.title)), ("content", Text(values.content)),
                  ("tags", Text(Json.StringifyStrings(values.tags)))];
    var user := if Present(userId) then [("userId", Text(userId.value))] else [];
    var cover := if imageFile.Some? then [("image", Attachment(imageFile.value))] else [];
    FormGetAppend(fixed, user + cover);
    FormGetAppend(user, cover);
    assert FormGet(fixed, "tags") == Some(Text(Json.StringifyStrings(values.tags))) by {
      assert fixed[0].0 != "tags" && fixed[1].0 != "tags";
      assert FormGet(fixed, "tags") == FormGet(fixed[1..], "tags");
      assert fixed[1..][1..] == [fixed[2]];
      assert FormGet(fixed[1..], "tags") == FormGet([fixed[2]], "tags");
    }
    FormGetAbsent(fixed, "userId");
    FormGetAbsent(fixed, "image");
    FormGetAbsent(user, "image");
    FormGetAbsent(cover, "userId");
    fixed + (user + cover)
  }

  /** A key no entry carries is not found. */
  lemma {:induction false} FormGetAbsent(fd: FormData, key: string)
    requires forall k :: 0 <= k < |fd| ==> fd[k].0 != key
    ensures FormGet(fd, key) == None
    decreases |fd|
  {
    if fd != [] {
      FormGetAbsent(fd[1..], key);
    }
  }

  /** Looking a key up in two lists of entries looks in the first one first. */
  lemma {:induction false} FormGetAppend(a: FormData, b: FormData)
    ensures forall key :: FormGet(a + b, key) == if FormGet(a, key).Some? then FormGet(a, key) else FormGet(b, key)
    decreases |a|
  {
    if a == [] {
      assert a + b == b;
    } else {
      assert (a + b)[1..] == a[1..] + b;
      FormGetAppend(a[1..], b);
    }
  }

  /** The server can read the tag list back out of the payload. */
  lemma PayloadTagsRoundTrip(values: Validation.BlogForm, userId: Option<string>, imageFile: Option<File>)
    ensures FormGet(Payload(values, userId, imageFile), "tags").Some?
    ensures Json.ParseStrings(FormGet(Payload(values, userId, imageFile), "tags").value.s) == Some(values.tags)
  {
    Json.StringifyRoundTrip(values.tags);
  }

  /** What a submission leads to once the request has settled: a truthy
      status toasts and opens the list of the user's blogs, a thrown error
      goes through the error handler. */
  function SubmitEffects(outcome: Outcome<Response<JsValue>>): (effects: seq<Effect>)
    ensures Navigate("/myBlogs") in effects <==> outcome.Resolved? && outcome.value.status != 0
    ensures outcome.Rejected? ==> effects == [ToastError(ErrorHandler.HandleError(outcome.error))]
    ensures outcome.Resolved? && outcome.value.status == 0 ==> effects == []
  {
    match outcome
    case Resolved(response) =>
      if response.status != 0 then [ToastSuccess("Blog posted successfully"), Navigate("/myBlogs")] else []
    case Rejected(e) => [ToastError(ErrorHandler.HandleError(e))]
  }

  // ---------------------------------------------------------------- page state

  /** The state of the page: the form values and the component's own state. */
  class CreateBlogForm {
    var title: string
    var content: string
    var image: string
    var tags: seq<string>
    var imagePreview: Option<string>
    var imageFile: Option<File>
    var isSubmitting: bool
    var wordCount: nat
    var readingTime: nat
    var tagInput: string
    var showPreview: bool

    predicate Valid()
      reads this
    {
      TagsOk(tags)
    }

    /** The values the schema checks and submit sends. */
    function Values(): (v: Validation.BlogForm)
      reads this
      ensures v.title == title && v.content == content && v.image == image && v.tags == tags
    {
      Validation.BlogForm(title, content, image, tags)
    }

    constructor()
      ensures Valid()
      ensures title == "" && content == "" && image == "" && tags == []
      ensures imagePreview == None && imageFile == None && !isSubmitting
      ensures wordCount == 0 && readingTime == 0 && tagInput == "" && !showPreview
    {
      title, content, image, tags := "", "", "", [];
      imagePreview, imageFile, isSubmitting := None, None, false;
      wordCount, readingTime, tagInput, showPreview := 0, 0, "", false;
    }

    /** Typing in the title box. */
    method SetTitle(v: string)
      modifies this
      ensures title == v
      ensures content == old(content) && image == old(image) && tags == old(tags)
      ensures imagePreview == old(imagePreview) && imageFile == old(imageFile) && isSubmitting == old(isSubmitting)
      ensures wordCount == old(wordCount) && readingTime == old(readingTime)
      ensures tagInput == old(tagInput) && showPreview == old(showPreview)
    {
      title := v;
    }

    /** Typing in the tag box. */
    method SetTagInput(v: string)
      modifies this
      ensures tagInput == v
      ensures title == old(title) && content == old(content) && image == old(image) && tags == old(tags)
      ensures imagePreview == old(imagePreview) && imageFile == old(imageFile) && isSubmitting == old(isSubmitting)
      ensures wordCount == old(wordCount) && readingTime == old(readingTime) && showPreview == old(showPreview)
    {
      tagInput := v;
    }

    method AddTag()
      requires Valid()
      modifies this
      ensures Valid()
      ensures (tags, tagInput) == AddTagTo(old(tags), old(tagInput))
      ensures title == old(title) && content == old(content) && image == old(image)
      ensures imagePreview == old(imagePreview) && imageFile == old(imageFile) && isSubmitting == old(isSubmitting)
      ensures wordCount == old(wordCount) && readingTime == old(readingTime) && showPreview == old(showPreview)
    {
      var next := AddTagTo(tags, tagInput);
      tags, tagInput := next.0, next.1;
    }

    method RemoveTag(t: string)
      requires Valid()
      modifies this
      ensures Valid()
      ensures tags == RemoveTagFrom(old(tags), t)
      ensures title == old(title) && content == old(content) && image == old(image) && tagInput == old(tagInput)
      ensures imagePreview == old(imagePreview) && imageFile == old(imageFile) && isSubmitting == old(isSubmitting)
      ensures wordCount == old(wordCount) && readingTime == old(readingTime) && showPreview == old(showPreview)
    {
      RemoveTagKeeps(tags, t);
      tags := RemoveTagFrom(tags, t);
    }

    /** A file chosen in the picker (`None` when the list is empty);
        `objectUrl` is what `URL.createObjectURL` returns for it. */
    method HandleImageChange(file: Option<File>, objectUrl: string)
      modifies this
      ensures file.Some? ==> imageFile == file && image == file.value.name && imagePreview == Some(objectUrl)
      ensures file.None? ==> imageFile == old(imageFile) && image == old(image) && imagePreview == old(imagePreview)
      ensures title == old(title) && content == old(content) && tags == old(tags) && tagInput == old(tagInput)
      ensures isSubmitting == old(isSubmitting) && showPreview == old(showPreview)
      ensures wordCount == old(wordCount) && readingTime == old(readingTime)
    {
      if file.Some? {
        imageFile := file;
        image := file.value.name;
        imagePreview := Some(objectUrl);
      }
    }

    /** The remove button on the cover preview: the chosen file stays. */
    method ClearCover()
      modifies this
      ensures imagePreview == None && image == ""
      ensures imageFile == old(imageFile)
      ensures title == old(title) && content == old(content) && tags == old(tags) && tagInput == old(tagInput)
      ensures isSubmitting == old(isSubmitting) && showPreview == old(showPreview)
      ensures wordCount == old(wordCount) && readingTime == old(readingTime)
    {
      imagePreview := None;
      image := "";
    }

    method TogglePreview()
      modifies this
      ensures showPreview == !old(showPreview)
      ensures title == old(title) && content == old(content) && image == old(image) && tags == old(tags)
      ensures imagePreview == old(imagePreview) && imageFile == old(imageFile) && isSubmitting == old(isSubmitting)
      ensures wordCount == old(wordCount) && readingTime == old(readingTime) && tagInput == old(tagInput)
    {
      showPreview := !showPreview;
    }

    /** The editor's `onUpdate` with its HTML. */
    method OnUpdate(html: string)
      modifies this
      ensures wordCount == WordCount(html) && readingTime == ReadingTime(wordCount)
      ensures content == html
      ensures title == old(title) && image == old(image) && tags == old(tags) && tagInput == old(tagInput)
      ensures imagePreview == old(imagePreview) && imageFile == old(imageFile)
      ensures isSubmitting == old(isSubmitting) && showPreview == old(showPreview)
    {
      var text := ReplaceTags(html, " ", 0);
      var words := Words(text);
      wordCount := |words|;
      readingTime := ReadingTime(|words|);
      content := html;
    }

    /** The `FormData` built entry by entry, as submit does. */
    method BuildFormData(userId: Option<string>) returns (fd: FormData)
      ensures fd == Payload(Values(), userId, imageFile)
    {
      fd := [];
      fd := fd + [("title", Text(title))];
      fd := fd + [("content", Text(content))];
      fd := fd + [("tags", Text(Json.StringifyStrings(tags)))];
      if userId.Some? && userId.value != [] {
        fd := fd + [("userId", Text(userId.value))];
      }
      if imageFile.Some? {
        fd := fd + [("image", Attachment(imageFile.value))];
      }
    }

    /** The blog schema on the current values: whether it reports no error,
        which `Validation.BlogFormAccepted` shows is `BlogFormReady`. */
    method Validate() returns (accepted: bool)
      ensures accepted <==> Validation.BlogFormReady(Values())
    {
      Validation.BlogFormAccepted(Values());
      accepted := Validation.BlogFormErrors(Values()) == [];
    }

    /** Pressing publish: the schema runs first (`Validate`) and, when it
        reports an error, nothing is sent; otherwise `isSubmitting` is raised and the
        request carries the payload. */
    method BeginSubmit(userId: Option<string>) returns (request: Option<FormData>)
      modifies this
      ensures request.Some? <==> Validation.BlogFormReady(old(Values()))
      ensures request.Some? ==> request.value == Payload(old(Values()), userId, imageFile) && isSubmitting
      ensures request.None? ==> isSubmitting == old(isSubmitting)
      ensures title == old(title) && content == old(content) && image == old(image) && tags == old(tags)
      ensures imagePreview == old(imagePreview) && imageFile == old(imageFile) && tagInput == old(tagInput)
      ensures wordCount == old(wordCount) && readingTime == old(readingTime) && showPreview == old(showPreview)
    {
      var accepted := Validate();
      if !accepted {
        return None;
      }
      var fd := BuildFormData(userId);
      isSubmitting := true;
      request := Some(fd);
    }

    /** The request has settled: the `finally` lowers `isSubmitting` on
        every path, and the effects are those of `SubmitEffects`. */
    method FinishSubmit(outcome: Outcome<Response<JsValue>>) returns (effects: seq<Effect>)
      modifies this
      ensures !isSubmitting
      ensures effects == SubmitEffects(outcome)
      ensures title == old(title) && content == old(content) && image == old(image) && tags == old(tags)
      ensures imagePreview == old(imagePreview) && imageFile == old(imageFile) && tagInput == old(tagInput)
      ensures wordCount == old(wordCount) && readingTime == old(readingTime) && showPreview == old(showPreview)
    {
      effects := [];
      match outcome {
        case Resolved(response) =>
          if response.status != 0 {
            effects := effects + [ToastSuccess("Blog posted successfully")];
            effects := effects + [Navigate("/myBlogs")];
          }
        case Rejected(e) =>
          effects := effects + [ToastError(ErrorHandler.HandleError(e))];
      }
      isSubmitting := false;
    }
  }

  /** With the tag invariant, the form can be submitted exactly when the
      title and content are not blank, a cover is named and there is a tag. */
  lemma SubmittableIff(values: Validation.BlogForm)
    requires TagsOk(values.tags)
    ensures Validation.BlogFormErrors(values) == [] <==>
              Validation.Filled(values.title) && Validation.Filled(values.content) &&
              values.image != [] && values.tags != []
  {
    Validation.BlogFormAccepted(values);
    TagsOkAccepted(values.tags);
    Validation.TagsAccepted(values.tags);
  }

  /** A cleared cover blocks submission, whatever file is still held. */
  lemma ClearedCoverBlocksSubmit(values: Validation.BlogForm)
    requires values.image == ""
    ensures Validation.BlogFormErrors(values) != []
  {
    Validation.BlogFormAccepted(values);
  }
}
