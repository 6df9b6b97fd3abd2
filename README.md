# litStudio frontend — a Dafny model of its decision rules

litStudio is a blogging site. This project models its React client: the
rules by which the pages decide what to show, what to send and what to
remember. The server, the rich-text editor and the browser are outside the
model. A network call is an `Outcome`: it resolves with a `Response`
(status and JSON body) or rejects with a `Thrown` value. What a handler
does is either a change to the state it owns or a list of `Effect`s
(toasts, navigation, purging the persisted session, a delayed effect).

The modules follow the source files:

- `Validation`: the three Yup schemas of `registerValidation.ts` as
  explicit predicates. Each schema yields the error of every rule that
  fails. Fields declared with `.trim()` are tested on their trimmed value.
- `ErrorHandler`: `handleError`, which picks the one value shown in an
  error toast.
- `EditorMenu`: link-URL sanitisation, the cancel/unset/set decision of the
  link prompt, and the image-insertion guard.
- `CreateBlog`:
  - the word count and reading time of the editor's HTML;
  - the tag list;
  - the `FormData` payload and its JSON `tags`;
  - the form state as a class whose handlers update its fields.
- `BlogPage`: `formatBlogContent`, the "Updated on" condition, and the
  page's loading/not-found/post state.
- `MyBlogs`: the stable newest-first sort, delete-by-id, `createExcerpt`,
  and the page's list state.
- `Explore`: the case-insensitive search, the card preview and cover, and
  the page's fetch and rendering.
- `UserSlice`, `Guards`, `Login`, `Header`: the session (the signed-in
  user or `null`) and the transitions that write and clear it.
- Shared modules: `Text` (JavaScript string operations over `seq<char>`),
  `Js` (values, truthiness, outcomes, effects), `Json` (`JSON.stringify`
  of a string array, with a decoder for the round trip), `Lists`
  (`filter` and order facts), `Blogs` (the user and post records).

Behaviours of the source that the proofs make explicit:

- Yup's `.trim()` transform runs before the no-leading/trailing-space
  tests, so those tests never fail (`Validation.BlogFormAccepted`).
- The login schema's `min(6)` never decides anything. The pattern already
  demands 8 characters, so login and registration accept the same
  passwords (`Validation.LoginAcceptsSamePasswords`).
- `confirmPassword` is compared with the trimmed password, because Yup
  resolves the reference against the cast object.
- The second `message` test in `handleError` repeats the first, so that
  branch is never taken.
- Behaviour of `ErrorHandler.HandleError` on odd server messages:
  - an empty message object shows `undefined`;
  - a message object whose first value is falsy shows that falsy value;
  - no other rule shows a falsy value.
- Clearing the cover in the post editor keeps the chosen file. The empty
  `image` field then blocks submission until another file is chosen.
- On the Explore page:
  - a response body without `data.data` stores `undefined`, and the next
    render throws in `blogs.filter`;
  - a response without a body throws while reading `data.data`, and the
    catch block empties the list;
  - `setError` is never called, so the error view cannot appear;
  - a shown post without an author throws while its card reads
    `blog.authorId.name`, so the page crashes.
- On the single-post page, a route without a `blogId` fetches nothing, so
  the skeleton stays.

## Model

| member | source | states |
|---|---|---|
| Validation.PatternIffComplex | src/validation/registerValidation.ts:12-15 | the password regular expression matches iff the string has at least 8 characters, every character is an ASCII letter, an ASCII digit or one of `@$!%*?&`, and it holds a lower-case letter, an upper-case letter, a digit and one of those specials |
| Validation.PasswordErrors | src/validation/registerValidation.ts:9-16 | every error names the password field, and there is none iff the trimmed password reaches the declared minimum length and satisfies the complexity rule |
| Validation.NameErrors | src/validation/registerValidation.ts:4 | every error names the name field, and there is none iff the name is not blank |
| Validation.EmailErrors | src/validation/registerValidation.ts:5-8 | every error names the e-mail field, and there is none iff the trimmed e-mail is non-empty and has the e-mail shape |
| Validation.ConfirmErrors | src/validation/registerValidation.ts:17-19 | every error names the confirmation field, and there is none iff the confirmation equals the trimmed password and the password is not blank |
| Validation.PasswordAccepted | src/validation/registerValidation.ts:9-16 | a password passes its field's rules iff its trimmed value satisfies the complexity rule, for any declared minimum up to 8 |
| Validation.PasswordTrimmedFirst | src/validation/registerValidation.ts:10 | the password field reports the same errors for a value and for its trimmed value |
| Validation.RequiredTrimmed | src/validation/registerValidation.ts:4 | a trimmed required field reports no error iff the value is not blank |
| Validation.RegisterErrors | src/validation/registerValidation.ts:3-20 | field by field: the name has an error iff it is blank; the e-mail iff it is not accepted; the password iff its trimmed value is not complex; the confirmation iff it differs from the trimmed password or the password is blank; no error names another field |
| Validation.RegisterAccepted | src/validation/registerValidation.ts:3-20 | the registration form is accepted iff the name is not blank, the trimmed e-mail has the e-mail shape, the trimmed password is complex, and the confirmation equals the trimmed password |
| Validation.LoginErrors | src/validation/registerValidation.ts:22-35 | field by field: the e-mail has an error iff it is not accepted, the password iff its trimmed value is not complex; no error names another field |
| Validation.LoginAcceptsSamePasswords | src/validation/registerValidation.ts:22-35 | the login form is accepted iff the e-mail is accepted and the trimmed password is complex, and its password field accepts exactly the passwords that the registration field accepts |
| Validation.NoOuterSpacesOnTrimmed | src/validation/registerValidation.ts:41-47 | the no-leading/trailing-space test always passes on a trimmed value |
| Validation.TrimmedNoOuterSpacesErrors | src/validation/registerValidation.ts:38-48 | the title field reports only "required", and only when the value is blank |
| Validation.TagElementsAccepted | src/validation/registerValidation.ts:57-69 | the tag elements from an index on pass iff none of them is blank |
| Validation.FilledIffNotBlank | src/validation/registerValidation.ts:39-40 | a value that trims to something non-empty is exactly a value that is not blank |
| Validation.TagsAccepted | src/validation/registerValidation.ts:54-69 | the tag list passes iff it holds one to five tags and none of them is blank |
| Validation.TagElementErrors | src/validation/registerValidation.ts:57-69 | the tag at index i has an error iff i is at or after the start index, inside the list, and that tag is blank; no error names another field |
| Validation.TagsErrors | src/validation/registerValidation.ts:54-69 | the list has its own error iff it does not hold one to five tags; the tag at index i has an error iff it is blank; no error names a field outside the tags |
| Validation.BlogFormErrors | src/validation/registerValidation.ts:37-70 | field by field: the title has an error iff it is blank, the content iff it is blank, the image iff it is empty, the tag list iff it does not hold one to five tags, the tag at index i iff it is blank; no error names another field |
| Validation.BlogFormAccepted | src/validation/registerValidation.ts:37-70 | the blog form is accepted iff title and content are not blank, the image is non-empty, and there are one to five non-blank tags |
| ErrorHandler.FirstKeyValue | src/helpers/errorHandler.ts:7-8 | a message object shows the value under its first key, and an object without keys shows `undefined` |
| ErrorHandler.HandleError | src/helpers/errorHandler.ts:3-22 | each of the four reachable branches: a message object gives its first value; another truthy server message gives itself; a falsy server message gives the API default; without server data, the truthy `error.message` or else the last-resort default |
| ErrorHandler.ShownByRule | src/helpers/errorHandler.ts:4-21 | each error selects exactly one rule, and the value shown is the one that rule provides (truthy for the flat and transport rules) |
| ErrorHandler.ServerMessageTakesPrecedence | src/helpers/errorHandler.ts:4-18 | when the server answered with a body, the transport error's own message has no influence on the value shown |
| ErrorHandler.FieldMessageShowsFirstValue | src/helpers/errorHandler.ts:6-8 | a per-field message object shows the value of its first field |
| ErrorHandler.FalsyOnlyFromFieldMessage | src/helpers/errorHandler.ts:5-21 | a falsy value is shown only through a server message object |
| EditorMenu.SchemeSeparatorAt4 | src/pages/EditorMenuBar.tsx:36 | the first `://` of `http://` followed by any text is at index 4 |
| EditorMenu.SanitizeUrl | src/pages/EditorMenuBar.tsx:36 | the sanitised URL holds its first `://` at an index above 0, is trimmed, and is either the trimmed input or `http://` followed by it |
| EditorMenu.SanitizedShape | src/pages/EditorMenuBar.tsx:36 | a sanitised URL holds its first `://` at an index above 0 and is trimmed; it is the trimmed input when that already holds `://` after index 0, and `http://` + the trimmed input otherwise |
| EditorMenu.SanitizeIdempotent | src/pages/EditorMenuBar.tsx:36 | sanitising a sanitised URL changes nothing |
| EditorMenu.HandleLinkUpdate | src/pages/EditorMenuBar.tsx:25-39 | a cancelled prompt runs no command; the empty answer unsets the link over the mark range; any other answer sets the link to the sanitised URL |
| EditorMenu.LinkCommandsWellFormed | src/pages/EditorMenuBar.tsx:29-38 | every link set is a sanitised URL, and no chain both unsets and sets a link |
| EditorMenu.BlankAnswerSetsBareScheme | src/pages/EditorMenuBar.tsx:32-36 | an answer of white space only is not the empty answer: it sets the link to `http://` |
| EditorMenu.InsertImage | src/pages/EditorMenuBar.tsx:10-22 | an image is inserted iff a file was chosen and the reader gave a non-empty result, and it is that result |
| CreateBlog.WordsCountStarts | src/pages/CreateBlog.tsx:71-73 | the number of non-empty pieces of `split(/\s+/)` equals the number of word starts (a non-space character at the start or after a space) |
| CreateBlog.WordCount | src/pages/CreateBlog.tsx:71-73 | the word count is the number of word starts in the text left once every `<...>` is replaced by a space |
| CreateBlog.ReadingTime | src/pages/CreateBlog.tsx:74 | the reading time is the least number of minutes whose 200-word capacity covers the count, and it is 0 iff the count is 0 |
| CreateBlog.AddTagTo | src/pages/CreateBlog.tsx:122-129 | with a non-blank, new trimmed input and fewer than 5 tags, the input is appended trimmed and the input box is cleared; otherwise both are unchanged; a well-formed list stays well-formed (at most 5 tags, distinct, trimmed, non-empty) |
| CreateBlog.RemoveTagFrom | src/pages/CreateBlog.tsx:131-134 | the tag is gone and every other tag is kept |
| CreateBlog.RemoveTagKeeps | src/pages/CreateBlog.tsx:131-134 | the other tags keep their order, removing an absent tag changes nothing, and a well-formed list stays well-formed |
| CreateBlog.RemoveHeldTag | src/pages/CreateBlog.tsx:132 | in a list without repetitions, removing the tag at index i removes exactly that position |
| CreateBlog.TagsOkAccepted | src/pages/CreateBlog.tsx:122-134 | a list built by the tag handlers passes the tag rules iff it is not empty |
| CreateBlog.Payload | src/pages/CreateBlog.tsx:90-99 | the payload holds `title`, `content` and the JSON `tags`, then `userId` only for a present id and `image` only for a chosen file, and no other key |
| CreateBlog.PayloadTagsRoundTrip | src/pages/CreateBlog.tsx:93 | decoding the payload's `tags` gives back the tag list |
| CreateBlog.SubmitEffects | src/pages/CreateBlog.tsx:100-106 | navigation to `/myBlogs` happens iff the request resolved with a truthy status; a throw shows the handled error; a zero status does nothing |
| CreateBlog.CreateBlogForm.constructor | src/pages/CreateBlog.tsx:32-38 | every field starts empty, null, false or 0, as initialised |
| CreateBlog.CreateBlogForm.SetTitle | src/pages/CreateBlog.tsx:172-174 | the title changes and nothing else does |
| CreateBlog.CreateBlogForm.SetTagInput | src/pages/CreateBlog.tsx:195-196 | the tag input changes and nothing else does |
| CreateBlog.CreateBlogForm.AddTag | src/pages/CreateBlog.tsx:122-129 | the tag list and input become `AddTagTo` of the old ones, the well-formed-list invariant is kept, and nothing else changes |
| CreateBlog.CreateBlogForm.RemoveTag | src/pages/CreateBlog.tsx:131-134 | the tag list becomes `RemoveTagFrom` of the old one, the invariant is kept, and nothing else changes |
| CreateBlog.CreateBlogForm.HandleImageChange | src/pages/CreateBlog.tsx:113-120 | a chosen file sets the file, the `image` field to the file's name and the preview; no file changes nothing |
| CreateBlog.CreateBlogForm.ClearCover | src/pages/CreateBlog.tsx:256-259 | the preview becomes null and `image` empty, while the chosen file is kept |
| CreateBlog.CreateBlogForm.TogglePreview | src/pages/CreateBlog.tsx:136-138 | the preview flag flips and nothing else changes |
| CreateBlog.CreateBlogForm.OnUpdate | src/pages/CreateBlog.tsx:70-76 | the word count, the reading time and the content follow the editor's HTML |
| CreateBlog.CreateBlogForm.BuildFormData | src/pages/CreateBlog.tsx:90-99 | the appended `FormData` is the payload of the current values |
| CreateBlog.CreateBlogForm.Validate | src/pages/CreateBlog.tsx:86 | the form is accepted iff the blog schema accepts its values |
| CreateBlog.CreateBlogForm.BeginSubmit | src/pages/CreateBlog.tsx:86-99 | a request is sent iff the schema accepts the values; it is their payload, and `isSubmitting` is then set |
| CreateBlog.CreateBlogForm.FinishSubmit | src/pages/CreateBlog.tsx:100-109 | `isSubmitting` is false afterwards on every outcome, and the effects are the submit effects |
| CreateBlog.SubmittableIff | src/pages/CreateBlog.tsx:86 | for a well-formed tag list, the form is accepted iff title and content are not blank, a cover is named and some tag is held |
| CreateBlog.ClearedCoverBlocksSubmit | src/pages/CreateBlog.tsx:256-259 | with the cover cleared, the form is never accepted |
| BlogPage.KeptLines | src/pages/BlogPage.tsx:102 | each `\n`-separated line that is not blank is kept as many times as it occurs, and a blank line not at all |
| BlogPage.FormatBlogContent | src/pages/BlogPage.tsx:93-104 | empty content gives `''`; content holding `<p>` or `<div>` is returned as is; otherwise one `<p>` paragraph per kept line |
| BlogPage.PlainTextKeepsOrder | src/pages/BlogPage.tsx:102-103 | the paragraphs keep the order of the lines |
| BlogPage.KeptLinesAreLines | src/pages/BlogPage.tsx:102 | every kept line holds no line break and is not blank |
| BlogPage.BlankLinesFormatToEmpty | src/pages/BlogPage.tsx:93-103 | content of blank lines only formats to `''` |
| BlogPage.ParagraphsLookLikeHtml | src/pages/BlogPage.tsx:97-103 | formatted paragraphs hold `<p>` |
| BlogPage.FormatIdempotent | src/pages/BlogPage.tsx:93-104 | formatting the formatted content changes nothing |
| BlogPage.ShowUpdated | src/pages/BlogPage.tsx:188 | "Updated on" appears iff there is an update date and it differs from the creation date |
| BlogPage.BlogPageState.constructor | src/pages/BlogPage.tsx:13-14 | the page starts loading, without a post |
| BlogPage.BlogPageState.View | src/pages/BlogPage.tsx:43-90 | skeleton iff loading; "not found" iff loading ended without a post; otherwise the post held |
| BlogPage.BlogPageState.FetchBlogDetails | src/pages/BlogPage.tsx:16-33 | without an id nothing happens; a body with `data.data` stores the post; any other answer toasts "No blog data found"; a throw toasts the handled error; loading ends on every path that fetched |
| BlogPage.NoBlogDataToast | src/pages/BlogPage.tsx:26-29 | the thrown "No blog data found" reaches the toast as that text |
| MyBlogs.Insert | src/pages/MyBlogs.tsx:27-32 | inserting a post into a newest-first list gives a newest-first permutation of the list plus the post |
| MyBlogs.SortNewestFirst | src/pages/MyBlogs.tsx:27-32 | the sorted list is a permutation of the server's list, by non-increasing creation date, with a missing date counted as 0 |
| MyBlogs.SortStable | src/pages/MyBlogs.tsx:27-32 | the posts of any one date keep the server's order |
| MyBlogs.DeleteById | src/pages/MyBlogs.tsx:46 | each post whose id differs from the deleted one is kept as many times as it occurs, and a post with that id not at all |
| MyBlogs.DeleteKeepsOthers | src/pages/MyBlogs.tsx:46 | the kept posts keep their order, and deleting an id no post carries changes nothing |
| MyBlogs.DeleteTarget | src/pages/MyBlogs.tsx:137 | a deletion is asked for iff the post has a non-empty id, and for that id |
| MyBlogs.CreateExcerpt | src/pages/MyBlogs.tsx:57-60 | the text without its tags is returned whole when it fits, else cut to the length plus `...`; the text left holds no tag |
| MyBlogs.ShortPlainTextUnchanged | src/pages/MyBlogs.tsx:57-60 | short text without `<` is its own excerpt |
| MyBlogs.MyBlogsPage.constructor | src/pages/MyBlogs.tsx:14 | the list starts empty |
| MyBlogs.MyBlogsPage.Load | src/pages/MyBlogs.tsx:17-40 | without a user id nothing is fetched; a body with `data.data` replaces the list with it sorted newest first; any other answer keeps the list; a throw toasts the handled error |
| MyBlogs.MyBlogsPage.HandleDelete | src/pages/MyBlogs.tsx:42-55 | status 200 removes the posts with that id and toasts success; another status keeps the list and toasts failure; a throw keeps the list and toasts the handled error |
| Explore.FilteredBlogs | src/pages/Explore.tsx:108-112 | a post is shown iff it matches the search term |
| Explore.Matches | src/pages/Explore.tsx:109-111 | a post matches iff the term occurs, up to the case of ASCII letters, in its title, in its content, or in its author's non-empty name |
| Explore.FilteredInOrder | src/pages/Explore.tsx:108-112 | the shown posts keep the server's order |
| Explore.EmptyTermShowsAll | src/pages/Explore.tsx:108-112 | an empty term shows every post |
| Explore.MatchIgnoresTermCase | src/pages/Explore.tsx:109-111 | lower-casing the term does not change the result |
| Explore.LiteralOccurrenceMatches | src/pages/Explore.tsx:109-111 | a post whose title, content or author name holds the term as typed is shown |
| Explore.ShowingNoteIff | src/pages/Explore.tsx:173-177 | "Showing n of m" appears iff some post does not match |
| Explore.ContentPreview | src/pages/Explore.tsx:16-18 | the preview is the whole text up to 120 characters, else its first 120 characters followed by `...` |
| Explore.CoverOf | src/pages/Explore.tsx:39-47 | the picture is used iff the image starts with `http`; otherwise the placeholder shows the title's first character, or nothing for an empty title |
| Explore.ExplorePage.constructor | src/pages/Explore.tsx:85-88 | the list starts empty, the term empty, loading on, no error |
| Explore.ExplorePage.View | src/pages/Explore.tsx:61-197 | a crash iff the list is `undefined`, or no error is set, loading has ended and a shown post has no author; the error view iff an error is set; the spinner while loading; otherwise the matching cards, with the note iff some post is hidden, or the empty result with the clear button iff a term was typed |
| Explore.ExplorePage.FetchBlogs | src/pages/Explore.tsx:90-105 | a body stores its `data.data`; a missing body or a throw toasts the handled error and empties the list; loading ends on every path |
| Explore.ExplorePage.SetSearchTerm | src/pages/Explore.tsx:150-156 | the term changes and nothing else does |
| Explore.ErrorViewUnreachable | src/pages/Explore.tsx:88-130 | with no handler setting `error`, the error view never appears |
| Explore.FailedFetchShowsNoResults | src/pages/Explore.tsx:97-101 | after a failed fetch the page shows the empty result, with the clear button iff a term was typed |
| Explore.AuthorlessPostCrashes | src/pages/Explore.tsx:61-63 | with no term typed and loading over, a post without an author makes the page crash |
| UserSlice.Next | src/redux/userSlice.ts:21-28 | `setUserInfo` stores exactly its payload, `null` included, and `removeUserInfo` stores `null` |
| UserSlice.NextForgetsPrevious | src/redux/userSlice.ts:22-27 | each action overwrites the session, whatever it held before |
| UserSlice.RemoveIdempotent | src/redux/userSlice.ts:25-27 | signing out twice is signing out once |
| UserSlice.SetNullIsRemove | src/redux/userSlice.ts:22-27 | `setUserInfo(null)` is `removeUserInfo()` |
| UserSlice.SetThenRead | src/redux/userSlice.ts:22-24 | the user read back after `setUserInfo` is the one written |
| UserSlice.UserState.constructor | src/redux/userSlice.ts:14-16 | nobody is signed in at first |
| UserSlice.UserState.SetUserInfo | src/redux/userSlice.ts:22-24 | the session becomes the payload |
| UserSlice.UserState.RemoveUserInfo | src/redux/userSlice.ts:25-27 | the session becomes `null` from any state |
| Guards.WithAuth | src/hoc/WithAuth.tsx:10-13 | the page is rendered iff someone is signed in; otherwise the guard redirects to `/login` |
| Guards.WithoutAuth | src/hoc/WithoutAuth.tsx:9-13 | the page is rendered iff nobody is signed in; otherwise the guard redirects to `/` |
| Guards.GuardsComplementary | src/hoc/WithoutAuth.tsx:12 | for every session exactly one of the two guards renders its page |
| Guards.GuardsIgnoreWho | src/hoc/WithAuth.tsx:11-12 | both guards decide on whether the session is `null`, never on its contents |
| Login.SignedIn | src/pages/Login.tsx:25-29 | a user is written iff the login resolved with a truthy `status` and a `data`, and it is that `data` |
| Login.LoginEffects | src/pages/Login.tsx:23-36 | a throw toasts the handled error; a falsy status does nothing; a truthy status toasts the welcome, then goes home only with a user |
| Login.NavigatesOnlyWhenSignedIn | src/pages/Login.tsx:28-30 | the home page is opened iff a user is written, and then as the last effect |
| Login.WelcomeWithoutUser | src/pages/Login.tsx:26-31 | a truthy status without `data` only toasts the welcome and writes no user |
| Login.HandleSubmit | src/pages/Login.tsx:23-36 | the session is overwritten only by the signed-in user and is left as it was on every other path; the effects are the login effects |
| Header.HeaderState.constructor | src/components/Header.tsx:12 | the active path starts as `/` |
| Header.HeaderState.OnLocationChange | src/components/Header.tsx:18-20 | the active path follows the location |
| Header.HeaderState.IsActive | src/components/Header.tsx:36-38 | a link is active iff its path is the active path |
| Header.HeaderState.HandleLogout | src/components/Header.tsx:22-34 | a rejected logout escapes and changes nothing; a response with a truthy status clears the session, purges it, and schedules the login page and the toast after 1500 ms; any other answer does nothing |
| Header.OneActiveLink | src/components/Header.tsx:36-38 | two links with different paths are never both active |
| Json.StringifyRoundTrip | src/pages/CreateBlog.tsx:93 | the JSON text of a string array decodes back to that array |
| Json.StringifyStrings | src/pages/CreateBlog.tsx:93 | the JSON text is bracketed by `[` and `]`, is `[]` iff the array is empty, and holds no control character |

## Left out

- Network I/O: each request is an `Outcome` input. The endpoints, Axios and the server are not part of this model.
- The rich-text editor: `getHTML()` is an input string. The editor's commands are recorded as data and never executed, and its toggle buttons are not modelled.
- The `.email()` shape check of Yup is a library regular expression that is not visible here. It is the parameter `isEmail`.
- Formik's `touched` state and the choice of which error message is displayed. The model lists every failing rule's message, in the order the rules are declared.
- Browser APIs become inputs: `stripHtml` (Explore gets the stripped text), `URL.createObjectURL` (an object URL), `FileReader` (its result), `window.prompt` (its answer), the file picker (the number of files chosen).
- Dates: `createdAt` and `updatedAt` are integer timestamps. Parsing, locale formatting and `NaN` from an unparsable date are not modelled.
- Unicode: `toLowerCase` folds ASCII letters only. White space is the ECMAScript set used by `\s` and `trim`.
- Toast display and timers: toasts are `Effect` values, and a `setTimeout` is a delayed `After` effect that is not run.
- `persistor.purge()` is the effect `PurgePersisted`. The redux-persist storage is not modelled.
- React scheduling: each handler is modelled as one atomic step. So MyBlogs' `handleDelete` filters the current list, where the source filters the list captured by its closure.
- The submit button is disabled while `isSubmitting`. Formik's own double-submit guard is not modelled.
- Explore.Matches: `typeof blog.content === 'string'` always holds, because content is a string in this model. A non-string content from the server would only skip that disjunct.
- Explore.ExplorePage.FetchBlogs: a missing body is modelled as a `TypeError` named after the property `data`. The exact text of the browser's message is not modelled.
- Login.LoginEffects: a response without a body is modelled as a `TypeError` reading `status`. The exact text of the browser's message is not modelled.
- Logging: the `console.log` and `console.error` calls (src/pages/MyBlogs.tsx:19, 25 and 52; src/pages/Register.tsx:26) write to the browser console only and are not modelled.
- MyBlogs.CreateExcerpt, MyBlogs.ShortPlainTextUnchanged, Explore.ContentPreview, Explore.CoverOf: lengths, `substring` and `charAt` count Unicode scalar values (Dafny's `char`), where JavaScript counts UTF-16 code units. A character outside the Basic Multilingual Plane counts once here and twice in the source, so the source cuts such text earlier. A cut or `charAt` that splits a surrogate pair cannot be expressed in the model.
- Page layout, Home, Register, Footer, the routes and the preview component hold no decision rule and are not part of this model. The edit-post flow has no visible caller and is not part of this model.
