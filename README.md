# Prompterest, modelled in Dafny

Prompterest is a small web gallery of AI image prompts. Signed-in users
publish a prompt (a title, a description, the prompt text and an image). Anyone can browse the
feed and search it. Users rate a prompt with one to five stars and comment on
it, and the creator of a prompt can edit or delete it. All data lives in a
hosted store with three tables (`prompts`, `ratings`, `comments`) and a
storage bucket for the images (`prompt-images`). The feed page and the edit
page run on the server and query the store through its server client; the
interactive components (forms, buttons, stars, comments, navigation bar) run
in the browser and send their reads and writes to the store directly.

This project models the components that carry the behaviour:

- the feed page and its search;
- the navigation bar's search box;
- the rating stars;
- the owner's edit and delete controls;
- the comment thread;
- the create form and the edit form.

Stateful components are Dafny classes whose fields are the component's state
variables. Their event handlers are methods whose `modifies` clauses name
exactly the state they touch. The store is the class `Rows.Db`, holding the
tables as maps and sequences. The router is the class `Routing.Router`, which
logs every push, refresh and step back in the order they were asked for. Every answer from the store
or from the identity source is a parameter of the handler that awaits it. So
are the ids and times the store assigns and the random token in an image's
file name. Every handler is proved against a pure specification function on
the store's contents, and the properties the application relies on are
proved as lemmas about those functions.

Modules, one per file:

- `Text` (`text.dfy`): JavaScript `trim` and ASCII lower-casing, plus
  case-insensitive containment (`ILIKE '%term%'`).
- `Uri` (`uri.dfy`): `encodeURIComponent` and its decoding, with the round
  trip proved over UTF-8.
- `Ordering` (`ordering.dfy`): filtering, plus a stable newest-first sort.
- `Rows` (`rows.dfy`): rows, the store and its row operations.
- `Routing` (`routing.dfy`): the router and the app's paths.
- The components:
  - `Rating` (`rating.dfy`): the rating stars;
  - `Actions` (`actions.dfy`): the owner's edit and delete controls;
  - `Comments` (`comments.dfy`): the comment thread;
  - `EditForm` (`edit_form.dfy`): the edit form;
  - `CreateForm` (`create_form.dfy`): the create form;
  - `Feed` (`feed.dfy`): the feed page;
  - `Nav` (`navbar.dfy`): the navigation bar.

Three places where the behaviour one would expect of such a gallery differs
from what the code does; the model follows the code:

- **Ownership of edits and deletes.** One would expect only a prompt's
  creator to be able to change or remove it. The update and delete writes
  carry no such condition: the delete button and the edit form send them
  from the browser, by id alone. `Actions.PromptActions.HandleDelete` and
  `EditForm.EditPromptForm.HandleSubmit` therefore delete or update whatever
  row has the id. Ownership is checked in two places only, and neither
  guards a write:
  - in the browser, the Delete and Edit buttons are hidden from non-creators;
  - on the server, the edit page redirects a non-creator before it serves
    the form.

  The edit page is not part of this model. Any row-level rule the store
  enforces is outside the model too.
- **Rating summary.** One would expect rating a prompt to update the average
  and count shown beside the stars. The rating component never recomputes
  them: they stay at the values it was mounted with, and only the user's own
  stars change.
- **Star range.** One would expect a rating outside 1..5 to be refused. The
  component does no such check; only its five buttons bound the value, so
  `HandleRate` requires `1 <= value <= 5`.

## Model

| member | source | states |
|---|---|---|
| Text.Trim | prompterest/src/components/navbar.tsx:38 | the trimmed term is empty exactly when the term is all whitespace; otherwise it starts and ends with a non-space; it stands inside the term with only whitespace before and after it |
| Text.TrimIdempotent | prompterest/src/components/navbar.tsx:38 | trimming an already trimmed term changes nothing |
| Text.Contains | prompterest/src/app/page.tsx:16 | true exactly when the term occurs at some position of the text |
| Text.ILikeIgnoresCase | prompterest/src/app/page.tsx:16 | the ILIKE match gives the same answer for a term and its lower-case form |
| Uri.EncodeURIComponent | prompterest/src/components/navbar.tsx:38 | the encoding holds only unreserved characters and `%`, and is at least as long as the text |
| Uri.DecodeEncode | prompterest/src/components/navbar.tsx:38 | decoding the percent-encoding of any text gives back that text |
| Ordering.SortDesc | prompterest/src/app/page.tsx:13 | the result is ordered by non-increasing key |
| Ordering.SortDescSameRows | prompterest/src/app/page.tsx:13 | sorting keeps every row exactly as often as it occurred (same multiset) |
| Ordering.FilterRows | prompterest/src/components/comment-section.tsx:31 | the filtered rows are exactly the kept ones, each kept row as often as in the input and no rejected row at all |
| Ordering.FilterAppend | prompterest/src/components/comment-section.tsx:42-48 | filtering a table with one appended row is filtering the table, followed by that row if it is kept |
| Rows.ErrorText | prompterest/src/components/prompt-form.tsx:80 | the shown error is never empty: the store's message if there is one, otherwise a fixed fallback |
| Rows.Upsert | prompterest/src/components/rating-stars.tsx:55-61 | the key now maps to the new value and every other key is unchanged |
| Rows.AtMostOneRowPerPair | prompterest/src/components/rating-stars.tsx:29-34 | the ratings table holds at most one row per (prompt, user), so a `single()` select finds zero or one |
| Rows.UpsertLeavesOneRow | prompterest/src/components/rating-stars.tsx:55-61 | after the upsert there is exactly one row for the pair, carrying the new value |
| Rows.UpsertOverwrites | prompterest/src/components/rating-stars.tsx:55-61 | rating twice is the same as rating once with the later value |
| Rows.UpsertCount | prompterest/src/components/rating-stars.tsx:55-61 | a prompt's number of ratings grows by one on a user's first rating and stays the same on a re-rating |
| Rows.DeleteById | prompterest/src/components/prompt-actions.tsx:29-32 | the id is gone and every other row is unchanged |
| Rows.UpdateText | prompterest/src/components/edit-prompt-form.tsx:32-39 | only the row with the id changes, and only in title, description and prompt text; a missing id changes nothing |
| Rows.InsertRow | prompterest/src/components/prompt-form.tsx:62-70 | inserting fails exactly when the id is already taken; otherwise it adds the row and nothing else |
| Rows.InsertAnswer | prompterest/src/components/prompt-form.tsx:62-72 | the insert succeeds exactly when the store answers and the id is free; a store error is passed on, and a taken id gives the duplicate-key error |
| Rows.UploadAnswer | prompterest/src/components/prompt-form.tsx:50-54 | the upload succeeds exactly when the store answers and no object has that path; a store error is passed on, and a taken path gives the already-exists error |
| Rows.PublicUrlNamesPath | prompterest/src/components/prompt-form.tsx:57-59 | distinct paths get distinct public URLs |
| Routing.PathsNameThePrompt | prompterest/src/components/prompt-actions.tsx:45 | distinct prompts have distinct detail paths and distinct edit paths |
| Rating.StarRow | prompterest/src/components/rating-stars.tsx:80-96 | five stars, the filled ones forming a prefix: up to the hovered star while hovering, else up to the user's rating, else none |
| Rating.CaptionOf | prompterest/src/components/rating-stars.tsx:101 | the count is always shown; "No ratings" exactly when the average is missing or zero |
| Rating.RatingStars.constructor | prompterest/src/components/rating-stars.tsx:14-19 | the mounted state: the given average and count, no hover, no own rating, not loading |
| Rating.RatingStars.FetchUserRating | prompterest/src/components/rating-stars.tsx:24-41 | with a user and a stored rating the stars show that rating; otherwise nothing changes |
| Rating.RatingStars.HoverEnter | prompterest/src/components/rating-stars.tsx:85 | the hovered star is recorded |
| Rating.RatingStars.HoverLeave | prompterest/src/components/rating-stars.tsx:86 | the hover is cleared |
| Rating.RatingStars.HandleRate | prompterest/src/components/rating-stars.tsx:43-75 | without a user or on an error nothing is stored; on success the (prompt, user) rating is upserted and shown as the user's rating; not loading afterwards |
| Rating.RerateKeepsOneRow | prompterest/src/components/rating-stars.tsx:55-61 | rating the same prompt twice leaves one row per (prompt, user), with the later value |
| Actions.OwnerAfterIff | prompterest/src/components/prompt-actions.tsx:15-23 | the owner flag is set exactly when some identity check saw the prompt's creator |
| Actions.PromptActions.constructor | prompterest/src/components/prompt-actions.tsx:10-11 | mounted as not the owner, with no delete pending |
| Actions.PromptActions.CheckUser | prompterest/src/components/prompt-actions.tsx:15-23 | the flag becomes set when the signed-in user created the prompt and is never cleared |
| Actions.PromptActions.Render | prompterest/src/components/prompt-actions.tsx:48-66 | nothing is rendered exactly for a non-owner; the Delete button is disabled exactly while deleting |
| Actions.PromptActions.HandleDelete | prompterest/src/components/prompt-actions.tsx:25-41 | a declined confirmation changes nothing; on success the row is deleted, then the page refreshed, then the feed opened; on an error the table is unchanged, the button enabled again and nothing navigated; the ownership flag and its invariant are kept |
| Actions.PromptActions.HandleEdit | prompterest/src/components/prompt-actions.tsx:43-46 | the prompt's edit page is opened |
| Comments.CommentsOf | prompterest/src/components/comment-section.tsx:27-35 | exactly the prompt's comments, each as often as stored, newest first |
| Comments.AuthorLabel | prompterest/src/components/comment-section.tsx:72 | "User ", then the first six characters of the id (the whole id when it is shorter), then "..." |
| Comments.AuthorLabelIff | prompterest/src/components/comment-section.tsx:72 | two authors get the same label exactly when their ids agree on the first six characters |
| Comments.PostedCommentShown | prompterest/src/components/comment-section.tsx:42-53 | a posted comment is in its prompt's refetched thread, and every other prompt's thread is unchanged |
| Comments.CommentSection.constructor | prompterest/src/components/comment-section.tsx:15-18 | no comments shown, an empty draft, no user, not loading |
| Comments.CommentSection.LoadUser | prompterest/src/components/comment-section.tsx:23 | the user becomes the signed-in one (or none) |
| Comments.CommentSection.FetchComments | prompterest/src/components/comment-section.tsx:27-35 | on success the thread shown is the prompt's comments newest first; on error it is unchanged |
| Comments.CommentSection.Edit | prompterest/src/components/comment-section.tsx:89 | the draft becomes the typed text |
| Comments.CommentSection.HandleSubmit | prompterest/src/components/comment-section.tsx:37-55 | a blank draft or no user changes nothing; otherwise the untrimmed draft is appended under the user's id, and on success the draft is cleared and the thread refetched; not loading afterwards |
| Comments.CommentSection.Insert | prompterest/src/components/comment-section.tsx:42-53 | on an error the table, the draft and the thread are unchanged; on success the comment is appended, the draft cleared and the thread refetched |
| EditForm.DescriptionOrEmpty | prompterest/src/components/edit-prompt-form.tsx:18 | a missing description becomes the empty string; a present one is kept |
| EditForm.EditPromptForm.constructor | prompterest/src/components/edit-prompt-form.tsx:16-21 | the fields start at the prompt's title, description (or empty) and prompt text, with no error, not loading |
| EditForm.EditPromptForm.SetTitle | prompterest/src/components/edit-prompt-form.tsx:66 | the title becomes the typed text |
| EditForm.EditPromptForm.SetDescription | prompterest/src/components/edit-prompt-form.tsx:77 | the description becomes the typed text |
| EditForm.EditPromptForm.SetPromptText | prompterest/src/components/edit-prompt-form.tsx:89 | the prompt text becomes the typed text |
| EditForm.EditPromptForm.HandleSubmit | prompterest/src/components/edit-prompt-form.tsx:26-53 | on success the row is updated by id, then the page refreshed, then the detail page opened; on an error the table is unchanged and the error shown; not loading afterwards |
| EditForm.EditPromptForm.Cancel | prompterest/src/components/edit-prompt-form.tsx:104 | one step back in history, nothing saved |
| EditForm.SaveUntouched | prompterest/src/components/edit-prompt-form.tsx:17-39 | saving an untouched form returns the table unchanged exactly when the description was present; a missing one is stored as empty |
| EditForm.SaveTwice | prompterest/src/components/edit-prompt-form.tsx:32-39 | saving the same fields twice is saving them once |
| CreateForm.ExtensionShape | prompterest/src/components/prompt-form.tsx:46 | the part after the last dot: a dot-free suffix of the name, preceded by a dot unless it is the whole name |
| CreateForm.ExtensionAfterDot | prompterest/src/components/prompt-form.tsx:46-47 | whatever precedes a dot does not change the extension of what follows it |
| CreateForm.FileNameKeepsExtension | prompterest/src/components/prompt-form.tsx:46-48 | the stored file keeps the picked file's extension |
| CreateForm.FileNameNamesOwner | prompterest/src/components/prompt-form.tsx:47 | the stored file's name starts with the uploader's id and a dash |
| CreateForm.ErrorOf | prompterest/src/components/prompt-form.tsx:34-80 | no error exactly when published; a failed upload or insert shows the request's message, or the fallback text when it has none |
| CreateForm.InsertStep | prompterest/src/components/prompt-form.tsx:61-76 | publishes exactly when the insert succeeds, adding only the row; on failure the table is unchanged |
| CreateForm.UploadStep | prompterest/src/components/prompt-form.tsx:45-76 | a failed upload stores nothing; otherwise the image is stored at its path and the row is inserted with that path's public URL |
| CreateForm.Submit | prompterest/src/components/prompt-form.tsx:29-84 | no image or no user stores nothing; otherwise the upload step decides the outcome |
| CreateForm.SubmitPublishes | prompterest/src/components/prompt-form.tsx:34-72 | publishes exactly when there is an image and a user, the path is free, both requests succeed and the id is free; the new row carries the form's fields, the user and the image's URL |
| CreateForm.PublishedLinksUpload | prompterest/src/components/prompt-form.tsx:46-70 | a published row's image URL names the object that was uploaded |
| CreateForm.PromptForm.constructor | prompterest/src/components/prompt-form.tsx:9-15 | empty fields, no image, no preview, no error, not loading |
| CreateForm.PromptForm.SetTitle | prompterest/src/components/prompt-form.tsx:129 | the title becomes the typed text |
| CreateForm.PromptForm.SetDescription | prompterest/src/components/prompt-form.tsx:141 | the description becomes the typed text |
| CreateForm.PromptForm.SetPromptText | prompterest/src/components/prompt-form.tsx:154 | the prompt text becomes the typed text |
| CreateForm.PromptForm.HandleImageChange | prompterest/src/components/prompt-form.tsx:21-27 | a picked file becomes the image and its object URL the preview; no file changes nothing |
| CreateForm.PromptForm.HandleSubmit | prompterest/src/components/prompt-form.tsx:29-84 | the outcome, the bucket and the table are those `Submit` gives; the error is the outcome's; the feed opens after a refresh only when published; not loading afterwards |
| CreateForm.PromptForm.Publish | prompterest/src/components/prompt-form.tsx:45-76 | the outcome, the bucket and the table are those `UploadStep` gives; the feed opens after a refresh only when published |
| CreateForm.PromptForm.InsertPrompt | prompterest/src/components/prompt-form.tsx:61-76 | after an accepted upload the bucket holds the image at its path, and the outcome and the table are those `InsertStep` gives; the feed opens after a refresh only when published |
| Feed.SearchTerm | prompterest/src/app/page.tsx:15 | a term is applied exactly when `q` is present and not empty |
| Feed.RunQuery | prompterest/src/app/page.tsx:10-17 | exactly the rows the term admits (all rows without one), each as often as stored, newest first |
| Feed.Home | prompterest/src/app/page.tsx:19-57 | the failure message exactly on an error; the apology exactly when a term finds nothing; the empty-feed message exactly when no term finds nothing; otherwise the cards of the query's result |
| Feed.NoTermShowsAll | prompterest/src/app/page.tsx:10-15 | without a term the feed shows every prompt |
| Feed.EmptyViews | prompterest/src/app/page.tsx:30-46 | the empty-feed message exactly when there is no term and no prompt; the apology exactly when a term is set and no prompt admits it |
| Feed.AdmitsIgnoresCase | prompterest/src/app/page.tsx:16 | a term and its lower-case form admit the same prompts |
| Nav.SearchRoute | prompterest/src/components/navbar.tsx:37-40 | the feed alone exactly for a blank term, otherwise a route starting `/?q=` |
| Nav.SearchRouteTrims | prompterest/src/components/navbar.tsx:38 | searching for a term or for its trimmed form leads to the same route |
| Nav.SearchReachesFeed | prompterest/src/components/navbar.tsx:38 | the feed page reads back exactly the trimmed term as its search term, or none for a blank term |
| Nav.Navbar.constructor | prompterest/src/components/navbar.tsx:11 | no user known at mount |
| Nav.Navbar.OnAuthStateChange | prompterest/src/components/navbar.tsx:16-23 | the user is the session's user, or none without a session |
| Nav.Navbar.HandleSearch | prompterest/src/components/navbar.tsx:37-40 | exactly one route is pushed, the search route of the term |
| Nav.Navbar.PressKey | prompterest/src/components/navbar.tsx:58-62 | Enter searches for the box's text; any other key pushes nothing |
| Nav.Navbar.ClickSearch | prompterest/src/components/navbar.tsx:66-73 | the search button searches for the box's text |
| Nav.Navbar.HandleSignOut | prompterest/src/components/navbar.tsx:31-34 | one refresh, no navigation |

## Left out

- Rendering, styling, icons and the loading spinners are left out. The model
  keeps only the state that decides what is shown, as the `View`, `Caption`
  and `StarRow` values.
- Asynchrony is left out. Every handler runs to completion with the awaited
  answers as parameters, so interleavings of two pending handlers (for
  example a re-render between `setLoading(true)` and the reply) are not
  modelled.
- `confirm` and `alert` are left out. The confirmation is a boolean parameter
  of `HandleDelete`, and alerts are not modelled. `console.error` is left out.
- The identity source and sign-out are left out. `getUser`,
  `onAuthStateChange` and `signOut` are parameters or are not modelled at
  all; `HandleSignOut` records only the refresh that follows.
- Store-assigned values are parameters: row ids, `created_at` times and the
  generated `Math.random` token of an image's file name.
  `URL.createObjectURL` is a parameter of `HandleImageChange`.
- The store's query language is left out. `RunQuery` models
  `.or(title.ilike.%q%,description.ilike.%q%)` as intended. It does not model
  a term containing reserved characters such as `,`, `(`, `)`, `.`, `%`, `_`
  or `*` being read as filter syntax or as a wildcard.
- Text.Lower: lower-cases ASCII letters only, where the store's ILIKE folds
  all of Unicode.
- Text.Trim: strips the JavaScript whitespace set, taken per character. The
  UTF-16 code units of JavaScript strings are not modelled: `Comments.AuthorLabel`
  takes six characters where `slice(0, 6)` takes six code units.
- Uri.EncodeURIComponent: characters are Unicode scalar values, so the
  `URIError` that JavaScript raises on a lone surrogate cannot arise.
- The decoding of the search parameter is left out. The page is given `q`
  already decoded; `Nav.QueryOf` models that decoding only for routes built
  by the search box. It does not model `+` as a space, which the encoder
  never emits.
- Rating.CaptionOf: the average is a real number. Floating point,
  `toFixed(1)` rounding and NaN (also falsy in JavaScript) are not modelled.
- The rating average and count are not aggregated from the ratings table.
  The component never recomputes them, and whatever computes its props is
  not part of this model.
- The detail page, the edit page (including its server-side redirect of
  non-creators), the submit page and the layout are not part of this model.
  Neither are the prompt card and the copy button, which only render and copy
  text.
- Row-level security or any other server-side rule of the store is not part
  of this model. The store accepts every write the components issue, except
  for the duplicate-key and existing-object collisions modelled in
  `InsertAnswer` and `UploadAnswer`.
- The periodic revalidation of the feed (`revalidate = 60`) is left out.
- Feed.RunQuery: the scan of the `prompts` table is a parameter, any listing
  of the table's rows. The model does not tie it to `Rows.Db.prompts`, the
  map the forms write.
- Rows.PublicUrl: the public address is the path appended as it is.
  `getPublicUrl` passes the whole address through `encodeURI`, so a file
  extension with a space or a non-ASCII character is stored percent-encoded
  in `image_url`. Because `encodeURI` is injective, `PublicUrlNamesPath` and
  `PublishedLinksUpload` hold of it all the same.
- The browser's `required` attribute on the title and prompt-text inputs
  (and on the comment box) is not modelled as validation. The two forms'
  `HandleSubmit` instead require non-empty title and prompt text, because
  the browser never submits such a form otherwise.
