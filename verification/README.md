# Football Social pages, modelled in Dafny

Football Social is a small React front end over a hosted table service with
two tables, `post` and `comment`. It has no engine of its own. The logic
worth modelling sits in three page components:

- **Home feed** (`homefeed.jsx`). The page fetches all posts once. It then
  derives the displayed list from three inputs: the posts, a search term and
  a sort choice. The search is a case-insensitive substring test on the
  title. The sort is stable and descending, by upvotes or by creation time.
- **Post detail** (`postdetail.jsx`). The page holds `post`, `comments`,
  `newComment`, `loading` and `error`, and has four handlers:
  - load: fetch the post, then its comments;
  - upvote: optimistic +1, and -1 when the write fails;
  - add comment: optimistic append, rolled back by matching content;
  - delete: comments first, then the post; the page navigates home only if
    both deletes succeed.

  It also picks how to show the post's media: a video when the URL ends in
  a video extension, an image otherwise.
- **Edit form** (`posteditform.jsx`). The page keeps a local copy of the
  post's row. Each field change writes one field by name. Submit sends the
  whole copy back.

Each page is a module holding an immutable state record. Each handler is a
pure function that takes the outcome of every service call it makes as a
parameter (`Response<T>`: `Ok(value)` or `Err(error)`). It returns a
`Step`: the new state plus the ordered list of effects, where an effect is
a service request or a navigation. An async handler is split into the step
that issues the call and the step that handles its outcome. This lets in-flight
calls interleave with other steps; `RunUpvotes` runs any interleaving of
upvote clicks and their settlements. Shared pieces live
in their own modules:

- `Strings`: ASCII lower-casing, `includes`, `endsWith`, and
  `split('.').pop()`.
- `Seqs`: the order-preserving `filter`.
- `StableSort`: the stable descending sort.
- `Schema`: rows and entities.
- `Service`: requests, responses and effects.

Some behaviours of the code are surprising, and in places the code's own
text suggests they were not intended. The model follows the code as written:

- A failed delete stores a plain string in `error`, so the page shows its
  error view (`postdetail.jsx:124`, `:138`) rather than the post. The view
  prints `error.message`, and a string has no `message`, so the fixed text
  "Failed to delete post. Please try again." written at `postdetail.jsx:124`
  is never shown (`PostDetail.FailedDeleteShowsErrorView`).
- The comment handler's failure path is commented as a rollback
  (`postdetail.jsx:81`), but it removes every comment with the submitted
  text, not only the optimistic one (`postdetail.jsx:82-84`,
  `PostDetail.CommentRollback`).
- The upvote handler's failure path is also commented as a rollback
  (`postdetail.jsx:61`). It does undo the local +1, but the write sends the
  value from the last render plus one, not the optimistic value. Two clicks
  from one render both write N+1, while the page shows N+2
  (`PostDetail.LostIncrement`).
- When the comment fetch fails after the post fetch succeeded, the post set
  at `postdetail.jsx:24` stays set, next to the error.
- A failed edit submit stores its message, and the page then renders only
  that message (`posteditform.jsx:55`, `:68`). The edits stay in the copy
  but are no longer shown.

## Model

| member | source | states |
|---|---|---|
| `Strings.Lower` | football-app/src/pages/homefeed.jsx:40-42 | lower-casing keeps the length and maps each character through ASCII case folding |
| `Strings.Includes` | football-app/src/pages/homefeed.jsx:42 | the left-to-right scan of `includes` succeeds exactly when the needle occurs at some position of the text |
| `Strings.AfterLastDot` | football-app/src/pages/postdetail.jsx:154 | `split('.').pop()` is the longest dot-free suffix: a suffix, free of dots, and preceded by a dot unless it is the whole text |
| `Strings.AfterLastDotAt` | football-app/src/pages/postdetail.jsx:154 | when position k holds the last dot, the popped segment is exactly the text after k |
| `Strings.LowerAfterLastDot` | football-app/src/pages/postdetail.jsx:133-154 | lower-casing a URL and popping the segment after its last dot give the same result in either order |
| `Strings.DotSuffixAfterLastDot` | football-app/src/pages/postdetail.jsx:133-154 | a text whose lower-cased form ends in a dot and a dot-free e has e, up to case, after its last dot |
| `Strings.EndsWithDotAndAfterLastDot` | football-app/src/pages/postdetail.jsx:133-154 | a text with a dot ends, up to case, with a dot and its popped segment |
| `Seqs.Filter` | football-app/src/pages/homefeed.jsx:41-43 | the filter is no longer than its input; it keeps only input elements that pass, and keeps every one that passes |
| `Seqs.FilterCounts` | football-app/src/pages/postdetail.jsx:82-84 | every passing value keeps all its copies, and every other value has none |
| `Seqs.FilterIsSubsequence` | football-app/src/pages/homefeed.jsx:41-43 | the filter keeps the relative order of what it keeps |
| `Seqs.FilterIdentity` | football-app/src/pages/postdetail.jsx:82-84 | the filter returns its input unchanged if and only if every element passes |
| `Seqs.FilterConcat` | football-app/src/pages/postdetail.jsx:82-84 | filtering a concatenation is the concatenation of the filtered parts |
| `StableSort.SortDescending` | football-app/src/pages/homefeed.jsx:46-50 | the sort is a permutation of its input and is non-increasing in the key |
| `StableSort.InsertSorted` | football-app/src/pages/homefeed.jsx:46-50 | inserting into a non-increasing list keeps it non-increasing |
| `StableSort.SortDescendingStable` | football-app/src/pages/homefeed.jsx:46-50 | for every key value, the elements with that key keep their input order |
| `StableSort.SortedStableUnique` | football-app/src/pages/homefeed.jsx:46-50 | two non-increasing lists that agree on the order within every key are equal |
| `StableSort.SortDescendingIsTheStableSort` | football-app/src/pages/homefeed.jsx:46-50 | any non-increasing, per-key order-preserving arrangement of the input is the sort's result |
| `HomeFeed.Derive` | football-app/src/pages/homefeed.jsx:36-53 | the list holds only posts matching the term (all posts for an empty term) as a permutation of the search result; it is non-increasing in upvotes for "upvotes" and in creation time for "newest"; any other sort value keeps the search order |
| `HomeFeed.FilterByTitle` | football-app/src/pages/homefeed.jsx:39-44 | an empty term keeps the list as it is; any other term keeps only posts whose lower-cased title contains the lower-cased term, and keeps every such post |
| `HomeFeed.SortFeed` | football-app/src/pages/homefeed.jsx:46-50 | the sort keeps the same posts with the same copies; "upvotes" orders them non-increasing by upvotes, "newest" by creation time, and any other value leaves the order alone |
| `HomeFeed.FilterByTitleExact` | football-app/src/pages/homefeed.jsx:39-44 | a non-empty term keeps exactly the posts whose lower-cased title contains the lower-cased term, every copy, in their original order |
| `HomeFeed.EmptyTermShortcut` | football-app/src/pages/homefeed.jsx:39-44 | skipping the filter for an empty term gives the same list as filtering by it |
| `HomeFeed.DeriveStable` | football-app/src/pages/homefeed.jsx:46-50 | posts with equal upvotes (or equal creation time) keep their search order |
| `HomeFeed.UpvoteOrderIsUnique` | football-app/src/pages/homefeed.jsx:46-47 | the upvote ordering is the only stable non-increasing arrangement of the search result |
| `HomeFeed.OnPostsFetched` | football-app/src/pages/homefeed.jsx:15-31 | success stores the rows and re-derives the list from them; failure stores the error and keeps posts and list; loading ends on both paths; the term and sort are never touched, and a reachable state stays reachable |
| `HomeFeed.SetSearchTerm` | football-app/src/pages/homefeed.jsx:36-53 | a new term always leaves the list re-derived (synced) and never touches the canonical posts, the sort or the flags |
| `HomeFeed.SetSortType` | football-app/src/pages/homefeed.jsx:36-53 | a new sort always leaves the list re-derived (synced) and never touches the canonical posts, the term or the flags |
| `HomeFeed.Render` | football-app/src/pages/homefeed.jsx:68-87 | the loading line shows exactly while loading and the error line whenever an error is stored, independently; "No posts found." shows exactly when neither does and the list is empty; otherwise the cards of the listed posts, and no card at all while loading or failed |
| `HomeFeed.Initial` | football-app/src/pages/homefeed.jsx:8-13 | the first render has no posts, an empty term, "newest", loading and no error, and is already a reachable state (its empty list is the derivation of no posts) |
| `HomeFeed.FetchBegin` | football-app/src/pages/homefeed.jsx:15-21 | mounting issues exactly one request, all posts newest first, and changes nothing yet |
| `HomeFeed.RenderPrecedence` | football-app/src/pages/homefeed.jsx:68-87 | when loading and an error never coincide (as the page keeps them), only the loading line shows, else only the error line, else "No posts found." for an empty list, else one card per listed post, which in a synced state is the derived list |
| `PostDetail.FetchPostDetails` | football-app/src/pages/postdetail.jsx:14-41 | the requests issued are exactly the post query, followed by the comment query only when the post arrived; a post error sets the error and leaves post and comments alone; a comment error keeps the post; loading is false on every path |
| `PostDetail.Initial` | football-app/src/pages/postdetail.jsx:8-12 | the first render has no post, no comments, an empty box, loading and no error, so only the loading view can show |
| `PostDetail.OnPostFetched` | football-app/src/pages/postdetail.jsx:16-24 | a failed post query stores the error, ends loading and asks for nothing more; a post is stored and the comments are asked for, with loading still on |
| `PostDetail.OnCommentsFetched` | football-app/src/pages/postdetail.jsx:27-39 | the comments or the error are stored, the post stays, nothing more is asked for, and loading ends |
| `PostDetail.LoadShowsPost` | football-app/src/pages/postdetail.jsx:14-41 | from the first render, a successful load shows the fetched post, its media and its comments |
| `PostDetail.UpvoteClicked` | football-app/src/pages/postdetail.jsx:47-56 | a click raises the local count by one, changes nothing else, and writes the rendered count plus one |
| `PostDetail.UpvoteSettled` | football-app/src/pages/postdetail.jsx:57-63 | success changes nothing; failure lowers the current local count by exactly one and changes nothing else |
| `PostDetail.UpvoteRollback` | football-app/src/pages/postdetail.jsx:47-64 | a click followed by its failure restores the page state exactly |
| `PostDetail.UpvoteCount` | football-app/src/pages/postdetail.jsx:47-64 | in any interleaving, the local count is the loaded value plus clicks minus failed writes, and the rest of the page is unchanged |
| `PostDetail.StaleSnapshotWrites` | football-app/src/pages/postdetail.jsx:52-56 | clicks from one rendered value n issue one write each, and every write sets n + 1 |
| `PostDetail.LostIncrement` | football-app/src/pages/postdetail.jsx:49-56 | two clicks from one render, both written successfully, show two more votes but write only one more |
| `PostDetail.CommentClicked` | football-app/src/pages/postdetail.jsx:66-76 | the draft `{post_id, content}` is appended after the unchanged earlier comments, the box is cleared, and the same draft is inserted |
| `PostDetail.CommentSettled` | football-app/src/pages/postdetail.jsx:79-85 | success changes nothing; failure removes every comment with the submitted text and keeps all copies of the others, in order |
| `PostDetail.CommentRollback` | football-app/src/pages/postdetail.jsx:66-86 | after a failed submit the list is back to its earlier value exactly when no earlier comment had the same text |
| `PostDetail.DeleteClicked` | football-app/src/pages/postdetail.jsx:93-103 | a declined confirmation changes nothing and issues nothing; a confirmed one sets loading and deletes the comments by post id |
| `PostDetail.Abort` | football-app/src/pages/postdetail.jsx:122-127 | any failed delete stores the fixed message "Failed to delete post. Please try again." and ends loading, changing nothing else |
| `PostDetail.OnCommentsDeleted` | football-app/src/pages/postdetail.jsx:100-114 | a failed comment delete aborts and issues nothing more; a successful one issues the post delete and changes nothing |
| `PostDetail.OnPostDeleted` | football-app/src/pages/postdetail.jsx:111-127 | a failed post delete aborts; a successful one ends loading and moves home |
| `PostDetail.HandleDelete` | football-app/src/pages/postdetail.jsx:93-129 | a confirmed delete issues exactly: the comment delete, then the post delete only if that succeeded, then the move home only if both succeeded; any failure stores the fixed message; post and comments are untouched and loading ends |
| `PostDetail.FailedDeleteShowsErrorView` | football-app/src/pages/postdetail.jsx:122-138 | after any failed delete the page shows the error view with empty detail, not the post |
| `PostDetail.VideoHasExtension` | football-app/src/pages/postdetail.jsx:132-135 | a URL matching the video pattern (ASCII case ignored) has `mp4`, `webm` or `ogg`, in any case, after its last dot |
| `PostDetail.ExtensionIsVideo` | football-app/src/pages/postdetail.jsx:132-135 | a URL with a dot and one of those extensions after the last dot matches the pattern |
| `PostDetail.IsVideo` | football-app/src/pages/postdetail.jsx:132-135 | the video test holds if and only if the URL has a dot and the text after the last dot is `mp4`, `webm` or `ogg`, ignoring ASCII case |
| `PostDetail.MediaFor` | football-app/src/pages/postdetail.jsx:151-160 | no media for an empty URL; otherwise a video exactly when the test holds, typed `video/` plus the URL's own text after its last dot (case kept), which lower-cases to a video extension; otherwise an image titled by the post |
| `PostDetail.Render` | football-app/src/pages/postdetail.jsx:137-176 | loading view exactly while loading, then the error view exactly when an error is set, printing a service error's message and nothing for the delete handler's string, else the post with its media and comment texts |
| `PostDetail.ErrorDetail` | football-app/src/pages/postdetail.jsx:138 | the error view prints a service error's message; the delete handler's plain string has no message, so nothing is printed for it |
| `PostEditForm.Initial` | football-app/src/pages/posteditform.jsx:10-16 | the first copy has exactly title, content and image_url, all empty, with no loading and no error |
| `PostEditForm.FetchBegin` | football-app/src/pages/posteditform.jsx:19-26 | mounting sets loading and requests the post by id |
| `PostEditForm.OnFetched` | football-app/src/pages/posteditform.jsx:28-35 | success replaces the copy with the fetched row; failure keeps the copy and stores "Failed to fetch post"; loading ends |
| `PostEditForm.HandleChange` | football-app/src/pages/posteditform.jsx:62-65 | the named field gets the value, every other field keeps its value, and no field is lost |
| `PostEditForm.EditsKeepUntouched` | football-app/src/pages/posteditform.jsx:62-65 | after any edits, untouched fields are unchanged, every touched field holds the value of its last edit, and the field set grows only by touched names |
| `PostEditForm.SubmitBegin` | football-app/src/pages/posteditform.jsx:41-49 | submit sets loading and writes the whole local copy to the row with the page's id |
| `PostEditForm.OnSubmitted` | football-app/src/pages/posteditform.jsx:51-59 | success navigates to `/post/{id}`; failure stores "Failed to update post"; the copy is kept and loading ends |
| `PostEditForm.UnchangedSubmitWritesFetchedRow` | football-app/src/pages/posteditform.jsx:18-49 | fetching then submitting without edits writes back exactly the fetched row |
| `PostEditForm.EditedSubmitPayload` | football-app/src/pages/posteditform.jsx:41-65 | after edits, the payload is the fetched row with each touched field holding its last edit and every other field as fetched |
| `PostEditForm.Render` | football-app/src/pages/posteditform.jsx:67-107 | loading first, then the error text, then the form showing title, content and image_url |
| `PostEditForm.FetchFailureKeepsPlaceholder` | football-app/src/pages/posteditform.jsx:28-34 | a failed fetch keeps the empty placeholder and shows "Failed to fetch post" |
| `PostEditForm.SubmitFailureShowsError` | football-app/src/pages/posteditform.jsx:54-68 | a failed update keeps the edited copy and shows "Failed to update post" instead of the form |
| `Schema.PostRow` | football-app/src/pages/posteditform.jsx:22-29 | the fetched `post` row has exactly the columns id, title, content, image_url, upvotes and created_at, each holding the post's value |

## Left out

- Service client calls are left out. Each call is an abstract `Request`, and its result is a `Response` parameter. The service's ordering of the feed query (`homefeed.jsx:21`) and the one-row check of `.single()` are the service's behaviour. The model takes the rows as given.
- React scheduling is left out. A search or sort change re-derives the list in the same step, so the one render with a stale list in between is not modelled. Late results arriving after the page unmounts are also not modelled. Both are event-loop concurrency. Handlers are explicit issue and settle steps instead.
- Load is one transition (`FetchPostDetails`) built from its two settle steps. Interleaving a load with other handlers is not explored. The model only shows that a load replaces the post.
- `window.confirm` is a boolean parameter and `navigate` is an emitted effect. `console.error` is dropped, and so is all markup and styling beyond which view is shown.
- Timestamps are integers. The model does not cover parsing `created_at` with `new Date` (including dates that compare as NaN) or `moment().fromNow()`. A feed card carries the raw timestamp.
- Strings.Lower: folds ASCII letters only, while the feed search uses Unicode `toLowerCase`. Titles with non-ASCII capitals can match differently. The video pattern has no unicode flag, so ASCII folding is exact there.
- Rows are assumed to have no null columns: every post column is a string or an integer. The create and edit forms only ever write strings. A null title would make the feed search throw (`homefeed.jsx:42`), and a null image URL is treated like an empty one (`postdetail.jsx:151`). Neither case is modelled.
- Numbers are unbounded integers. JavaScript's floating-point limits for very large counts are not modelled.
- `postcreateform.jsx` (one insert, then navigate), `app.jsx` (the route table) and `header.jsx` (two links) hold no logic of their own and are not modelled.
- `PostDetail.EditClicked` (navigate to the edit route) and `PostDetail.TypeComment` (the comment box's change handler) are modelled without contracts. Each is a single assignment or navigation.
