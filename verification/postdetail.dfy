/** The post page: one post and its comments, an optimistic upvote, an
    optimistic comment, and a two-step cascade delete. Each awaited call is
    split into the step that issues it and the step that handles its
    outcome, so in-flight calls can interleave. */
module PostDetail {
  import opened Schema
  import opened Service
  import opened Strings
  import opened Seqs

  /** What `error` holds: a service error from loading, or the fixed text
      the delete handler stores. */
  datatype PageError = Failure(cause: ServiceError) | Message(text: string)

  datatype State = State(
    post: Option<Post>,
    comments: seq<Comment>,
    newComment: string,
    loading: bool,
    error: Option<PageError>)

  const DeleteFailed := "Failed to delete post. Please try again."

  /** The page as first rendered: nothing loaded yet, so only the loading
      view can show. */
  function Initial(): (s: State)
    ensures s.post.None? && s.comments == [] && s.newComment == ""
    ensures s.loading && s.error.None?
    ensures Renderable(s)
  {
    State(None, [], "", true, None)
  }

  /** The normal view dereferences `post`; it is shown only when one is loaded. */
  predicate Renderable(s: State) {
    !s.loading && s.error.None? ==> s.post.Some?
  }

  // ---- load ----

  /** The post query settled: an error is stored and loading ends; a post
      is stored and its comments are asked for, with loading still on. */
  function OnPostFetched(s: State, postId: string, response: Response<Post>): (r: Step<State>)
    ensures response.Err? ==>
      r.state == s.(error := Some(Failure(response.error)), loading := false) && r.effects == []
    ensures response.Ok? ==>
      r.state == s.(post := Some(response.value)) &&
      r.effects == [Call(SelectCommentsByPostId(postId))]
  {
    match response
    case Err(e) => Step(s.(error := Some(Failure(e)), loading := false), [])
    case Ok(p) => Step(s.(post := Some(p)), [Call(SelectCommentsByPostId(postId))])
  }

  /** The comment query settled: the comments or the error are stored, the
      post already stored stays, and loading ends either way. */
  function OnCommentsFetched(s: State, response: Response<seq<Comment>>): (r: Step<State>)
    ensures r.effects == [] && !r.state.loading && r.state.post == s.post
    ensures response.Err? ==>
      r.state == s.(error := Some(Failure(response.error)), loading := false)
    ensures response.Ok? ==> r.state == s.(comments := response.value, loading := false)
  {
    match response
    case Err(e) => Step(s.(error := Some(Failure(e)), loading := false), [])
    case Ok(cs) => Step(s.(comments := cs, loading := false), [])
  }

  /** Load the post, and only if that succeeded, its comments. A post that
      arrived stays set even when the comments then fail. */
  function FetchPostDetails(
    s: State, postId: string,
    postResponse: Response<Post>, commentsResponse: Response<seq<Comment>>): (r: Step<State>)
    ensures |r.effects| >= 1 && r.effects[0] == Call(SelectPostById(postId))
    ensures Call(SelectCommentsByPostId(postId)) in r.effects <==> postResponse.Ok?
    ensures r.effects ==
      [Call(SelectPostById(postId))] + (if postResponse.Ok? then [Call(SelectCommentsByPostId(postId))] else [])
    ensures !r.state.loading
    ensures Renderable(r.state)
    ensures r.state.newComment == s.newComment
    ensures postResponse.Err? ==>
      r.state.error == Some(Failure(postResponse.error)) &&
      r.state.post == s.post && r.state.comments == s.comments
    ensures postResponse.Ok? ==> r.state.post == Some(postResponse.value)
    ensures postResponse.Ok? && commentsResponse.Ok? ==>
      r.state.comments == commentsResponse.value && r.state.error == s.error
    ensures postResponse.Ok? && commentsResponse.Err? ==>
      r.state.comments == s.comments && r.state.error == Some(Failure(commentsResponse.error))
  {
    var fetched := OnPostFetched(s, postId, postResponse);
    var issued := [Call(SelectPostById(postId))];
    if postResponse.Err? then Step(fetched.state, issued)
    else
      var done := OnCommentsFetched(fetched.state, commentsResponse);
      Step(done.state, issued + fetched.effects + done.effects)
  }

  // ---- upvote ----

  function Upvotes(s: State): int
    requires s.post.Some?
  {
    s.post.value.upvotes
  }

  /** `s` with the local counter set to `n` and nothing else changed. */
  function WithUpvotes(s: State, n: int): State
    requires s.post.Some?
  {
    s.(post := Some(s.post.value.(upvotes := n)))
  }

  /** Click: the local counter goes up at once; the write sends the value the
      page last rendered, plus one. */
  function UpvoteClicked(s: State, postId: string, renderedUpvotes: int): (r: Step<State>)
    requires s.post.Some?
    ensures r.state == WithUpvotes(s, Upvotes(s) + 1)
    ensures r.effects == [Call(UpdateUpvotesById(postId, renderedUpvotes + 1))]
  {
    Step(s.(post := Some(s.post.value.(upvotes := s.post.value.upvotes + 1))),
         [Call(UpdateUpvotesById(postId, renderedUpvotes + 1))])
  }

  /** The write settled: success changes nothing, failure takes one off the
      current local counter. */
  function UpvoteSettled(s: State, response: Response<()>): (r: Step<State>)
    requires s.post.Some?
    ensures r.effects == []
    ensures response.Ok? ==> r.state == s
    ensures response.Err? ==> r.state == WithUpvotes(s, Upvotes(s) - 1)
  {
    match response
    case Ok(_) => Step(s, [])
    case Err(_) => Step(s.(post := Some(s.post.value.(upvotes := s.post.value.upvotes - 1))), [])
  }

  /** A click followed by its failure restores the state exactly. */
  lemma UpvoteRollback(s: State, postId: string, renderedUpvotes: int, e: ServiceError)
    requires s.post.Some?
    ensures UpvoteSettled(UpvoteClicked(s, postId, renderedUpvotes).state, Err(e)).state == s
  {
  }

  /** One event of the upvote button: a click (with the count the page showed
      when it was clicked) or the settling of one earlier write. */
  datatype UpvoteEvent = Click(renderedUpvotes: int) | Settle(response: Response<()>)

  function Clicks(events: seq<UpvoteEvent>): nat {
    if |events| == 0 then 0 else (if events[0].Click? then 1 else 0) + Clicks(events[1..])
  }

  function Failures(events: seq<UpvoteEvent>): nat {
    if |events| == 0 then 0
    else (if events[0].Settle? && events[0].response.Err? then 1 else 0) + Failures(events[1..])
  }

  /** Runs any interleaving of clicks and settlements. */
  function RunUpvotes(s: State, postId: string, events: seq<UpvoteEvent>): (r: Step<State>)
    requires s.post.Some?
    ensures r.state.post.Some?
    decreases |events|
  {
    if |events| == 0 then Step(s, [])
    else
      var first :=
        match events[0]
        case Click(n) => UpvoteClicked(s, postId, n)
        case Settle(response) => UpvoteSettled(s, response);
      var rest := RunUpvotes(first.state, postId, events[1..]);
      Step(rest.state, first.effects + rest.effects)
  }

  /** Whatever the interleaving, the local counter is the loaded value plus
      the clicks minus the failed writes, and nothing else in the page changes. */
  lemma {:induction false} UpvoteCount(s: State, postId: string, events: seq<UpvoteEvent>)
    requires s.post.Some?
    ensures RunUpvotes(s, postId, events).state ==
      WithUpvotes(s, Upvotes(s) + Clicks(events) - Failures(events))
    decreases |events|
  {
    if |events| > 0 {
      var first :=
        match events[0]
        case Click(n) => UpvoteClicked(s, postId, n)
        case Settle(response) => UpvoteSettled(s, response);
      UpvoteCount(first.state, postId, events[1..]);
    }
  }

  /** Clicks made from one rendered snapshot `n` all write `n + 1`: the
      service ends at `n + 1` however many of them succeed, while the local
      counter counts every click. */
  lemma {:induction false} StaleSnapshotWrites(s: State, postId: string, events: seq<UpvoteEvent>, n: int)
    requires s.post.Some?
    requires forall i :: 0 <= i < |events| && events[i].Click? ==> events[i].renderedUpvotes == n
    ensures |RunUpvotes(s, postId, events).effects| == Clicks(events)
    ensures forall i :: 0 <= i < |RunUpvotes(s, postId, events).effects| ==>
      RunUpvotes(s, postId, events).effects[i] == Call(UpdateUpvotesById(postId, n + 1))
    decreases |events|
  {
    if |events| > 0 {
      var first :=
        match events[0]
        case Click(m) => UpvoteClicked(s, postId, m)
        case Settle(response) => UpvoteSettled(s, response);
      assert forall i :: 0 <= i < |events[1..]| && events[1..][i].Click? ==> events[1..][i].renderedUpvotes == n by {
        forall i | 0 <= i < |events[1..]| ensures events[1..][i] == events[i + 1] { }
      }
      StaleSnapshotWrites(first.state, postId, events[1..], n);
    }
  }

  /** The counts of a sequence that starts with `e`. */
  lemma CountsCons(e: UpvoteEvent, rest: seq<UpvoteEvent>)
    ensures Clicks([e] + rest) == (if e.Click? then 1 else 0) + Clicks(rest)
    ensures Failures([e] + rest) == (if e.Settle? && e.response.Err? then 1 else 0) + Failures(rest)
  {
    assert ([e] + rest)[1..] == rest;
  }

  /** Two clicks from the same render, both written successfully: the page
      shows two more votes, yet both writes store only one more. */
  lemma LostIncrement(s: State, postId: string)
    requires s.post.Some?
    ensures
      var events := [Click(Upvotes(s)), Click(Upvotes(s)), Settle(Ok(())), Settle(Ok(()))];
      var r := RunUpvotes(s, postId, events);
      Upvotes(r.state) == Upvotes(s) + 2 &&
      r.effects == [Call(UpdateUpvotesById(postId, Upvotes(s) + 1)), Call(UpdateUpvotesById(postId, Upvotes(s) + 1))]
  {
    var click, done := Click(Upvotes(s)), Settle(Ok(()));
    var events := [click, click, done, done];
    CountsCons(done, []);
    assert [done] + [] == [done];
    CountsCons(done, [done]);
    assert [done] + [done] == [done, done];
    CountsCons(click, [done, done]);
    assert [click] + [done, done] == [click, done, done];
    CountsCons(click, [click, done, done]);
    assert [click] + [click, done, done] == events;
    UpvoteCount(s, postId, events);
    StaleSnapshotWrites(s, postId, events, Upvotes(s));
    var r := RunUpvotes(s, postId, events);
    assert r.effects[0] == r.effects[1] == Call(UpdateUpvotesById(postId, Upvotes(s) + 1));
  }

  // ---- comments ----

  /** The textarea's change handler. */
  function TypeComment(s: State, text: string): State {
    s.(newComment := text)
  }

  /** Click: append the draft (no id yet) at the end, clear the box, insert it. */
  function CommentClicked(s: State, postId: string): (r: Step<State>)
    ensures |r.state.comments| == |s.comments| + 1
    ensures r.state.comments[..|s.comments|] == s.comments
    ensures r.state.comments[|s.comments|] == Comment(None, postId, s.newComment)
    ensures r.state == s.(comments := r.state.comments, newComment := "")
    ensures r.effects == [Call(InsertComment(Comment(None, postId, s.newComment)))]
  {
    var draft := Comment(None, postId, s.newComment);
    Step(s.(comments := s.comments + [draft], newComment := ""), [Call(InsertComment(draft))])
  }

  function ContentIsNot(text: string): Comment -> bool {
    (c: Comment) => c.content != text
  }

  /** The insert of text `submitted` settled: on failure every comment with
      that text goes, whatever its origin, and the rest keep their order. */
  function CommentSettled(s: State, submitted: string, response: Response<()>): (r: Step<State>)
    ensures r.effects == []
    ensures response.Ok? ==> r.state == s
    ensures r.state == s.(comments := r.state.comments)
    ensures response.Err? ==>
      (forall i :: 0 <= i < |r.state.comments| ==> r.state.comments[i].content != submitted) &&
      (forall c :: multiset(r.state.comments)[c] == (if c.content != submitted then multiset(s.comments)[c] else 0)) &&
      IsSubsequence(r.state.comments, s.comments)
  {
    match response
    case Ok(_) => Step(s, [])
    case Err(_) =>
      FilterCounts(s.comments, ContentIsNot(submitted));
      FilterIsSubsequence(s.comments, ContentIsNot(submitted));
      Step(s.(comments := Filter(s.comments, ContentIsNot(submitted))), [])
  }

  /** A failed comment puts the list back exactly when no earlier comment
      had the same text; otherwise those earlier comments vanish too. */
  lemma CommentRollback(s: State, postId: string, e: ServiceError)
    ensures
      var after := CommentSettled(CommentClicked(s, postId).state, s.newComment, Err(e)).state;
      after == s.(newComment := "") <==>
      forall i :: 0 <= i < |s.comments| ==> s.comments[i].content != s.newComment
  {
    var keep := ContentIsNot(s.newComment);
    var draft := Comment(None, postId, s.newComment);
    FilterConcat(s.comments, [draft], keep);
    assert Filter([draft], keep) == [];
    FilterIdentity(s.comments, keep);
  }

  // ---- edit ----

  /** The edit button only navigates. */
  function EditClicked(s: State, postId: string): Step<State> {
    Step(s, [Navigate(EditPath(postId))])
  }

  // ---- delete ----

  /** Click: a declined confirmation does nothing; otherwise the page shows
      the loading view and deletes the post's comments first. */
  function DeleteClicked(s: State, postId: string, confirmed: bool): (r: Step<State>)
    ensures !confirmed ==> r == Step(s, [])
    ensures confirmed ==> r.state == s.(loading := true)
    ensures confirmed ==> r.effects == [Call(DeleteCommentsByPostId(postId))]
  {
    if !confirmed then Step(s, [])
    else Step(s.(loading := true), [Call(DeleteCommentsByPostId(postId))])
  }

  /** Any failure of the delete: the fixed message is stored and loading ends. */
  function Abort(s: State): (r: State)
    ensures r == s.(error := Some(Message(DeleteFailed)), loading := false)
  {
    s.(error := Some(Message(DeleteFailed)), loading := false)
  }

  /** The comment delete settled: failure aborts; success deletes the post. */
  function OnCommentsDeleted(s: State, postId: string, response: Response<()>): (r: Step<State>)
    ensures response.Err? ==> r.state == Abort(s) && r.effects == []
    ensures response.Ok? ==> r.state == s && r.effects == [Call(DeletePostById(postId))]
  {
    match response
    case Err(_) => Step(Abort(s), [])
    case Ok(_) => Step(s, [Call(DeletePostById(postId))])
  }

  /** The post delete settled: failure aborts; success goes home. */
  function OnPostDeleted(s: State, response: Response<()>): (r: Step<State>)
    ensures response.Err? ==> r.state == Abort(s) && r.effects == []
    ensures response.Ok? ==> r.state == s.(loading := false) && r.effects == [Navigate(HomePath)]
  {
    match response
    case Err(_) => Step(Abort(s), [])
    case Ok(_) => Step(s.(loading := false), [Navigate(HomePath)])
  }

  /** The whole handler, given the confirmation and the outcome of each call
      it may make (an outcome for a call never made is ignored). */
  function HandleDelete(
    s: State, postId: string, confirmed: bool,
    commentsResponse: Response<()>, postResponse: Response<()>): (r: Step<State>)
    ensures !confirmed ==> r == Step(s, [])
    ensures confirmed ==> |r.effects| >= 1 && r.effects[0] == Call(DeleteCommentsByPostId(postId))
    ensures Call(DeletePostById(postId)) in r.effects <==> confirmed && commentsResponse.Ok?
    ensures Call(DeletePostById(postId)) in r.effects ==> r.effects[1] == Call(DeletePostById(postId))
    ensures Navigate(HomePath) in r.effects <==> confirmed && commentsResponse.Ok? && postResponse.Ok?
    ensures confirmed ==> (r.effects ==
      [Call(DeleteCommentsByPostId(postId))] +
      (if commentsResponse.Ok? then
         [Call(DeletePostById(postId))] + (if postResponse.Ok? then [Navigate(HomePath)] else [])
       else []))
    ensures r.state.post == s.post && r.state.comments == s.comments && r.state.newComment == s.newComment
    ensures confirmed ==> !r.state.loading
    ensures confirmed && (commentsResponse.Err? || postResponse.Err?) ==>
      r.state.error == Some(Message(DeleteFailed))
    ensures confirmed && commentsResponse.Ok? && postResponse.Ok? ==> r.state.error == s.error
    ensures s.post.Some? ==> Renderable(r.state)
  {
    var clicked := DeleteClicked(s, postId, confirmed);
    if !confirmed then clicked
    else
      var first := OnCommentsDeleted(clicked.state, postId, commentsResponse);
      if commentsResponse.Err? then Step(first.state, clicked.effects)
      else
        var second := OnPostDeleted(first.state, postResponse);
        Step(second.state, clicked.effects + first.effects + second.effects)
  }

  // ---- rendering ----

  datatype Media = NoMedia | Video(source: string, mimeType: string) | Image(source: string, alt: string)

  datatype View =
    | LoadingView
    | ErrorView(detail: string)
    | PostView(title: string, upvotes: int, media: Media, content: string, comments: seq<string>)

  const VideoExtensions: set<string> := {"mp4", "webm", "ogg"}

  /** The video test: the pattern `\.(mp4|webm|ogg)$` with the ignore-case
      flag, which holds exactly when the URL has a dot and the text after the
      last one is a video extension in any letter case. Without the unicode
      flag the pattern folds ASCII letters only. */
  function IsVideo(url: string): (r: bool)
    ensures r <==> '.' in url && Lower(AfterLastDot(url)) in VideoExtensions
  {
    VideoPatternIffExtension(url);
    EndsWithVideoExtension(Lower(url))
  }

  /** The pattern itself, on the lower-cased URL: a dot and one of the
      extensions at the very end. */
  predicate EndsWithVideoExtension(lower: string) {
    EndsWith(lower, ".mp4") || EndsWith(lower, ".webm") || EndsWith(lower, ".ogg")
  }

  lemma VideoExtensionOf(lower: string) returns (ext: string)
    requires EndsWithVideoExtension(lower)
    ensures ext in VideoExtensions && '.' !in ext && EndsWith(lower, "." + ext)
  {
    if EndsWith(lower, ".mp4") {
      ext := "mp4";
      assert ext[0] != '.' && ext[1] != '.' && ext[2] != '.';
      assert "." + ext == ".mp4";
    } else if EndsWith(lower, ".webm") {
      ext := "webm";
      assert ext[0] != '.' && ext[1] != '.' && ext[2] != '.' && ext[3] != '.';
      assert "." + ext == ".webm";
    } else {
      ext := "ogg";
      assert ext[0] != '.' && ext[1] != '.' && ext[2] != '.';
      assert "." + ext == ".ogg";
    }
  }

  lemma ExtensionEndsVideo(lower: string, ext: string)
    requires ext in VideoExtensions && EndsWith(lower, "." + ext)
    ensures EndsWithVideoExtension(lower)
  {
    if ext == "mp4" {
      assert "." + ext == ".mp4";
    } else if ext == "webm" {
      assert "." + ext == ".webm";
    } else {
      assert "." + ext == ".ogg";
    }
  }

  /** A URL that matches the pattern has a video extension after its last dot. */
  lemma VideoHasExtension(url: string)
    requires EndsWithVideoExtension(Lower(url))
    ensures '.' in url && Lower(AfterLastDot(url)) in VideoExtensions
  {
    var ext := VideoExtensionOf(Lower(url));
    DotSuffixAfterLastDot(url, ext);
  }

  /** A URL with a video extension after its last dot matches the pattern. */
  lemma ExtensionIsVideo(url: string)
    requires '.' in url && Lower(AfterLastDot(url)) in VideoExtensions
    ensures EndsWithVideoExtension(Lower(url))
  {
    EndsWithDotAndAfterLastDot(url);
    ExtensionEndsVideo(Lower(url), Lower(AfterLastDot(url)));
  }

  /** The pattern and the last-dot reading agree, both ways. */
  lemma VideoPatternIffExtension(url: string)
    ensures EndsWithVideoExtension(Lower(url)) <==> '.' in url && Lower(AfterLastDot(url)) in VideoExtensions
  {
    if EndsWithVideoExtension(Lower(url)) {
      VideoHasExtension(url);
    }
    if '.' in url && Lower(AfterLastDot(url)) in VideoExtensions {
      ExtensionIsVideo(url);
    }
  }

  /** No media without a URL; otherwise a video player when the video test
      holds, typed `video/` plus the URL's text after its last dot with its
      case kept, and an image titled by the post when it does not. */
  function MediaFor(p: Post): (m: Media)
    ensures m.NoMedia? <==> p.imageUrl == ""
    ensures m.Video? <==> p.imageUrl != "" && IsVideo(p.imageUrl)
    ensures !m.NoMedia? ==> m.source == p.imageUrl
    ensures m.Image? ==> m.alt == p.title
    ensures m.Video? ==>
      |m.mimeType| > 6 && m.mimeType[..6] == "video/" && Lower(m.mimeType[6..]) in VideoExtensions
    ensures m.Video? ==> m.mimeType == "video/" + AfterLastDot(p.imageUrl)
  {
    if p.imageUrl == "" then NoMedia
    else if IsVideo(p.imageUrl) then
      var subtype := AfterLastDot(p.imageUrl);
      assert ("video/" + subtype)[6..] == subtype;
      Video(p.imageUrl, "video/" + subtype)
    else Image(p.imageUrl, p.title)
  }

  /** The text the error view prints after its prefix: a service error's
      message; the delete handler's plain string has no message, so the
      fixed text is never shown. */
  function ErrorDetail(e: PageError): (r: string)
    ensures e.Failure? ==> r == e.cause.message
    ensures e.Message? ==> r == ""
  {
    match e
    case Failure(cause) => cause.message
    case Message(_) => ""
  }

  function Contents(cs: seq<Comment>): (r: seq<string>)
    ensures |r| == |cs|
    ensures forall i :: 0 <= i < |cs| ==> r[i] == cs[i].content
  {
    seq(|cs|, i requires 0 <= i < |cs| => cs[i].content)
  }

  /** Loading first, then the error view, then the post. */
  function Render(s: State): (v: View)
    requires Renderable(s)
    ensures s.loading <==> v == LoadingView
    ensures v.ErrorView? <==> !s.loading && s.error.Some?
    ensures v.ErrorView? ==>
      v.detail == (if s.error.value.Failure? then s.error.value.cause.message else "")
    ensures v.PostView? ==>
      var p := s.post.value;
      v.title == p.title && v.upvotes == p.upvotes && v.content == p.content &&
      v.media == MediaFor(p) && v.comments == Contents(s.comments)
  {
    if s.loading then LoadingView
    else if s.error.Some? then ErrorView(ErrorDetail(s.error.value))
    else
      var p := s.post.value;
      PostView(p.title, p.upvotes, MediaFor(p), p.content, Contents(s.comments))
  }

  /** A confirmed delete that fails anywhere leaves the page on the error
      view, not on the post, and the view shows no text from the message. */
  lemma FailedDeleteShowsErrorView(
    s: State, postId: string, commentsResponse: Response<()>, postResponse: Response<()>)
    requires s.post.Some?
    requires commentsResponse.Err? || postResponse.Err?
    ensures Render(HandleDelete(s, postId, true, commentsResponse, postResponse).state) == ErrorView("")
  {
  }

  /** Loading a post and its comments from the first render shows them. */
  lemma LoadShowsPost(postId: string, p: Post, cs: seq<Comment>)
    ensures Render(FetchPostDetails(Initial(), postId, Ok(p), Ok(cs)).state) ==
      PostView(p.title, p.upvotes, MediaFor(p), p.content, Contents(cs))
  {
  }
}
