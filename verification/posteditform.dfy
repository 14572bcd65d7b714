/** The edit page: a local copy of the post's row, edited field by field by
    name, and written back whole. */
module PostEditForm {
  import opened Schema
  import opened Service

  datatype State = State(post: Row, loading: bool, error: Option<string>)

  const FetchFailed := "Failed to fetch post"
  const UpdateFailed := "Failed to update post"

  /** The copy shown before the fetch returns: the three form fields, empty. */
  const Placeholder: Row := map["title" := Str(""), "content" := Str(""), "image_url" := Str("")]

  function Initial(): (s: State)
    ensures s.post.Keys == {"title", "content", "image_url"}
    ensures forall f :: f in s.post ==> s.post[f] == Str("")
    ensures !s.loading && s.error.None?
  {
    State(Placeholder, false, None)
  }

  /** Mount: show loading and ask for the post. */
  function FetchBegin(s: State, postId: string): (r: Step<State>)
    ensures r.state == s.(loading := true)
    ensures r.effects == [Call(SelectPostById(postId))]
  {
    Step(s.(loading := true), [Call(SelectPostById(postId))])
  }

  /** The fetch settled: the fetched row replaces the copy, or the fixed
      message is stored and the copy stays as it was. */
  function OnFetched(s: State, response: Response<Post>): (r: State)
    ensures !r.loading
    ensures response.Ok? ==> r.post == PostRow(response.value) && r.error == s.error
    ensures response.Err? ==> r.post == s.post && r.error == Some(FetchFailed)
  {
    match response
    case Ok(p) => s.(post := PostRow(p), loading := false)
    case Err(_) => s.(error := Some(FetchFailed), loading := false)
  }

  /** A field's change handler: the named field takes the typed value and
      every other field of the copy is kept. */
  function HandleChange(s: State, name: string, value: string): (r: State)
    ensures r.post.Keys == s.post.Keys + {name}
    ensures r.post[name] == Str(value)
    ensures forall f :: f in s.post && f != name ==> r.post[f] == s.post[f]
    ensures r.loading == s.loading && r.error == s.error
  {
    s.(post := s.post[name := Str(value)])
  }

  /** Submit: show loading and write the whole copy to the row with this id. */
  function SubmitBegin(s: State, postId: string): (r: Step<State>)
    ensures r.state == s.(loading := true)
    ensures r.effects == [Call(UpdatePostById(postId, s.post))]
  {
    Step(s.(loading := true), [Call(UpdatePostById(postId, s.post))])
  }

  /** The update settled: success opens the post's page, failure stores the
      fixed message; the copy is kept either way. */
  function OnSubmitted(s: State, postId: string, response: Response<()>): (r: Step<State>)
    ensures !r.state.loading && r.state.post == s.post
    ensures response.Ok? ==> r.effects == [Navigate(DetailPath(postId))] && r.state.error == s.error
    ensures response.Err? ==> r.effects == [] && r.state.error == Some(UpdateFailed)
  {
    match response
    case Ok(_) => Step(s.(loading := false), [Navigate(DetailPath(postId))])
    case Err(_) => Step(s.(loading := false, error := Some(UpdateFailed)), [])
  }

  /** Runs a sequence of field edits in order. */
  function ApplyEdits(s: State, edits: seq<(string, string)>): State
    decreases |edits|
  {
    if |edits| == 0 then s else ApplyEdits(HandleChange(s, edits[0].0, edits[0].1), edits[1..])
  }

  /** The names the edits touch. */
  function Touched(edits: seq<(string, string)>): set<string> {
    set i | 0 <= i < |edits| :: edits[i].0
  }

  /** Edit `i` is the last one in `edits` that names its field. */
  predicate LastEditOfField(edits: seq<(string, string)>, i: int)
    requires 0 <= i < |edits|
  {
    forall j :: i < j < |edits| ==> edits[j].0 != edits[i].0
  }

  /** After any edits, an untouched field still has its old value, every
      touched one holds the last value given to it, and no field disappears. */
  lemma {:induction false} EditsKeepUntouched(s: State, edits: seq<(string, string)>)
    ensures ApplyEdits(s, edits).post.Keys == s.post.Keys + Touched(edits)
    ensures forall f :: f in s.post && f !in Touched(edits) ==> ApplyEdits(s, edits).post[f] == s.post[f]
    ensures |edits| > 0 ==> ApplyEdits(s, edits).post[edits[|edits| - 1].0] == Str(edits[|edits| - 1].1)
    ensures forall i :: 0 <= i < |edits| && LastEditOfField(edits, i) ==>
      ApplyEdits(s, edits).post[edits[i].0] == Str(edits[i].1)
    ensures ApplyEdits(s, edits).loading == s.loading && ApplyEdits(s, edits).error == s.error
    decreases |edits|
  {
    if |edits| > 0 {
      var next := HandleChange(s, edits[0].0, edits[0].1);
      EditsKeepUntouched(next, edits[1..]);
      assert Touched(edits) == {edits[0].0} + Touched(edits[1..]) by {
        forall f | f in Touched(edits) ensures f in {edits[0].0} + Touched(edits[1..]) {
          var i :| 0 <= i < |edits| && edits[i].0 == f;
          if i > 0 {
            assert edits[1..][i - 1] == edits[i];
          }
        }
        forall f | f in Touched(edits[1..]) ensures f in Touched(edits) {
          var i :| 0 <= i < |edits[1..]| && edits[1..][i].0 == f;
          assert edits[i + 1] == edits[1..][i];
        }
      }
      if |edits| > 1 {
        assert edits[1..][|edits[1..]| - 1] == edits[|edits| - 1];
      }
      var rest := edits[1..];
      forall i | 0 <= i < |edits| && LastEditOfField(edits, i)
        ensures ApplyEdits(s, edits).post[edits[i].0] == Str(edits[i].1)
      {
        if i == 0 {
          forall k | 0 <= k < |rest| ensures rest[k].0 != edits[0].0 {
            assert rest[k] == edits[k + 1];
          }
          assert edits[0].0 !in Touched(rest);
        } else {
          assert rest[i - 1] == edits[i];
          forall j | i - 1 < j < |rest| ensures rest[j].0 != rest[i - 1].0 {
            assert rest[j] == edits[j + 1];
          }
          assert LastEditOfField(rest, i - 1);
        }
      }
    }
  }

  /** Loading a post and submitting without edits writes back exactly the
      fetched row. */
  lemma UnchangedSubmitWritesFetchedRow(postId: string, p: Post)
    ensures
      var fetched := OnFetched(FetchBegin(Initial(), postId).state, Ok(p));
      SubmitBegin(fetched, postId).effects == [Call(UpdatePostById(postId, PostRow(p)))]
  {
  }

  /** A submit after edits writes the fetched row with each edited field
      replaced by its last value, and nothing else. */
  lemma EditedSubmitPayload(postId: string, p: Post, edits: seq<(string, string)>)
    ensures
      var fetched := OnFetched(FetchBegin(Initial(), postId).state, Ok(p));
      var payload := SubmitBegin(ApplyEdits(fetched, edits), postId).effects[0].request.fields;
      payload.Keys == PostRow(p).Keys + Touched(edits) &&
      (forall f :: f in PostRow(p) && f !in Touched(edits) ==> payload[f] == PostRow(p)[f]) &&
      (forall i :: 0 <= i < |edits| && LastEditOfField(edits, i) ==> payload[edits[i].0] == Str(edits[i].1))
  {
    var fetched := OnFetched(FetchBegin(Initial(), postId).state, Ok(p));
    EditsKeepUntouched(fetched, edits);
  }

  // ---- rendering ----

  datatype View =
    | LoadingView
    | ErrorView(text: string)
    | FormView(title: Option<Value>, content: Option<Value>, imageUrl: Option<Value>)

  /** A field the form reads; absent when the row lacks it. */
  function Field(row: Row, name: string): (v: Option<Value>)
    ensures v.Some? <==> name in row
    ensures v.Some? ==> v.value == row[name]
  {
    if name in row then Some(row[name]) else None
  }

  /** Loading first, then the error text, then the form. */
  function Render(s: State): (v: View)
    ensures s.loading <==> v == LoadingView
    ensures !s.loading && s.error.Some? <==> v.ErrorView?
    ensures v.ErrorView? ==> v.text == s.error.value
    ensures v.FormView? ==>
      v.title == Field(s.post, "title") && v.content == Field(s.post, "content") &&
      v.imageUrl == Field(s.post, "image_url")
  {
    if s.loading then LoadingView
    else if s.error.Some? then ErrorView(s.error.value)
    else FormView(Field(s.post, "title"), Field(s.post, "content"), Field(s.post, "image_url"))
  }

  /** A failed fetch shows its message, with the empty placeholder kept underneath. */
  lemma FetchFailureKeepsPlaceholder(postId: string, e: ServiceError)
    ensures
      var s := OnFetched(FetchBegin(Initial(), postId).state, Err(e));
      s.post == Placeholder && Render(s) == ErrorView(FetchFailed)
  {
  }

  /** A failed update replaces the form with the error text; the edits stay
      in the copy but are no longer shown. */
  lemma SubmitFailureShowsError(s: State, postId: string, e: ServiceError)
    ensures
      var r := OnSubmitted(SubmitBegin(s, postId).state, postId, Err(e));
      r.state.post == s.post && Render(r.state) == ErrorView(UpdateFailed)
  {
  }
}
