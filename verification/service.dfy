/** The remote table service as the pages use it: the requests they issue,
    the two-way outcome of each, and navigation. */
module Service {
  import opened Schema

  /** An error payload returned by the service. */
  datatype ServiceError = ServiceError(message: string)

  /** What an awaited call yields: data, or an error the caller must check first. */
  datatype Response<+T> = Ok(value: T) | Err(error: ServiceError)

  /** One call to the service, named by table, operation and filter. */
  datatype Request =
    | SelectPostsNewestFirst                 // post: select *, order by created_at descending
    | SelectPostById(id: string)             // post: select *, eq id, single
    | SelectCommentsByPostId(postId: string) // comment: select *, eq post_id
    | UpdateUpvotesById(id: string, upvotes: int)
    | InsertComment(comment: Comment)
    | DeleteCommentsByPostId(postId: string)
    | DeletePostById(id: string)
    | UpdatePostById(id: string, fields: Row)

  /** An observable effect of a page handler, in the order it happens. */
  datatype Effect = Call(request: Request) | Navigate(path: string)

  /** A page's new state together with the effects that produced it. */
  datatype Step<S> = Step(state: S, effects: seq<Effect>)

  const HomePath := "/"

  function DetailPath(postId: string): string { "/post/" + postId }

  function EditPath(postId: string): string { "/edit-post/" + postId }
}
