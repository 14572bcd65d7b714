/** The two tables of the hosted service, as the pages see their rows. */
module Schema {

  datatype Option<+T> = None | Some(value: T)

  /** A row of the `post` table. `createdAt` is the creation timestamp as an
      integer (larger is newer). */
  datatype Post = Post(
    id: string,
    title: string,
    content: string,
    imageUrl: string,
    upvotes: int,
    createdAt: int)

  /** A row of the `comment` table. `id` is `None` for a comment built on the
      page that the service has not stored yet. */
  datatype Comment = Comment(id: Option<string>, postId: string, content: string)

  /** A column value of an untyped row. */
  datatype Value = Str(text: string) | Num(number: int)

  /** An untyped row: column name to value, as `select('*')` returns it. */
  type Row = map<string, Value>

  /** The `post` row with its service-side column names. */
  function PostRow(p: Post): (r: Row)
    ensures r.Keys == {"id", "title", "content", "image_url", "upvotes", "created_at"}
    ensures r["title"] == Str(p.title) && r["content"] == Str(p.content)
    ensures r["image_url"] == Str(p.imageUrl)
    ensures r["id"] == Str(p.id) && r["upvotes"] == Num(p.upvotes) && r["created_at"] == Num(p.createdAt)
  {
    map[
      "id" := Str(p.id),
      "title" := Str(p.title),
      "content" := Str(p.content),
      "image_url" := Str(p.imageUrl),
      "upvotes" := Num(p.upvotes),
      "created_at" := Num(p.createdAt)]
  }
}
