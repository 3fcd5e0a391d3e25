/** The posts server functions: the same table operations as the HTTP
    handlers, without title validation, answering null where a row is missing. */
module PostsServer {
  import opened Wrappers
  import opened PostsTable

  /** `toPost`: a field-by-field copy of a row, which is the row itself. */
  function ToPost(row: Post): (p: Post)
    ensures p == row
  {
    Post(row.id, row.title, row.content, row.createdAt, row.updatedAt)
  }

  /** `getPosts`: every row, newest first. */
  method GetPosts(db: Posts) returns (ps: seq<Post>)
    requires db.Valid()
    ensures NewestFirst(ps) && DistinctIds(ps)
    ensures forall i :: 0 <= i < |ps| ==> ps[i].id in db.rows && db.rows[ps[i].id] == ps[i]
    ensures forall id :: id in db.rows ==> db.rows[id] in ps
  {
    var rows := db.SelectNewestFirst();
    ps := seq(|rows|, i requires 0 <= i < |rows| => ToPost(rows[i]));
    assert ps == rows;
  }

  /** `getPost(id)`: the row with that id, or null. */
  method GetPost(db: Posts, id: int) returns (r: Option<Post>)
    requires db.Valid()
    ensures id in db.rows ==> r == Some(db.rows[id])
    ensures id !in db.rows ==> r == None
  {
    var row := db.SelectById(id);
    r := if row.Some? then Some(ToPost(row.value)) else None;
  }

  /** `createPost({title, content?})`: inserts without checking the title and
      returns the new row. */
  method CreatePost(db: Posts, title: string, content: Option<string>, now: Timestamp) returns (r: Option<Post>)
    requires db.Valid()
    modifies db
    ensures db.Valid()
    ensures r.Some? && r.value.id !in old(db.rows)
    ensures r.value == Post(r.value.id, title, content, now, now)
    ensures db.rows == old(db.rows)[r.value.id := r.value]
  {
    var row := db.Insert(title, content, now);
    r := Some(ToPost(row));
  }

  /** `updatePost({id, title, content?})`: null and no change when no row has
      the id, otherwise the row with the new title, content and updated_at. */
  method UpdatePost(db: Posts, id: int, title: string, content: Option<string>, now: Timestamp) returns (r: Option<Post>)
    requires db.Valid()
    modifies db
    ensures db.Valid()
    ensures id !in old(db.rows) ==> r == None && db.rows == old(db.rows)
    ensures id in old(db.rows) ==>
      && r == Some(old(db.rows)[id].(title := title, content := content, updatedAt := now))
      && db.rows == old(db.rows)[id := r.value]
  {
    var row := db.UpdateById(id, title, content, now);
    r := if row.Some? then Some(ToPost(row.value)) else None;
  }

  /** `deletePost(id)`: always `{success: true}`; afterwards no row has the id. */
  method DeletePost(db: Posts, id: int) returns (success: bool)
    requires db.Valid()
    modifies db
    ensures db.Valid()
    ensures success
    ensures db.rows == old(db.rows) - {id}
  {
    db.DeleteById(id);
    success := true;
  }

  /** A post's life: created, updated, deleted, deleted again. Each step sees
      only what the contracts above promise. */
  method Lifecycle(db: Posts, t0: Timestamp, t1: Timestamp)
    requires db.Valid()
    modifies db
  {
    var created := CreatePost(db, "Hello", Some("World"), t0);
    var id := created.value.id;
    assert created.value.createdAt == created.value.updatedAt;
    var fetched := GetPost(db, id);
    assert fetched == created;
    var updated := UpdatePost(db, id, "Hello2", None, t1);
    assert updated.Some? && updated.value.title == "Hello2" && updated.value.content == None;
    assert updated.value.createdAt == t0;
    var ok := DeletePost(db, id);
    var gone := GetPost(db, id);
    assert gone == None;
    var again := UpdatePost(db, id, "Hello3", None, t1);
    assert again == None;
    ok := DeletePost(db, id);
    assert ok && id !in db.rows;
  }
}
