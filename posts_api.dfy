/** The posts API (`/api/posts`): HTTP handlers over the `posts` table that
    check the title and map the outcome to a status code. */
module PostsApi {
  import opened Wrappers
  import opened Strings
  import opened PostsTable

  datatype Body =
    | PostList(posts: seq<Post>)  // GET
    | Row(post: Post)             // POST, PUT
    | Success                     // DELETE: `{success: true}`
    | Error(message: string)

  datatype Reply = Reply(status: int, body: Body)

  /** `title?.trim()` is truthy: the title is present and not all whitespace. */
  function HasTitle(title: Option<string>): (ok: bool)
    ensures ok <==> title.Some? && !IsBlank(title.value)
  {
    if title.None? then false
    else
      TrimEmptyIffBlank(title.value);
      Trim(title.value) != []
  }

  predicate IsDigit(c: char) {
    '0' <= c <= '9'
  }

  predicate AllDigits(s: string) {
    forall i :: 0 <= i < |s| ==> IsDigit(s[i])
  }

  function DecimalValue(s: string): nat
    requires AllDigits(s)
  {
    if s == [] then 0 else 10 * DecimalValue(s[..|s| - 1]) + (s[|s| - 1] as int - '0' as int)
  }

  /** The row id the `id` query parameter selects when bound against the integer
      `id` column: a decimal numeral selects its value, anything else no row. */
  function RowIdOf(param: string): Option<int> {
    if param != [] && AllDigits(param) then Some(DecimalValue(param)) else None
  }

  /** The character of decimal digit `d`. */
  function DigitChar(d: nat): (c: char)
    requires d < 10
    ensures IsDigit(c) && c as int - '0' as int == d
  {
    (d + '0' as int) as char
  }

  /** The decimal numeral of `n`, as a client writes a row id into the URL. */
  function Numeral(n: nat): (s: string)
    ensures s != [] && AllDigits(s)
  {
    if n < 10 then [DigitChar(n)] else Numeral(n / 10) + [DigitChar(n % 10)]
  }

  /** `k` leading zeros. */
  function Zeros(k: nat): (s: string)
    ensures |s| == k && AllDigits(s)
  {
    if k == 0 then [] else ['0'] + Zeros(k - 1)
  }

  lemma {:induction false} NumeralValue(n: nat)
    ensures DecimalValue(Numeral(n)) == n
  {
    if n >= 10 {
      var s := Numeral(n);
      assert s[..|s| - 1] == Numeral(n / 10);
      NumeralValue(n / 10);
    }
  }

  /** A leading zero does not change a numeral's value. */
  lemma {:induction false} LeadingZeroValue(s: string)
    requires AllDigits(s)
    ensures AllDigits(['0'] + s) && DecimalValue(['0'] + s) == DecimalValue(s)
  {
    var t := ['0'] + s;
    assert AllDigits(t) by {
      forall i | 0 <= i < |t| ensures IsDigit(t[i]) {
        if i > 0 { assert t[i] == s[i - 1]; }
      }
    }
    if s != [] {
      assert t[..|t| - 1] == ['0'] + s[..|s| - 1];
      LeadingZeroValue(s[..|s| - 1]);
    }
  }

  lemma {:induction false} LeadingZerosValue(k: nat, s: string)
    requires AllDigits(s)
    ensures AllDigits(Zeros(k) + s) && DecimalValue(Zeros(k) + s) == DecimalValue(s)
  {
    if k > 0 {
      assert Zeros(k) + s == ['0'] + (Zeros(k - 1) + s);
      LeadingZerosValue(k - 1, s);
      LeadingZeroValue(Zeros(k - 1) + s);
    } else {
      assert Zeros(k) + s == s;
    }
  }

  /** The `id` parameter written as the decimal numeral of `n`, with any number
      of leading zeros, selects row `n`: so `?id=` followed by a row's id
      deletes that row. */
  lemma RowIdOfNumeral(n: nat, k: nat)
    ensures RowIdOf(Zeros(k) + Numeral(n)) == Some(n)
  {
    NumeralValue(n);
    LeadingZerosValue(k, Numeral(n));
  }

  /** GET /api/posts: every row, newest first. */
  method HandleGet(db: Posts) returns (reply: Reply)
    requires db.Valid()
    ensures reply.status == 200 && reply.body.PostList?
    ensures NewestFirst(reply.body.posts) && DistinctIds(reply.body.posts)
    ensures forall i :: 0 <= i < |reply.body.posts| ==>
      reply.body.posts[i].id in db.rows && db.rows[reply.body.posts[i].id] == reply.body.posts[i]
    ensures forall id :: id in db.rows ==> db.rows[id] in reply.body.posts
  {
    var posts := db.SelectNewestFirst();
    reply := Reply(200, PostList(posts));
  }

  /** POST /api/posts with body `{title, content?}`: 400 for a missing or blank
      title; otherwise one new row, title as given and content as given or
      null, returned with 201. */
  method HandlePost(db: Posts, title: Option<string>, content: Option<string>, now: Timestamp) returns (reply: Reply)
    requires db.Valid()
    modifies db
    ensures db.Valid()
    ensures !HasTitle(title) ==> reply == Reply(400, Error("Title is required")) && db.rows == old(db.rows)
    ensures HasTitle(title) ==>
      && reply.status == 201 && reply.body.Row?
      && reply.body.post.id !in old(db.rows)
      && reply.body.post == Post(reply.body.post.id, title.value, content, now, now)
      && db.rows == old(db.rows)[reply.body.post.id := reply.body.post]
  {
    if !HasTitle(title) {
      return Reply(400, Error("Title is required"));
    }
    var p := db.Insert(title.value, content, now);
    reply := Reply(201, Row(p));
  }

  /** PUT /api/posts with body `{id, title, content?}`: the title is checked
      first (400, even for an unknown id), then 404 when no row has the id;
      otherwise only that row's title, content and updated_at change. */
  method HandlePut(db: Posts, id: int, title: Option<string>, content: Option<string>, now: Timestamp) returns (reply: Reply)
    requires db.Valid()
    modifies db
    ensures db.Valid()
    ensures !HasTitle(title) ==> reply == Reply(400, Error("Title is required")) && db.rows == old(db.rows)
    ensures HasTitle(title) && id !in old(db.rows) ==>
      reply == Reply(404, Error("Post not found")) && db.rows == old(db.rows)
    ensures HasTitle(title) && id in old(db.rows) ==>
      && reply == Reply(200, Row(old(db.rows)[id].(title := title.value, content := content, updatedAt := now)))
      && db.rows == old(db.rows)[id := reply.body.post]
  {
    if !HasTitle(title) {
      return Reply(400, Error("Title is required"));
    }
    var updated := db.UpdateById(id, title.value, content, now);
    if updated.None? {
      return Reply(404, Error("Post not found"));
    }
    reply := Reply(200, Row(updated.value));
  }

  /** DELETE /api/posts?id=ID: 400 without an id; otherwise the selected row,
      if any, is removed and the answer is `{success: true}` either way. */
  method HandleDelete(db: Posts, idParam: Option<string>) returns (reply: Reply)
    requires db.Valid()
    modifies db
    ensures db.Valid()
    ensures idParam.None? || idParam.value == "" ==>
      reply == Reply(400, Error("ID required")) && db.rows == old(db.rows)
    ensures idParam.Some? && idParam.value != "" ==>
      && reply == Reply(200, Success)
      && db.rows == match RowIdOf(idParam.value)
                    case Some(id) => old(db.rows) - {id}
                    case None => old(db.rows)
  {
    if idParam.None? || idParam.value == "" {
      return Reply(400, Error("ID required"));
    }
    var id := RowIdOf(idParam.value);
    if id.Some? {
      db.DeleteById(id.value);
    }
    reply := Reply(200, Success);
  }
}
