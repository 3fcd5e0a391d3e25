/** The `posts` table of the relational store, as an in-memory table: rows by
    id, ids assigned by the store, timestamps taken from the store's clock. */
module PostsTable {
  import opened Wrappers

  /** `CURRENT_TIMESTAMP`, as an abstract totally ordered value. */
  type Timestamp = int

  /** A row of `posts`: `{id, title, content, created_at, updated_at}`. */
  datatype Post = Post(id: int, title: string, content: Option<string>, createdAt: Timestamp, updatedAt: Timestamp)

  /** `ORDER BY created_at DESC` (rows with equal timestamps in any order). */
  predicate NewestFirst(ps: seq<Post>) {
    forall i, j :: 0 <= i < j < |ps| ==> ps[i].createdAt >= ps[j].createdAt
  }

  predicate DistinctIds(ps: seq<Post>) {
    forall i, j :: 0 <= i < j < |ps| ==> ps[i].id != ps[j].id
  }

  /** Where `p` goes in a newest-first sequence: after every row at least as new. */
  function InsertionPoint(ps: seq<Post>, p: Post): (k: nat)
    requires NewestFirst(ps)
    ensures k <= |ps|
    ensures forall i :: 0 <= i < k ==> ps[i].createdAt >= p.createdAt
    ensures forall i :: k <= i < |ps| ==> ps[i].createdAt < p.createdAt
  {
    if ps == [] || ps[0].createdAt < p.createdAt then 0
    else 1 + InsertionPoint(ps[1..], p)
  }

  /** Where each element of `ps` lands once `p` is placed at index `k`. */
  lemma InsertedShape(ps: seq<Post>, p: Post, k: nat)
    requires k <= |ps|
    ensures |ps[..k] + [p] + ps[k..]| == |ps| + 1
    ensures forall i :: 0 <= i < k ==> (ps[..k] + [p] + ps[k..])[i] == ps[i]
    ensures (ps[..k] + [p] + ps[k..])[k] == p
    ensures forall i :: k < i <= |ps| ==> (ps[..k] + [p] + ps[k..])[i] == ps[i - 1]
  {
  }

  /** Placing `p` at its insertion point keeps the sequence newest first, and
      keeps ids distinct when `p`'s id is new. */
  lemma InsertionKeepsOrder(ps: seq<Post>, p: Post, k: nat)
    requires NewestFirst(ps) && DistinctIds(ps)
    requires forall i :: 0 <= i < |ps| ==> ps[i].id != p.id
    requires k == InsertionPoint(ps, p)
    ensures NewestFirst(ps[..k] + [p] + ps[k..]) && DistinctIds(ps[..k] + [p] + ps[k..])
  {
    var r := ps[..k] + [p] + ps[k..];
    InsertedShape(ps, p, k);
    forall i, j | 0 <= i < j < |r|
      ensures r[i].createdAt >= r[j].createdAt && r[i].id != r[j].id
    {
      if j < k {
        assert r[i] == ps[i] && r[j] == ps[j];
      } else if j == k {
        assert r[i] == ps[i];
      } else if i < k {
        assert r[i] == ps[i] && r[j] == ps[j - 1];
      } else if i == k {
        assert r[j] == ps[j - 1];
      } else {
        assert r[i] == ps[i - 1] && r[j] == ps[j - 1];
      }
    }
  }

  /** `ps` is the newest-first result of scanning the ids of `rows` below `id`. */
  ghost predicate ScannedBelow(ps: seq<Post>, rows: map<int, Post>, id: int) {
    && NewestFirst(ps) && DistinctIds(ps)
    && (forall i :: 0 <= i < |ps| ==> ps[i].id < id && ps[i].id in rows && rows[ps[i].id] == ps[i])
    && (forall m :: 1 <= m < id && m in rows ==> rows[m] in ps)
  }

  /** Scanning one more id: the row under it, when there is one, is placed at its insertion point. */
  lemma ScanStep(ps: seq<Post>, rows: map<int, Post>, id: int, k: nat)
    requires ScannedBelow(ps, rows, id)
    requires id in rows && rows[id].id == id
    requires k == InsertionPoint(ps, rows[id])
    ensures ScannedBelow(ps[..k] + [rows[id]] + ps[k..], rows, id + 1)
  {
    var p := rows[id];
    var r := ps[..k] + [p] + ps[k..];
    InsertionKeepsOrder(ps, p, k);
    InsertedShape(ps, p, k);
    forall i | 0 <= i < |r| ensures r[i].id < id + 1 && r[i].id in rows && rows[r[i].id] == r[i] {
      if i < k {
        assert r[i] == ps[i];
      } else if k < i {
        assert r[i] == ps[i - 1];
      }
    }
    forall m | 1 <= m < id + 1 && m in rows ensures rows[m] in r {
      if m == id {
        assert r[k] == p;
      } else {
        var j :| 0 <= j < |ps| && ps[j] == rows[m];
        if j < k {
          assert r[j] == ps[j];
        } else {
          assert r[j + 1] == ps[j];
        }
      }
    }
  }

  class Posts {
    var rows: map<int, Post>
    /** The store's id counter: ids are never reused. */
    var nextId: int

    /** Each row is filed under its own id, and every id is below the counter. */
    ghost predicate Valid()
      reads this
    {
      0 < nextId && forall id :: id in rows ==> rows[id].id == id && 0 < id < nextId
    }

    constructor ()
      ensures Valid() && rows == map[]
    {
      rows := map[];
      nextId := 1;
    }

    /** `SELECT * FROM posts ORDER BY created_at DESC`: every row exactly once,
        newest first (the rows are scanned in id order). */
    method SelectNewestFirst() returns (ps: seq<Post>)
      requires Valid()
      ensures NewestFirst(ps) && DistinctIds(ps)
      ensures forall i :: 0 <= i < |ps| ==> ps[i].id in rows && rows[ps[i].id] == ps[i]
      ensures forall id :: id in rows ==> rows[id] in ps
    {
      ps := [];
      for id := 1 to nextId
        invariant ScannedBelow(ps, rows, id)
      {
        if id in rows {
          var k := InsertionPoint(ps, rows[id]);
          ScanStep(ps, rows, id, k);
          ps := ps[..k] + [rows[id]] + ps[k..];
        }
      }
    }

    /** `SELECT * FROM posts WHERE id = ?`: the row, or none. */
    method SelectById(id: int) returns (r: Option<Post>)
      requires Valid()
      ensures id in rows ==> r == Some(rows[id])
      ensures id !in rows ==> r == None
      ensures r.Some? ==> r.value.id == id
    {
      r := if id in rows then Some(rows[id]) else None;
    }

    /** `INSERT INTO posts (title, content) VALUES (?, ?) RETURNING *`:
        a new row under an id no row had, stamped `now` twice. */
    method Insert(title: string, content: Option<string>, now: Timestamp) returns (p: Post)
      requires Valid()
      modifies this
      ensures Valid()
      ensures p.id !in old(rows)
      ensures p == Post(p.id, title, content, now, now)
      ensures rows == old(rows)[p.id := p]
    {
      p := Post(nextId, title, content, now, now);
      rows := rows[nextId := p];
      nextId := nextId + 1;
    }

    /** `UPDATE posts SET title = ?, content = ?, updated_at = CURRENT_TIMESTAMP
        WHERE id = ? RETURNING *`: the updated row, or none when no row has the id. */
    method UpdateById(id: int, title: string, content: Option<string>, now: Timestamp) returns (r: Option<Post>)
      requires Valid()
      modifies this
      ensures Valid() && nextId == old(nextId)
      ensures id !in old(rows) ==> r == None && rows == old(rows)
      ensures id in old(rows) ==>
        r == Some(old(rows)[id].(title := title, content := content, updatedAt := now))
        && rows == old(rows)[id := r.value]
    {
      if id !in rows {
        return None;
      }
      var p := rows[id].(title := title, content := content, updatedAt := now);
      rows := rows[id := p];
      r := Some(p);
    }

    /** `DELETE FROM posts WHERE id = ?`: a no-op when no row has the id. */
    method DeleteById(id: int)
      requires Valid()
      modifies this
      ensures Valid() && nextId == old(nextId)
      ensures rows == old(rows) - {id}
    {
      rows := rows - {id};
    }
  }
}
