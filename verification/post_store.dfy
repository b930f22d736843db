/**
 The `posts` table as a map from id to row, and the two statements that
 write it: the INSERT of the add view and the UPDATE of the edit submit.
 */
module PostStore {
  import Listing

  /** One row of `posts`; `dateCreated` is a Unix time in whole seconds. */
  datatype Post = Post(title: string, body: string, dateCreated: int)

  type Store = map<int, Post>

  /**
   The id SQLite gives an inserted row when nothing has ever been deleted:
   one more than the largest id, or 1 in an empty table.
   */
  function NextId(st: Store): (id: int)
    ensures forall k :: k in st ==> k < id
    ensures if st.Keys == {} then id == 1 else id - 1 in st
  {
    if st.Keys == {} then 1 else Listing.Max(st.Keys) + 1
  }

  /** `INSERT INTO posts (title, body, date_created) VALUES (?, ?, ?)`. */
  function Insert(st: Store, title: string, body: string, now: int): (r: Store)
    ensures r.Keys == st.Keys + {NextId(st)}
    ensures NextId(st) !in st
    ensures r[NextId(st)] == Post(title, body, now)
    ensures forall k :: k in st ==> r[k] == st[k]
  {
    st[NextId(st) := Post(title, body, now)]
  }

  /**
   `UPDATE posts SET title = ?, body = ? WHERE id = ?`: the matching row,
   if there is one, takes the new title and body and keeps its date.
   */
  function Update(st: Store, id: int, title: string, body: string): (r: Store)
    ensures r.Keys == st.Keys
    ensures forall k :: k in st && k != id ==> r[k] == st[k]
    ensures id in st ==> r[id] == Post(title, body, st[id].dateCreated)
    ensures id !in st ==> r == st
  {
    if id in st then st[id := st[id].(title := title, body := body)] else st
  }

  /** Running the same UPDATE twice leaves the table as running it once. */
  lemma UpdateIdempotent(st: Store, id: int, title: string, body: string)
    ensures Update(Update(st, id, title, body), id, title, body) == Update(st, id, title, body)
  {
  }

  /** A later insert gets a larger id than an earlier one. */
  lemma InsertIdsIncrease(st: Store, t1: string, b1: string, n1: int)
    ensures NextId(Insert(st, t1, b1, n1)) == NextId(st) + 1
  {
  }
}
