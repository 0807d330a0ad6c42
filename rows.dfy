/** The rows the components read and write, the shared store client (`Db`)
    that holds the three tables and the image bucket, and the store's
    row operations: keyed upsert, delete by id, update by id, insert. */
module Rows {

  type Id = string

  datatype Option<T> = None | Some(value: T)

  /** An authenticated account as the identity source returns it. */
  datatype User = User(id: Id, email: string)

  /** A row of `prompts`. */
  datatype Prompt = Prompt(
    id: Id,
    userId: Id,
    title: string,
    description: Option<string>,
    promptText: string,
    imageUrl: Option<string>,
    createdAt: int)

  /** The uniqueness key of `ratings`: one row per (prompt_id, user_id). */
  datatype RatingKey = RatingKey(promptId: Id, userId: Id)

  /** A row of `ratings` as a select returns it. */
  datatype RatingRow = RatingRow(promptId: Id, userId: Id, value: int)

  /** A row of `comments`. */
  datatype Comment = Comment(id: Id, promptId: Id, userId: Id, content: string, createdAt: int)

  /** An image file picked in the browser. */
  datatype File = File(name: string)

  /** The answer of one store or storage request: success, or an error
      carrying its message. */
  datatype Reply = Ok | Failed(message: string)

  /** `err.message || 'Something went wrong.'`: the text the forms show. */
  function ErrorText(message: string): (t: string)
    ensures t != ""
    ensures message != "" ==> t == message
  {
    if message == "" then "Something went wrong." else message
  }

  /** The store client: the `prompts`, `ratings` and `comments` tables and the
      `prompt-images` storage bucket. */
  class Db {
    var prompts: map<Id, Prompt>
    var ratings: map<RatingKey, int>
    var comments: seq<Comment>
    var objects: map<string, File>
    const projectUrl: string

    /** Every prompt is stored under its own id, and every rating is a star
        value from 1 to 5. */
    ghost predicate Valid()
      reads this
    {
      && (forall id :: id in prompts ==> prompts[id].id == id)
      && (forall k :: k in ratings ==> 1 <= ratings[k] <= 5)
    }

    constructor (projectUrl: string)
      ensures Valid()
      ensures prompts == map[] && ratings == map[] && comments == [] && objects == map[]
      ensures this.projectUrl == projectUrl
    {
      prompts, ratings, comments, objects := map[], map[], [], map[];
      this.projectUrl := projectUrl;
    }
  }

  // ---------------------------------------------------------------------------
  // ratings: upsert with onConflict 'prompt_id, user_id'

  /** The rows of the `ratings` table. */
  function RatingRows(m: map<RatingKey, int>): set<RatingRow>
  {
    set k | k in m :: RatingRow(k.promptId, k.userId, m[k])
  }

  /** The rows a `.eq('prompt_id', p).eq('user_id', u)` select returns. */
  function RowsFor(m: map<RatingKey, int>, p: Id, u: Id): set<RatingRow>
  {
    set r | r in RatingRows(m) && r.promptId == p && r.userId == u
  }

  /** The keys of the ratings of prompt `p`. */
  function KeysOf(m: map<RatingKey, int>, p: Id): set<RatingKey>
  {
    set k | k in m && k.promptId == p
  }

  /** Insert-or-replace keyed on (prompt_id, user_id): afterwards the key holds
      `v`, and every other key holds what it held before. */
  function Upsert(m: map<RatingKey, int>, k: RatingKey, v: int): (r: map<RatingKey, int>)
    ensures r.Keys == m.Keys + {k}
    ensures r[k] == v
    ensures forall j :: j in m && j != k ==> r[j] == m[j]
  {
    m[k := v]
  }

  /** The table never holds two rows for one (prompt, user) pair. */
  lemma {:induction false} AtMostOneRowPerPair(m: map<RatingKey, int>, p: Id, u: Id)
    ensures |RowsFor(m, p, u)| <= 1
    ensures RowsFor(m, p, u) == {} <==> RatingKey(p, u) !in m
  {
    var k := RatingKey(p, u);
    if k in m {
      assert RowsFor(m, p, u) == {RatingRow(p, u, m[k])};
    } else {
      assert RowsFor(m, p, u) == {};
    }
  }

  /** After an upsert exactly one row exists for the pair, holding the new
      value; and the rows of every other pair are the rows they were. */
  lemma {:induction false} UpsertLeavesOneRow(m: map<RatingKey, int>, k: RatingKey, v: int)
    ensures RowsFor(Upsert(m, k, v), k.promptId, k.userId) == {RatingRow(k.promptId, k.userId, v)}
    ensures forall p, u :: RatingKey(p, u) != k ==> RowsFor(Upsert(m, k, v), p, u) == RowsFor(m, p, u)
  {
    var r := Upsert(m, k, v);
    AtMostOneRowPerPair(r, k.promptId, k.userId);
    assert RatingRow(k.promptId, k.userId, v) in RowsFor(r, k.promptId, k.userId);
    forall p, u | RatingKey(p, u) != k
      ensures RowsFor(r, p, u) == RowsFor(m, p, u)
    {
      var j := RatingKey(p, u);
      AtMostOneRowPerPair(r, p, u);
      AtMostOneRowPerPair(m, p, u);
      if j in m {
        assert RatingRow(p, u, m[j]) in RowsFor(r, p, u);
        assert RatingRow(p, u, m[j]) in RowsFor(m, p, u);
      }
    }
  }

  /** A second upsert of the same key overwrites the first: rating twice is
      rating once with the later value. */
  lemma {:induction false} UpsertOverwrites(m: map<RatingKey, int>, k: RatingKey, v1: int, v2: int)
    ensures Upsert(Upsert(m, k, v1), k, v2) == Upsert(m, k, v2)
  {
    var a, b := Upsert(Upsert(m, k, v1), k, v2), Upsert(m, k, v2);
    assert a.Keys == b.Keys;
    assert forall j :: j in a ==> a[j] == b[j];
  }

  /** The number of ratings of the upserted prompt grows by one for a new
      rater and stays the same for a re-rate; other prompts keep their count. */
  lemma {:induction false} UpsertCount(m: map<RatingKey, int>, k: RatingKey, v: int, p: Id)
    ensures p == k.promptId && k !in m ==> |KeysOf(Upsert(m, k, v), p)| == |KeysOf(m, p)| + 1
    ensures p == k.promptId && k in m ==> |KeysOf(Upsert(m, k, v), p)| == |KeysOf(m, p)|
    ensures p != k.promptId ==> KeysOf(Upsert(m, k, v), p) == KeysOf(m, p)
  {
    var r := Upsert(m, k, v);
    if p == k.promptId {
      assert KeysOf(r, p) == KeysOf(m, p) + {k};
      if k !in m {
        assert k !in KeysOf(m, p);
      } else {
        assert KeysOf(m, p) + {k} == KeysOf(m, p);
      }
    }
  }

  // ---------------------------------------------------------------------------
  // prompts: delete, update and insert by id

  /** `.delete().eq('id', id)`: the row with that id is gone (if there was one)
      and every other row is untouched. */
  function DeleteById(m: map<Id, Prompt>, id: Id): (r: map<Id, Prompt>)
    ensures r.Keys == m.Keys - {id}
    ensures forall j :: j in r ==> r[j] == m[j]
    ensures |r| == if id in m then |m| - 1 else |m|
  {
    var r := map j | j in m && j != id :: m[j];
    assert r.Keys == m.Keys - {id};
    r
  }

  /** `.update({ title, description, prompt_text }).eq('id', id)`: of the row
      with that id, exactly the three text columns take the new values (the
      description is stored as given, never null); the row's id, owner, image
      and creation time, and every other row, are untouched. An id with no row
      updates nothing. */
  function UpdateText(m: map<Id, Prompt>, id: Id, title: string, description: string, promptText: string)
    : (r: map<Id, Prompt>)
    ensures r.Keys == m.Keys
    ensures forall j :: j in m && j != id ==> r[j] == m[j]
    ensures id in m ==>
      && r[id].title == title && r[id].description == Some(description) && r[id].promptText == promptText
      && r[id].id == m[id].id && r[id].userId == m[id].userId
      && r[id].imageUrl == m[id].imageUrl && r[id].createdAt == m[id].createdAt
  {
    if id in m then
      m[id := m[id].(title := title, description := Some(description), promptText := promptText)]
    else m
  }

  /** `.insert(row)` under the primary key on `id`: the insert is refused when
      the id is taken, otherwise exactly that row is added. */
  function InsertRow(m: map<Id, Prompt>, row: Prompt): (r: Option<map<Id, Prompt>>)
    ensures r.None? <==> row.id in m
    ensures r.Some? ==> r.value.Keys == m.Keys + {row.id} && |r.value| == |m| + 1
    ensures r.Some? ==> r.value[row.id] == row && forall j :: j in m ==> r.value[j] == m[j]
  {
    if row.id in m then None else Some(m[row.id := row])
  }

  /** PostgreSQL's error for a second row under a taken primary key of
      `prompts`. */
  const DuplicateKey: string := "duplicate key value violates unique constraint \"prompts_pkey\""

  /** The answer to `.insert(row)`: the store's own failure, or a refusal when
      the id is taken, or success. */
  function InsertAnswer(m: map<Id, Prompt>, row: Prompt, reply: Reply): (a: Reply)
    ensures a.Ok? <==> reply.Ok? && InsertRow(m, row).Some?
    ensures reply.Failed? ==> a == reply
    ensures reply.Ok? && row.id in m ==> a == Failed(DuplicateKey)
  {
    if reply.Failed? then reply else if row.id in m then Failed(DuplicateKey) else Ok
  }

  // ---------------------------------------------------------------------------
  // storage bucket 'prompt-images'

  /** The storage service's error for an upload to a path that already holds
      an object (uploads do not overwrite). */
  const DuplicateObject: string := "The resource already exists"

  /** The answer to `.upload(path, file)`: the service's own failure, or a
      refusal when the path is taken, or success. */
  function UploadAnswer(objects: map<string, File>, path: string, reply: Reply): (a: Reply)
    ensures a.Ok? <==> reply.Ok? && path !in objects
    ensures reply.Failed? ==> a == reply
    ensures reply.Ok? && path in objects ==> a == Failed(DuplicateObject)
  {
    if reply.Failed? then reply else if path in objects then Failed(DuplicateObject) else Ok
  }

  /** `getPublicUrl(path)` of the `prompt-images` bucket: the project's public
      object address followed by the path. The client's `encodeURI` pass over
      the whole address is not modelled; being injective, it would not change
      which path a URL names. */
  function PublicUrl(projectUrl: string, path: string): string
  {
    projectUrl + PublicPrefix() + path
  }

  function PublicPrefix(): string
  {
    "/storage/v1/object/public/prompt-images/"
  }

  /** Distinct uploaded paths have distinct public URLs, so the image URL a
      prompt row stores names the one object that was uploaded for it. */
  lemma {:induction false} PublicUrlNamesPath(projectUrl: string, p1: string, p2: string)
    requires PublicUrl(projectUrl, p1) == PublicUrl(projectUrl, p2)
    ensures p1 == p2
  {
    var n := |projectUrl + PublicPrefix()|;
    assert p1 == PublicUrl(projectUrl, p1)[n..];
    assert p2 == PublicUrl(projectUrl, p2)[n..];
  }
}
