/** The comment thread of a prompt's detail page (`CommentSection`): the
    prompt's comments newest first, and a form through which a signed-in user
    posts a new one. */
module Comments {
  import opened Rows
  import opened Text
  import opened Ordering

  /** `.select('*').eq('prompt_id', promptId).order('created_at', desc)` over
      the `comments` table: exactly the prompt's comments, each as often as it
      is stored, newest first. */
  function CommentsOf(all: seq<Comment>, promptId: Id): (r: seq<Comment>)
    ensures forall c :: c in r <==> c in all && c.promptId == promptId
    ensures forall c: Comment :: c.promptId == promptId ==> multiset(r)[c] == multiset(all)[c]
    ensures forall c: Comment :: c.promptId != promptId ==> multiset(r)[c] == 0
    ensures SortedDesc(r, CreatedAt)
  {
    var mine := Filter(all, OnPrompt(promptId));
    var r := SortDesc(mine, CreatedAt);
    FilterRows(all, OnPrompt(promptId));
    SortDescSameRows(mine, CreatedAt);
    r
  }

  /** The condition `.eq('prompt_id', promptId)`. */
  function OnPrompt(promptId: Id): Comment -> bool
  {
    (c: Comment) => c.promptId == promptId
  }

  /** The ordering column `created_at`. */
  function CreatedAt(c: Comment): int
  {
    c.createdAt
  }

  /** The author line of a comment, `User ${user_id.slice(0, 6)}...`. */
  function AuthorLabel(userId: Id): (l: string)
    ensures |l| == 5 + Min(6, |userId|) + 3
    ensures l[..5] == "User " && l[|l| - 3..] == "..."
    ensures l[5..|l| - 3] == userId[..Min(6, |userId|)]
  {
    "User " + userId[..Min(6, |userId|)] + "..."
  }

  function Min(a: int, b: int): int
  {
    if a <= b then a else b
  }

  /** Two authors get the same label exactly when their ids agree on the first
      six characters: the label does not tell longer ids apart. */
  lemma {:induction false} AuthorLabelIff(a: Id, b: Id)
    ensures AuthorLabel(a) == AuthorLabel(b) <==> a[..Min(6, |a|)] == b[..Min(6, |b|)]
  {
    var la, lb := AuthorLabel(a), AuthorLabel(b);
    if la == lb {
      assert a[..Min(6, |a|)] == la[5..|la| - 3];
      assert b[..Min(6, |b|)] == lb[5..|lb| - 3];
    }
  }

  /** The comment `content` that user `userId` posted on `promptId`, with the
      id and time the store assigned to the row. */
  function Posted(rowId: Id, promptId: Id, userId: Id, content: string, now: int): Comment
  {
    Comment(rowId, promptId, userId, content, now)
  }

  class CommentSection {
    const promptId: Id
    const db: Db
    var comments: seq<Comment>
    var newComment: string
    var user: Option<User>
    var loading: bool

    /** Mount, before the effects: no comments shown, an empty form, no user. */
    constructor (promptId: Id, db: Db)
      ensures this.promptId == promptId && this.db == db
      ensures comments == [] && newComment == "" && user == None && !loading
    {
      this.promptId, this.db := promptId, db;
      comments, newComment, user, loading := [], "", None, false;
    }

    /** The mount effect's `getUser().then(setUser)`. */
    method LoadUser(signedIn: Option<User>)
      modifies this`user
      ensures user == signedIn
    {
      user := signedIn;
    }

    /** `fetchComments`: on success show the prompt's comments as the store
        returns them (an empty list included); on error keep what is shown. */
    method FetchComments(reply: Reply)
      modifies this`comments
      ensures reply.Ok? ==> comments == CommentsOf(db.comments, promptId)
      ensures reply.Failed? ==> comments == old(comments)
    {
      if reply.Ok? {
        comments := CommentsOf(db.comments, promptId);
      }
    }

    /** The textarea's `onChange`. */
    method Edit(text: string)
      modifies this`newComment
      ensures newComment == text
    {
      newComment := text;
    }

    /** The guard of `handleSubmit`, `!newComment.trim() || !user`, negated:
        by `Trim`'s contract the draft trims to the empty string exactly when
        it is blank. */
    predicate CanPost()
      reads this
    {
      !IsBlank(newComment) && user.Some?
    }

    /** `handleSubmit`, from the enabled Post button. A blank draft or no
        signed-in user changes nothing at all. Otherwise the draft is inserted
        as written (untrimmed) under the user's id; on success the draft is
        cleared and the thread refetched, on failure the draft is kept and the
        table unchanged. `loading` is false afterwards. */
    method HandleSubmit(rowId: Id, now: int, insertReply: Reply, fetchReply: Reply)
      requires !loading
      modifies this`loading, this`newComment, this`comments, db`comments
      ensures !loading
      ensures !old(CanPost()) ==>
        db.comments == old(db.comments) && newComment == old(newComment) && comments == old(comments)
      ensures old(CanPost()) ==> Inserted(rowId, now, insertReply, fetchReply, old(db.comments), old(newComment), old(comments))
    {
      if !CanPost() {
        return;
      }
      loading := true;
      Insert(rowId, now, insertReply, fetchReply);
      loading := false;
    }

    /** The state after the insert of `handleSubmit` with draft `draft`: on
        success the row is appended, the draft cleared and the thread
        refetched; on failure the table, the draft and the thread are as
        they were. */
    ghost predicate Inserted(rowId: Id, now: int, insertReply: Reply, fetchReply: Reply,
                             before: seq<Comment>, draft: string, shown: seq<Comment>)
      reads this, db
    {
      if insertReply.Failed? then
        db.comments == before && newComment == draft && comments == shown
      else
        && user.Some?
        && db.comments == before + [Posted(rowId, promptId, user.value.id, draft, now)]
        && newComment == ""
        && comments == (if fetchReply.Ok? then CommentsOf(db.comments, promptId) else shown)
    }

    /** The insert and the refetch that follow a passed guard. */
    method Insert(rowId: Id, now: int, insertReply: Reply, fetchReply: Reply)
      requires CanPost()
      modifies this`newComment, this`comments, db`comments
      ensures Inserted(rowId, now, insertReply, fetchReply, old(db.comments), old(newComment), old(comments))
    {
      if insertReply.Ok? {
        var stored := db.comments + [Posted(rowId, promptId, user.value.id, newComment, now)];
        db.comments := stored;
        newComment := "";
        FetchComments(fetchReply);
        assert db.comments == stored;
      }
    }
  }

  /** A posted comment appears in its prompt's refetched thread, and every
      other prompt's thread is exactly what it was. */
  lemma {:induction false} PostedCommentShown(all: seq<Comment>, c: Comment, q: Id)
    ensures c in CommentsOf(all + [c], c.promptId)
    ensures q != c.promptId ==> CommentsOf(all + [c], q) == CommentsOf(all, q)
  {
    assert c in all + [c];
    if q != c.promptId {
      FilterAppend(all, c, OnPrompt(q));
      assert !OnPrompt(q)(c);
      assert Filter(all + [c], OnPrompt(q)) == Filter(all, OnPrompt(q));
    }
  }
}
