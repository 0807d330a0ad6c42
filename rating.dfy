/** The rating widget of a prompt's detail page (`RatingStars`): five star
    buttons that upsert the viewer's rating, the viewer's own rating fetched
    on mount, and a caption with the average and count it was given. */
module Rating {
  import opened Rows

  /** Whether star `star` is drawn filled: the hovered star decides while the
      pointer is over a star, otherwise the viewer's own rating, otherwise no
      star is filled. */
  predicate Filled(star: int, hover: Option<int>, userRating: Option<int>)
  {
    if hover.Some? then star <= hover.value
    else userRating.Some? && star <= userRating.value
  }

  /** The five stars, left to right, true where filled. Filled stars always
      form a prefix of the row; a hovered star `h` fills exactly the first `h`
      stars whatever the viewer's rating, and without hover the viewer's
      rating `v` fills exactly the first `v`. */
  function StarRow(hover: Option<int>, userRating: Option<int>): (row: seq<bool>)
    ensures |row| == 5
    ensures forall i, j :: 0 <= i <= j < 5 && row[j] ==> row[i]
    ensures hover.Some? ==> forall i :: 0 <= i < 5 ==> (row[i] <==> i < hover.value)
    ensures hover.None? && userRating.Some? ==> forall i :: 0 <= i < 5 ==> (row[i] <==> i < userRating.value)
    ensures hover.None? && userRating.None? ==> forall i :: 0 <= i < 5 ==> !row[i]
  {
    seq(5, i requires 0 <= i < 5 => Filled(i + 1, hover, userRating))
  }

  /** The caption under the stars. */
  datatype Caption = Average(average: real, count: int) | NoRatings(count: int)

  /** `rating ? 'Avg: …' : 'No ratings'` followed by `(count)`: the average
      is shown only when it is present and non-zero (zero is falsy). */
  function CaptionOf(rating: Option<real>, count: int): (c: Caption)
    ensures c.count == count
    ensures c.NoRatings? <==> rating.None? || rating.value == 0.0
    ensures c.Average? ==> c.average == rating.value
  {
    if rating.Some? && rating.value != 0.0 then Average(rating.value, count) else NoRatings(count)
  }

  class RatingStars {
    const promptId: Id
    const db: Db
    var rating: Option<real>
    var count: int
    var hoverRating: Option<int>
    var userRating: Option<int>
    var loading: bool

    /** The store is consistent and the widget only ever holds star values. */
    ghost predicate Valid()
      reads this, db
    {
      && db.Valid()
      && (userRating.Some? ==> 1 <= userRating.value <= 5)
      && (hoverRating.Some? ==> 1 <= hoverRating.value <= 5)
    }

    /** Mount: `rating` and `count` come from the page and are never set
        again; nothing is hovered, the viewer's rating is unknown. */
    constructor (promptId: Id, initialRating: Option<real>, initialCount: int, db: Db)
      requires db.Valid()
      ensures Valid()
      ensures this.promptId == promptId && this.db == db
      ensures rating == initialRating && count == initialCount
      ensures hoverRating == None && userRating == None && !loading
    {
      this.promptId, this.db := promptId, db;
      rating, count := initialRating, initialCount;
      hoverRating, userRating, loading := None, None, false;
    }

    /** The stars as drawn now. */
    function Stars(): seq<bool>
      reads this
    {
      StarRow(hoverRating, userRating)
    }

    /** The caption as drawn now. */
    function Label(): Caption
      reads this
    {
      CaptionOf(rating, count)
    }

    /** The mount effect `fetchUserRating`: for a signed-in viewer, select the
        viewer's row of this prompt; when the store returns it, show its value.
        An anonymous viewer, a missing row or a store error change nothing. */
    method FetchUserRating(user: Option<User>, reply: Reply)
      requires Valid()
      modifies this`userRating
      ensures Valid()
      ensures user.Some? && reply.Ok? && RatingKey(promptId, user.value.id) in db.ratings ==>
        userRating == Some(db.ratings[RatingKey(promptId, user.value.id)])
      ensures !(user.Some? && reply.Ok? && RatingKey(promptId, user.value.id) in db.ratings) ==>
        userRating == old(userRating)
    {
      if user.None? {
        return;
      }
      var key := RatingKey(promptId, user.value.id);
      if reply.Ok? && key in db.ratings {
        userRating := Some(db.ratings[key]);
      }
    }

    /** `onMouseEnter` of star `star`. */
    method HoverEnter(star: int)
      requires Valid() && 1 <= star <= 5
      modifies this`hoverRating
      ensures Valid() && hoverRating == Some(star)
    {
      hoverRating := Some(star);
    }

    /** `onMouseLeave` of a star. */
    method HoverLeave()
      requires Valid()
      modifies this`hoverRating
      ensures Valid() && hoverRating == None
    {
      hoverRating := None;
    }

    /** `handleRate(value)`, called only by the five star buttons (so `value`
        is 1 to 5), which are disabled while a rating is in flight. Without a signed-in user nothing is written and the shown
        rating stays. Otherwise the viewer's row for this prompt is upserted;
        when the store accepts it the shown rating becomes `value`, when it
        refuses nothing changes. `loading` is false afterwards in every case,
        and `rating` and `count` are untouched. */
    method HandleRate(value: int, user: Option<User>, reply: Reply)
      requires Valid() && 1 <= value <= 5 && !loading
      modifies this`loading, this`userRating, db`ratings
      ensures Valid() && !loading
      ensures user.None? || reply.Failed? ==> db.ratings == old(db.ratings) && userRating == old(userRating)
      ensures user.Some? && reply.Ok? ==>
        && db.ratings == Upsert(old(db.ratings), RatingKey(promptId, user.value.id), value)
        && userRating == Some(value)
    {
      loading := true;
      if user.None? {
        loading := false;
        return;
      }
      if reply.Ok? {
        db.ratings := Upsert(db.ratings, RatingKey(promptId, user.value.id), value);
        userRating := Some(value);
      }
      loading := false;
    }
  }

  /** Rating the same prompt twice as the same user leaves one row holding the
      second value, and the rows of every other pair as they were. */
  lemma {:induction false} RerateKeepsOneRow(m: map<RatingKey, int>, p: Id, u: Id, v1: int, v2: int)
    ensures var k := RatingKey(p, u);
      && RowsFor(Upsert(Upsert(m, k, v1), k, v2), p, u) == {RatingRow(p, u, v2)}
      && |KeysOf(Upsert(Upsert(m, k, v1), k, v2), p)| == |KeysOf(Upsert(m, k, v1), p)|
  {
    var k := RatingKey(p, u);
    UpsertOverwrites(m, k, v1, v2);
    UpsertLeavesOneRow(m, k, v2);
    UpsertCount(Upsert(m, k, v1), k, v2, p);
  }
}
