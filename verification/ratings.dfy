/** Ratings: the `/ratings` routes. A user rates an entity (named by a type
    and an id) at most once. */
module Ratings {
  import opened Wrappers
  import opened Domain
  import opened Store
  import opened Seqs

  /** The body of `POST /ratings`. */
  datatype RatingBody = RatingBody(
    entityType: Option<string>,
    entityId: Option<nat>,
    value: Option<int>,
    comment: Option<string>)

  /** The stored rating matches `rater_id = $1 AND rated_entity_type = $2
      AND rated_entity_id = $3`; NULL matches nothing. */
  predicate SameTarget(x: Rating, rater: nat, entityType: Option<string>, entityId: Option<nat>)
  {
    x.raterId == rater && SqlEq(x.entityType, entityType) && SqlEq(x.entityId, entityId)
  }

  predicate HasRated(db: Db, rater: nat, b: RatingBody)
  {
    exists i :: 0 <= i < |db.ratings| && SameTarget(db.ratings[i], rater, b.entityType, b.entityId)
  }

  /** `POST /ratings`: any authenticated actor; a second rating of the same
      entity by the same rater is refused; otherwise one rating is stored
      with the actor as the rater. */
  function SubmitRating(db: Db, actor: User, b: RatingBody): (r: Result<(Db, Rating)>)
    ensures HasRated(db, actor.id, b) ==>
              b.entityType.Some? && r == Err(BadRequest("You have already rated this " + b.entityType.value))
    ensures r.Ok? <==> !HasRated(db, actor.id, b)
    ensures r.Ok? ==> r.value.0.ratings == db.ratings + [r.value.1]
    ensures r.Ok? ==> FrameExcept(db, r.value.0, {Ratings})
    ensures r.Ok? ==> r.value.1.raterId == actor.id
    ensures r.Ok? ==> r.value.1.entityType == b.entityType && r.value.1.entityId == b.entityId
    ensures r.Ok? ==> r.value.1.value == b.value && r.value.1.comment == b.comment
  {
    if HasRated(db, actor.id, b) then
      Err(BadRequest("You have already rated this " + b.entityType.value))
    else
      var row := Rating(|db.ratings| + 1, actor.id, b.entityType, b.entityId, b.value, b.comment);
      Ok((db.(ratings := db.ratings + [row]), row))
  }

  /** After one successful rating, every later submission by the same rater
      for the same entity is refused, whatever its value or comment. */
  lemma RepeatRatingRejected(db: Db, actor: User, b: RatingBody, again: RatingBody)
    requires SubmitRating(db, actor, b).Ok?
    requires b.entityType.Some? && b.entityId.Some?
    requires again.entityType == b.entityType && again.entityId == b.entityId
    ensures SubmitRating(SubmitRating(db, actor, b).value.0, actor, again).Err?
  {
    var db' := SubmitRating(db, actor, b).value.0;
    assert SameTarget(db'.ratings[|db.ratings|], actor.id, again.entityType, again.entityId);
  }

  /** At most one rating per (rater, type, id) among fully named targets. */
  ghost predicate OneRatingPerTarget(db: Db)
  {
    forall i, j :: 0 <= i < j < |db.ratings| ==>
      !SameTarget(db.ratings[j], db.ratings[i].raterId, db.ratings[i].entityType, db.ratings[i].entityId)
  }

  /** Every successful submission keeps one rating per target. */
  lemma SubmitKeepsOneRatingPerTarget(db: Db, actor: User, b: RatingBody)
    requires OneRatingPerTarget(db)
    requires SubmitRating(db, actor, b).Ok?
    ensures OneRatingPerTarget(SubmitRating(db, actor, b).value.0)
  {
    var rs := SubmitRating(db, actor, b).value.0.ratings;
    forall i, j | 0 <= i < j < |rs|
      ensures !SameTarget(rs[j], rs[i].raterId, rs[i].entityType, rs[i].entityId)
    {
      if j == |db.ratings| {
        assert rs[i] == db.ratings[i];
        if SameTarget(rs[j], rs[i].raterId, rs[i].entityType, rs[i].entityId) {
          assert SameTarget(db.ratings[i], actor.id, b.entityType, b.entityId);
        }
      }
    }
  }

  /** A rating of an entity as listed: with the rater's name from the join. */
  datatype RatingItem = RatingItem(rating: Rating, raterName: Option<string>)

  /** The joined ratings of `rs` for the entity, newest first. */
  function RatingItems(rs: seq<Rating>, users: seq<User>, entityType: string, entityId: nat): (r: seq<RatingItem>)
    ensures forall x :: x in r <==>
      && x.rating in rs
      && x.rating.entityType == Some(entityType) && x.rating.entityId == Some(entityId)
      && FindUser(users, x.rating.raterId).Some?
      && x.raterName == FindUser(users, x.rating.raterId).value.name
  {
    if |rs| == 0 then []
    else
      var x := rs[|rs| - 1];
      assert rs == rs[..|rs| - 1] + [x];
      RatingItem1(x, users, entityType, entityId) + RatingItems(rs[..|rs| - 1], users, entityType, entityId)
  }

  /** The item one rating contributes: none when it is of another entity or
      its rater is missing. */
  function RatingItem1(x: Rating, users: seq<User>, entityType: string, entityId: nat): seq<RatingItem>
  {
    if x.entityType == Some(entityType) && x.entityId == Some(entityId) then
      match FindUser(users, x.raterId) case Some(u) => [RatingItem(x, u.name)] case None => []
    else []
  }

  /** The rating is of that entity, and its rater row exists. */
  predicate RatedBy(users: seq<User>, entityType: string, entityId: nat, x: Rating)
  {
    x.entityType == Some(entityType) && x.entityId == Some(entityId) && FindUser(users, x.raterId).Some?
  }

  /** The rating rows of a list of rating items. */
  function RatingRows(r: seq<RatingItem>): (rows: seq<Rating>)
    ensures |rows| == |r|
  {
    seq(|r|, i requires 0 <= i < |r| => r[i].rating)
  }

  lemma RatingItem1Row(x: Rating, users: seq<User>, entityType: string, entityId: nat)
    ensures RatingRows(RatingItem1(x, users, entityType, entityId)) == if RatedBy(users, entityType, entityId, x) then [x] else []
  {
  }

  lemma RatingRowsConcat(a: seq<RatingItem>, b: seq<RatingItem>)
    ensures RatingRows(a + b) == RatingRows(a) + RatingRows(b)
  {
  }

  /** `ORDER BY r.created_at DESC`: the listed rows are the entity's rated
      rows of the table, newest first. */
  lemma {:induction false} RatingItemsNewestFirst(rs: seq<Rating>, users: seq<User>, entityType: string, entityId: nat)
    ensures RatingRows(RatingItems(rs, users, entityType, entityId))
            == Reverse(Filter(rs, (x: Rating) => RatedBy(users, entityType, entityId, x)))
  {
    var p := (x: Rating) => RatedBy(users, entityType, entityId, x);
    if |rs| > 0 {
      var front := rs[..|rs| - 1];
      var x := rs[|rs| - 1];
      assert rs == front + [x];
      RatingItemsNewestFirst(front, users, entityType, entityId);
      FilterAppend(front, x, p);
      RatingItem1Row(x, users, entityType, entityId);
      RatingRowsConcat(RatingItem1(x, users, entityType, entityId), RatingItems(front, users, entityType, entityId));
      ReverseAppend(Filter(front, p), x);
    }
  }

  /** `GET /ratings/entity/:type/:id`: the ratings of that entity. */
  function EntityRatings(db: Db, entityType: string, entityId: nat): (r: seq<RatingItem>)
    ensures forall x :: x in r ==>
      x.rating in db.ratings && x.rating.entityType == Some(entityType) && x.rating.entityId == Some(entityId)
    ensures forall x ::
              (x in db.ratings && x.entityType == Some(entityType) && x.entityId == Some(entityId)
               && FindUser(db.users, x.raterId).Some?) ==>
              RatingItem(x, FindUser(db.users, x.raterId).value.name) in r
    ensures RatingRows(r) == Reverse(Filter(db.ratings, (x: Rating) => RatedBy(db.users, entityType, entityId, x)))
  {
    RatingItemsNewestFirst(db.ratings, db.users, entityType, entityId);
    RatingItems(db.ratings, db.users, entityType, entityId)
  }

  /** `GET /ratings/my-ratings`: the actor's own ratings, newest first (read
      backwards, the list keeps table order). */
  function MyRatings(db: Db, actor: User): (r: seq<Rating>)
    ensures forall x :: x in r <==> x in db.ratings && x.raterId == actor.id
    ensures |r| == Count(db.ratings, (x: Rating) => x.raterId == actor.id)
    ensures IsSubsequence(Reverse(r), db.ratings)
  {
    var p := (x: Rating) => x.raterId == actor.id;
    ReverseMembers(Filter(db.ratings, p));
    ReverseReverse(Filter(db.ratings, p));
    FilterIsSubsequence(db.ratings, p);
    Reverse(Filter(db.ratings, p))
  }

  /** A new rating heads the rater's own list and, when the rater's row
      exists, the entity's list. */
  lemma NewRatingListedFirst(db: Db, actor: User, b: RatingBody)
    requires SubmitRating(db, actor, b).Ok?
    requires b.entityType.Some? && b.entityId.Some?
    ensures var (db1, row) := SubmitRating(db, actor, b).value;
            MyRatings(db1, actor) == [row] + MyRatings(db, actor)
    ensures var (db1, row) := SubmitRating(db, actor, b).value;
            FindUser(db.users, actor.id) == Some(actor) ==>
              EntityRatings(db1, b.entityType.value, b.entityId.value)
              == [RatingItem(row, actor.name)] + EntityRatings(db, b.entityType.value, b.entityId.value)
  {
    var (db1, row) := SubmitRating(db, actor, b).value;
    assert db1.users == db.users;
    FilterAppend(db.ratings, row, (x: Rating) => x.raterId == actor.id);
    ReverseAppend(Filter(db.ratings, (x: Rating) => x.raterId == actor.id), row);
    assert (db.ratings + [row])[..|db.ratings|] == db.ratings;
  }
}
