/** Reviews of a vehicle: the paged listing with each author's name, adding
    a review (which then recomputes the vehicle's rating columns from every
    review row), and deleting a review, which only its author may do. */
module ReviewService {
  import opened Common
  import opened Schema
  import opened Sorting
  import Paging
  import VehicleService

  /** A listed review: `r.*` with the author's `full_name` and `avatar_url`,
      both NULL when the LEFT JOIN finds no author. */
  datatype ReviewRow = ReviewRow(review: Review, fullName: Option<string>, avatarUrl: Option<string>)

  /** The object `getVehicleReviews` resolves to. */
  datatype ReviewPage = ReviewPage(data: seq<ReviewRow>, total: nat, page: int, pages: Option<nat>)

  /** The user a review's `user_id` names; a NULL `user_id` joins no one. */
  function FindUser(users: seq<User>, id: Option<int>): (r: Option<User>)
    ensures r.Some? <==> id.Some? && exists i :: 0 <= i < |users| && users[i].id == id.value
    ensures r.Some? ==> r.value in users && r.value.id == id.value
  {
    if id.None? || |users| == 0 then None
    else if users[0].id == id.value then Some(users[0])
    else
      var r := FindUser(users[1..], id);
      assert (exists i :: 0 <= i < |users| && users[i].id == id.value) ==>
             (exists i :: 0 <= i < |users[1..]| && users[1..][i].id == id.value) by {
        if exists i :: 0 <= i < |users| && users[i].id == id.value {
          var i :| 0 <= i < |users| && users[i].id == id.value;
          assert users[1..][i - 1] == users[i];
        }
      }
      r
  }

  /** One row of the LEFT JOIN: the review, and its author's columns if the
      author exists. */
  function WithAuthor(users: seq<User>, rv: Review): ReviewRow
  {
    var u := FindUser(users, rv.userId);
    ReviewRow(rv, if u.Some? then Some(u.value.fullName) else None, if u.Some? then u.value.avatarUrl else None)
  }

  /** The LEFT JOIN keeps every review, in order. */
  function JoinAuthors(reviews: seq<Review>, users: seq<User>): (r: seq<ReviewRow>)
    ensures |r| == |reviews|
    ensures forall k :: 0 <= k < |r| ==> r[k] == WithAuthor(users, reviews[k])
  {
    seq(|reviews|, k requires 0 <= k < |reviews| => WithAuthor(users, reviews[k]))
  }

  /** `WHERE vehicle_id = $1`: the vehicle's reviews, in table order. */
  function ReviewsOf(s: Store, vehicleId: int): seq<Review>
  {
    Filter(s.reviews, (rv: Review) => rv.vehicleId == vehicleId)
  }

  /** Sort key of `ORDER BY r.created_at DESC`. */
  function NewestFirst(row: ReviewRow): Key
  {
    Key(-(row.review.createdAt as real), 0.0)
  }

  /** The vehicle's reviews with their authors, newest first, before
      `LIMIT`/`OFFSET`. */
  function ReviewListing(s: Store, vehicleId: int): seq<ReviewRow>
  {
    SortBy(JoinAuthors(ReviewsOf(s, vehicleId), s.users), NewestFirst)
  }

  /** `getVehicleReviews(vehicleId, page, limit)`: `total` counts every
      review of the vehicle, `data` is the window at `(page - 1) * limit`,
      and a negative offset or limit is refused by Postgres. */
  function GetVehicleReviews(s: Store, vehicleId: int, page: int, limit: int): (r: Result<ReviewPage, DbError>)
    ensures r == Failure(NegativeOffset) <==> Paging.Offset(page, limit) < 0
    ensures r == Failure(NegativeLimit) <==> Paging.Offset(page, limit) >= 0 && limit < 0
    ensures r.Success? ==>
      && r.value.total == |ReviewsOf(s, vehicleId)|
      && r.value.data == Paging.Window(ReviewListing(s, vehicleId), Paging.Offset(page, limit), limit)
      && r.value.page == page
      && r.value.pages == Paging.PageCount(r.value.total, limit)
  {
    var total := |ReviewsOf(s, vehicleId)|;
    match Paging.LimitOffset(ReviewListing(s, vehicleId), limit, Paging.Offset(page, limit))
    case Failure(e) => Failure(if e.NegativeOffset? then NegativeOffset else NegativeLimit)
    case Success(rows) => Success(ReviewPage(rows, total, page, Paging.PageCount(total, limit)))
  }

  /** The listing holds exactly the vehicle's reviews, each once per row,
      newest first, each carrying its author's columns. */
  lemma ReviewListingContents(s: Store, vehicleId: int)
    ensures var xs := ReviewListing(s, vehicleId);
      && |xs| == |ReviewsOf(s, vehicleId)|
      && (forall i, j :: 0 <= i < j < |xs| ==> xs[i].review.createdAt >= xs[j].review.createdAt)
      && (forall k :: 0 <= k < |xs| ==>
            && xs[k].review in s.reviews
            && xs[k].review.vehicleId == vehicleId
            && xs[k] == WithAuthor(s.users, xs[k].review))
      && (forall rv :: rv in s.reviews && rv.vehicleId == vehicleId ==>
            exists k :: 0 <= k < |xs| && xs[k].review == rv)
  {
    var rs := ReviewsOf(s, vehicleId);
    var joined := JoinAuthors(rs, s.users);
    var xs := ReviewListing(s, vehicleId);
    forall i, j | 0 <= i < j < |xs|
      ensures xs[i].review.createdAt >= xs[j].review.createdAt
    {
      assert KeyLe(NewestFirst(xs[i]), NewestFirst(xs[j]));
    }
    forall k | 0 <= k < |xs|
      ensures xs[k].review in s.reviews && xs[k].review.vehicleId == vehicleId
      ensures xs[k] == WithAuthor(s.users, xs[k].review)
    {
      assert xs[k] in multiset(joined);
      var m :| 0 <= m < |joined| && joined[m] == xs[k];
      assert rs[m] in rs;
    }
    forall rv | rv in s.reviews && rv.vehicleId == vehicleId
      ensures exists k :: 0 <= k < |xs| && xs[k].review == rv
    {
      var i :| 0 <= i < |s.reviews| && s.reviews[i] == rv;
      assert rv in rs;
      var m :| 0 <= m < |rs| && rs[m] == rv;
      assert joined[m] in multiset(xs);
      var k :| 0 <= k < |xs| && xs[k] == joined[m];
    }
  }

  /** One request for page `p` of a positive limit: the `p`-th page of the
      listing the model orders, empty past the last page, and `pages` is the
      number of pages. The LEFT JOIN drops no review, so this needs no
      assumption about the store. */
  lemma ReviewPageOfListing(s: Store, vehicleId: int, page: int, limit: int)
    requires limit > 0 && page >= 1
    ensures var xs := ReviewListing(s, vehicleId);
      && GetVehicleReviews(s, vehicleId, page, limit).Success?
      && GetVehicleReviews(s, vehicleId, page, limit).value.pages == Some(|Paging.Pages(xs, limit)|)
      && (page <= |Paging.Pages(xs, limit)| ==> GetVehicleReviews(s, vehicleId, page, limit).value.data == Paging.Pages(xs, limit)[page - 1])
      && (page > |Paging.Pages(xs, limit)| ==> GetVehicleReviews(s, vehicleId, page, limit).value.data == [])
  {
    var xs := ReviewListing(s, vehicleId);
    Paging.WindowIsPage(xs, limit, page);
    Paging.PagesCount(xs, limit);
  }

  /** No two different reviews of the vehicle were created at the same
      instant, so `ORDER BY r.created_at DESC` leaves no tie to break. */
  predicate DistinctInstants(s: Store, vehicleId: int)
  {
    forall i, j ::
      && 0 <= i < |s.reviews| && 0 <= j < |s.reviews|
      && s.reviews[i].vehicleId == vehicleId && s.reviews[j].vehicleId == vehicleId
      && s.reviews[i].createdAt == s.reviews[j].createdAt
      ==> s.reviews[i] == s.reviews[j]
  }

  /** When the vehicle's reviews have distinct creation times, the listing
      is the only newest-first arrangement of them: any arrangement `xs` of
      the joined rows with `created_at` descending is the model's. */
  lemma ReviewOrderDetermined(s: Store, vehicleId: int, xs: seq<ReviewRow>)
    requires DistinctInstants(s, vehicleId)
    requires multiset(xs) == multiset(JoinAuthors(ReviewsOf(s, vehicleId), s.users))
    requires forall i, j :: 0 <= i < j < |xs| ==> xs[i].review.createdAt >= xs[j].review.createdAt
    ensures xs == ReviewListing(s, vehicleId)
  {
    var joined := JoinAuthors(ReviewsOf(s, vehicleId), s.users);
    forall i, j | 0 <= i < j < |xs|
      ensures KeyLe(NewestFirst(xs[i]), NewestFirst(xs[j]))
    {
    }
    forall x, y | x in xs && y in xs && NewestFirst(x) == NewestFirst(y)
      ensures x == y
    {
      JoinedIsReview(s, vehicleId, x);
      JoinedIsReview(s, vehicleId, y);
    }
    SortedPermutationUnique(xs, ReviewListing(s, vehicleId), NewestFirst);
  }

  /** A row of the joined reviews is a review of the vehicle with its
      author's columns. */
  lemma JoinedIsReview(s: Store, vehicleId: int, x: ReviewRow)
    requires x in multiset(JoinAuthors(ReviewsOf(s, vehicleId), s.users))
    ensures x.review in s.reviews && x.review.vehicleId == vehicleId
    ensures x == WithAuthor(s.users, x.review)
  {
    var rs := ReviewsOf(s, vehicleId);
    var joined := JoinAuthors(rs, s.users);
    var m :| 0 <= m < |joined| && joined[m] == x;
    assert rs[m] in rs;
  }

  /** With distinct creation times, walking pages 1, 2, ... of a positive
      limit reads the vehicle's reviews page by page whatever order Postgres
      settles on: for any newest-first arrangement `xs` of them, request `p`
      answers the `p`-th page of `xs` (empty past the last), and `pages` is
      their number. */
  lemma ReviewsWalkPages(s: Store, vehicleId: int, xs: seq<ReviewRow>, page: int, limit: int)
    requires DistinctInstants(s, vehicleId)
    requires multiset(xs) == multiset(JoinAuthors(ReviewsOf(s, vehicleId), s.users))
    requires forall i, j :: 0 <= i < j < |xs| ==> xs[i].review.createdAt >= xs[j].review.createdAt
    requires limit > 0 && page >= 1
    ensures GetVehicleReviews(s, vehicleId, page, limit).Success?
    ensures GetVehicleReviews(s, vehicleId, page, limit).value.pages == Some(|Paging.Pages(xs, limit)|)
    ensures page <= |Paging.Pages(xs, limit)| ==> GetVehicleReviews(s, vehicleId, page, limit).value.data == Paging.Pages(xs, limit)[page - 1]
    ensures page > |Paging.Pages(xs, limit)| ==> GetVehicleReviews(s, vehicleId, page, limit).value.data == []
  {
    ReviewOrderDetermined(s, vehicleId, xs);
    ReviewPageOfListing(s, vehicleId, page, limit);
  }

  /** Sum of the ratings of `rs`. */
  function RatingSum(rs: seq<Review>): real
  {
    if |rs| == 0 then 0.0 else RatingSum(rs[..|rs| - 1]) + rs[|rs| - 1].rating
  }

  /** `AVG(rating)` over a non-empty set of reviews. */
  function Mean(rs: seq<Review>): real
    requires |rs| > 0
  {
    RatingSum(rs) / (|rs| as real)
  }

  /** The INSERT of `addReview`: the row gets the next id. */
  function Inserted(s: Store, rv: Review): Store
  {
    s.(reviews := s.reviews + [rv], nextReviewId := s.nextReviewId + 1)
  }

  /** The vehicle's rating columns as the UPDATE sets them: `AVG(rating)`
      and `COUNT(*)` over the vehicle's reviews. */
  function Rerated(v: Vehicle, rs: seq<Review>): Vehicle
    requires |rs| > 0
  {
    v.(averageRating := Mean(rs), ratingCount := |rs|)
  }

  /** The `UPDATE vehicles ... WHERE id = $1` of `addReview`, which runs
      after the INSERT, so the vehicle has at least one review. */
  function RecomputeRating(s: Store, vehicleId: int): (r: Store)
    requires |ReviewsOf(s, vehicleId)| > 0
    ensures VehicleService.SameVehicleKeys(s, r)
    ensures forall i :: 0 <= i < |s.vehicles| ==>
              r.vehicles[i] == if s.vehicles[i].id == vehicleId then Rerated(s.vehicles[i], ReviewsOf(s, vehicleId)) else s.vehicles[i]
  {
    var rs := ReviewsOf(s, vehicleId);
    s.(vehicles := seq(|s.vehicles|, i requires 0 <= i < |s.vehicles| =>
                         if s.vehicles[i].id == vehicleId then Rerated(s.vehicles[i], rs) else s.vehicles[i]))
  }

  /** The row `addReview` inserts: the given vehicle, author, title,
      content and rating, `review_type` `'user'`, the column defaults
      otherwise. */
  function NewReview(s: Store, vehicleId: int, userId: int, title: Option<string>, content: string, rating: real, now: int): Review
  {
    Review(s.nextReviewId, vehicleId, Some(userId), title, content, rating, "user", 0, false, now, now)
  }

  /** The vehicle's reviews after one more is inserted. */
  lemma ReviewsOfInserted(s: Store, rv: Review)
    ensures ReviewsOf(Inserted(s, rv), rv.vehicleId) == ReviewsOf(s, rv.vehicleId) + [rv]
  {
    var p := (x: Review) => x.vehicleId == rv.vehicleId;
    FilterAppend(s.reviews, [rv], p);
    assert Filter([rv], p) == [rv] + Filter([], p);
  }

  /** `addReview(vehicleId, userId, data)`: inserts one review (a missing
      vehicle or user breaks a reference and nothing is written), then sets
      the vehicle's `rating_count` and `average_rating` from all of its
      reviews, and returns the inserted row rather than the aggregates. */
  function AddReview(s: Store, vehicleId: int, userId: int, title: Option<string>, content: string, rating: real, now: int): (r: Result<(Store, Review), DbError>)
    ensures r.Failure? <==> !VehicleExists(s, vehicleId) || !UserExists(s, userId)
    ensures r.Failure? ==> r.error == ForeignKeyViolation
    ensures r.Success? ==>
      var rv := r.value.1;
      && rv == NewReview(s, vehicleId, userId, title, content, rating, now)
      && VehicleService.SameVehicleKeys(Inserted(s, rv), r.value.0)
      && |ReviewsOf(r.value.0, vehicleId)| > 0
      && forall i :: 0 <= i < |s.vehicles| ==>
           r.value.0.vehicles[i] ==
             if s.vehicles[i].id == vehicleId then Rerated(s.vehicles[i], ReviewsOf(r.value.0, vehicleId))
             else s.vehicles[i]
  {
    if !VehicleExists(s, vehicleId) || !UserExists(s, userId) then Failure(ForeignKeyViolation)
    else
      var rv := NewReview(s, vehicleId, userId, title, content, rating, now);
      var t := Inserted(s, rv);
      ReviewsOfInserted(s, rv);
      Success((RecomputeRating(t, vehicleId), rv))
  }

  /** Adding one review adds its rating to the sum. */
  lemma RatingSumAppend(rs: seq<Review>, rv: Review)
    ensures RatingSum(rs + [rv]) == RatingSum(rs) + rv.rating
  {
    assert (rs + [rv])[..|rs|] == rs;
  }

  /** Recomputing from all rows agrees with updating the old aggregates by
      the new review: the reviewed vehicle, at whatever position it sits,
      has one more review and a mean that takes the new rating in with
      weight one. */
  lemma AddReviewAggregates(s: Store, vehicleId: int, userId: int, title: Option<string>, content: string, rating: real, now: int, i: nat)
    requires AddReview(s, vehicleId, userId, title, content, rating, now).Success?
    requires i < |s.vehicles| && s.vehicles[i].id == vehicleId
    ensures var t := AddReview(s, vehicleId, userId, title, content, rating, now).value.0;
      var n := |ReviewsOf(s, vehicleId)|;
      && i < |t.vehicles|
      && t.vehicles[i].id == vehicleId
      && t.vehicles[i].ratingCount == n + 1
      && t.vehicles[i].averageRating == (RatingSum(ReviewsOf(s, vehicleId)) + rating) / ((n + 1) as real)
  {
    var r := AddReview(s, vehicleId, userId, title, content, rating, now).value;
    var rv := r.1;
    var rs := ReviewsOf(s, vehicleId);
    ReviewsOfInserted(s, rv);
    assert ReviewsOf(r.0, vehicleId) == rs + [rv];
    assert r.0.vehicles[i] == Rerated(s.vehicles[i], rs + [rv]);
    ReratedIncrement(s.vehicles[i], rs, rv);
  }

  /** The mean over one more review: the old sum plus the new rating, over
      one more row. */
  lemma MeanAppend(rs: seq<Review>, rv: Review)
    ensures Mean(rs + [rv]) == (RatingSum(rs) + rv.rating) / ((|rs| + 1) as real)
  {
    RatingSumAppend(rs, rv);
    assert |rs + [rv]| == |rs| + 1;
  }

  /** Rating columns over one more review: the count goes up by one and the
      mean absorbs the new rating. */
  lemma ReratedIncrement(v: Vehicle, rs: seq<Review>, rv: Review)
    ensures Rerated(v, rs + [rv]).ratingCount == |rs| + 1
    ensures Rerated(v, rs + [rv]).averageRating == (RatingSum(rs) + rv.rating) / ((|rs| + 1) as real)
  {
    MeanAppend(rs, rv);
  }

  /** Inserting a row numbered by the sequence, for an existing vehicle and
      user, keeps the store well-formed. */
  lemma InsertKeepsWellFormed(s: Store, rv: Review)
    requires WellFormed(s)
    requires rv.id == s.nextReviewId && VehicleExists(s, rv.vehicleId)
    requires rv.userId.Some? && UserExists(s, rv.userId.value)
    ensures WellFormed(Inserted(s, rv))
  {
    InsertedReviewsWellFormed(s, rv);
    ReviewsOnlyChange(s, Inserted(s, rv));
  }

  /** The `reviews` constraints survive the INSERT: the new id is fresh and
      above every old one, and both references resolve. */
  lemma InsertedReviewsWellFormed(s: Store, rv: Review)
    requires ReviewsWellFormed(s)
    requires rv.id == s.nextReviewId && VehicleExists(s, rv.vehicleId)
    requires rv.userId.Some? && UserExists(s, rv.userId.value)
    ensures ReviewsWellFormed(Inserted(s, rv))
  {
    var t := Inserted(s, rv);
    forall i | 0 <= i < |t.reviews|
      ensures 1 <= t.reviews[i].id < t.nextReviewId
      ensures VehicleExists(t, t.reviews[i].vehicleId)
      ensures t.reviews[i].userId.Some? ==> UserExists(t, t.reviews[i].userId.value)
    {
      if i < |s.reviews| {
        assert t.reviews[i] == s.reviews[i];
      }
    }
  }

  /** `addReview` keeps the store well-formed. */
  lemma AddReviewKeepsWellFormed(s: Store, vehicleId: int, userId: int, title: Option<string>, content: string, rating: real, now: int)
    requires WellFormed(s)
    ensures var r := AddReview(s, vehicleId, userId, title, content, rating, now);
      r.Success? ==> WellFormed(r.value.0)
  {
    var r := AddReview(s, vehicleId, userId, title, content, rating, now);
    if r.Success? {
      var rv := r.value.1;
      InsertKeepsWellFormed(s, rv);
      VehicleService.SameVehicleKeysWellFormed(Inserted(s, rv), r.value.0);
    }
  }

  /** The review is `reviewId` and was written by `userId`. */
  predicate Owns(rv: Review, reviewId: int, userId: int)
  {
    rv.id == reviewId && rv.userId == Some(userId)
  }

  /** `deleteReview(reviewId, userId)`: the statement's condition names both
      the review and its author, so only the author's own review goes; the
      deleted row is returned, or null when nothing matched. The vehicle's
      rating columns are not touched. */
  function DeleteReview(s: Store, reviewId: int, userId: int): (r: (Store, Option<Review>))
    ensures r.0 == s.(reviews := r.0.reviews)
    ensures forall x :: multiset(r.0.reviews)[x] == if Owns(x, reviewId, userId) then 0 else multiset(s.reviews)[x]
    ensures r.1.Some? <==> exists i :: 0 <= i < |s.reviews| && Owns(s.reviews[i], reviewId, userId)
    ensures r.1.Some? ==> r.1.value in s.reviews && Owns(r.1.value, reviewId, userId)
    ensures r.1.None? ==> r.0 == s
  {
    var keep := (rv: Review) => !Owns(rv, reviewId, userId);
    var gone := Filter(s.reviews, (rv: Review) => Owns(rv, reviewId, userId));
    assert forall x :: multiset(Filter(s.reviews, keep))[x] == if Owns(x, reviewId, userId) then 0 else multiset(s.reviews)[x] by {
      forall x
        ensures multiset(Filter(s.reviews, keep))[x] == if Owns(x, reviewId, userId) then 0 else multiset(s.reviews)[x]
      {
        FilterMultiset(s.reviews, keep, x);
      }
    }
    if |gone| == 0 then
      FilterKeepsAll(s.reviews, keep);
      (s, None)
    else
      (s.(reviews := Filter(s.reviews, keep)), Some(gone[0]))
  }

  /** Deleting keeps the store well-formed: no table refers to reviews. */
  lemma DeleteKeepsWellFormed(s: Store, reviewId: int, userId: int)
    requires WellFormed(s)
    ensures WellFormed(DeleteReview(s, reviewId, userId).0)
  {
    var t := DeleteReview(s, reviewId, userId).0;
    var key := (rv: Review) => rv.id;
    var keep := (rv: Review) => !Owns(rv, reviewId, userId);
    assert DistinctKeys(s.reviews, key);
    FilterKeepsDistinct(s.reviews, keep, key);
    assert t.reviews == s.reviews || t.reviews == Filter(s.reviews, keep);
    forall k | 0 <= k < |t.reviews|
      ensures t.reviews[k] in s.reviews
    {
      assert t.reviews[k] in multiset(t.reviews);
    }
    FewerReviewsWellFormed(s, t);
  }

  /** Keeping some of the reviews, with distinct ids, keeps the store
      well-formed. */
  lemma FewerReviewsWellFormed(s: Store, t: Store)
    requires WellFormed(s)
    requires t == s.(reviews := t.reviews)
    requires forall k :: 0 <= k < |t.reviews| ==> t.reviews[k] in s.reviews
    requires DistinctKeys(t.reviews, (rv: Review) => rv.id)
    ensures WellFormed(t)
  {
    forall k | 0 <= k < |t.reviews|
      ensures 1 <= t.reviews[k].id < t.nextReviewId
      ensures VehicleExists(t, t.reviews[k].vehicleId)
      ensures t.reviews[k].userId.Some? ==> UserExists(t, t.reviews[k].userId.value)
    {
      var m :| 0 <= m < |s.reviews| && s.reviews[m] == t.reviews[k];
    }
    assert ReviewsWellFormed(t);
    ReviewsOnlyChange(s, t);
  }

  /** Deleting the last row, which only it matches, restores the rest. */
  lemma DeleteLastKeeps(rs: seq<Review>, rv: Review, userId: int)
    requires forall i :: 0 <= i < |rs| ==> rs[i].id != rv.id
    requires rv.userId == Some(userId)
    ensures Filter(rs + [rv], (x: Review) => !Owns(x, rv.id, userId)) == rs
  {
    var keep := (x: Review) => !Owns(x, rv.id, userId);
    FilterAppend(rs, [rv], keep);
    FilterKeepsAll(rs, keep);
    assert Filter([rv], keep) == Filter([], keep);
  }

  /** The last row is the only one the deletion matches. */
  lemma DeleteLastMatches(rs: seq<Review>, rv: Review, userId: int)
    requires forall i :: 0 <= i < |rs| ==> rs[i].id != rv.id
    requires rv.userId == Some(userId)
    ensures Filter(rs + [rv], (x: Review) => Owns(x, rv.id, userId)) == [rv]
  {
    var owns := (x: Review) => Owns(x, rv.id, userId);
    FilterAppend(rs, [rv], owns);
    FilterNone(rs, owns);
    assert Filter([rv], owns) == [rv] + Filter([], owns);
  }

  /** The author can take back the review just added: the reviews table is
      as before and the deleted row is the one `addReview` returned. */
  lemma AddThenDelete(s: Store, vehicleId: int, userId: int, title: Option<string>, content: string, rating: real, now: int)
    requires WellFormed(s)
    requires AddReview(s, vehicleId, userId, title, content, rating, now).Success?
    ensures var r := AddReview(s, vehicleId, userId, title, content, rating, now).value;
      && DeleteReview(r.0, r.1.id, userId).0.reviews == s.reviews
      && DeleteReview(r.0, r.1.id, userId).1 == Some(r.1)
  {
    var r := AddReview(s, vehicleId, userId, title, content, rating, now).value;
    var rv := r.1;
    assert r.0.reviews == s.reviews + [rv];
    assert forall i :: 0 <= i < |s.reviews| ==> s.reviews[i].id != rv.id;
    DeleteLastKeeps(s.reviews, rv, userId);
    DeleteLastMatches(s.reviews, rv, userId);
  }

  /** The vehicle's rating columns agree with its reviews. */
  predicate RatingsAgree(s: Store, vehicleId: int)
  {
    forall i :: 0 <= i < |s.vehicles| && s.vehicles[i].id == vehicleId ==>
      && s.vehicles[i].ratingCount == |ReviewsOf(s, vehicleId)|
      && (|ReviewsOf(s, vehicleId)| > 0 ==> s.vehicles[i].averageRating == Mean(ReviewsOf(s, vehicleId)))
  }

  /** After `addReview` the reviewed vehicle's rating columns agree with
      its reviews, whatever they held before. */
  lemma AddReviewRatingsAgree(s: Store, vehicleId: int, userId: int, title: Option<string>, content: string, rating: real, now: int)
    requires AddReview(s, vehicleId, userId, title, content, rating, now).Success?
    ensures RatingsAgree(AddReview(s, vehicleId, userId, title, content, rating, now).value.0, vehicleId)
  {
  }

  /** `deleteReview` does not recompute: deleting the only review of a
      vehicle whose columns agreed leaves `rating_count` at 1 with no review
      left. */
  lemma DeleteLeavesStaleCount()
    ensures var s := StaleExample();
      RatingsAgree(s, 1) && !RatingsAgree(DeleteReview(s, 1, 1).0, 1)
  {
    var s := StaleExample();
    var rv := s.reviews[0];
    assert ReviewsOf(s, 1) == [rv];
    assert RatingSum([rv]) == 4.0 by {
      assert [rv][..0] == [];
    }
    var t := DeleteReview(s, 1, 1).0;
    assert forall x :: multiset(t.reviews)[x] == 0;
    assert multiset(t.reviews) == multiset{};
    assert t.reviews == [];
    assert ReviewsOf(t, 1) == [];
    assert t.vehicles[0].ratingCount == 1;
  }

  /** One vehicle with one review of 4.0, and rating columns that agree. */
  function StaleExample(): Store
  {
    var v := NewVehicle(1, 1, "Swift", "swift", "hatchback", "petrol", "manual", "hatchback", 0)
              .(averageRating := 4.0, ratingCount := 1);
    var rv := Review(1, 1, Some(1), None, "good", 4.0, "user", 0, false, 0, 0);
    Store([], [], [v], [], [rv], [], [], 2, 2, 1, 1)
  }

  /** A vehicle added with the column defaults under an id no vehicle has
      starts with rating columns that agree with its (absent) reviews. */
  lemma NewVehicleRatingsAgree(s: Store, v: Vehicle)
    requires WellFormed(s) && !VehicleExists(s, v.id)
    requires v.ratingCount == 0
    ensures RatingsAgree(s.(vehicles := s.vehicles + [v]), v.id)
  {
    var t := s.(vehicles := s.vehicles + [v]);
    assert forall i :: 0 <= i < |s.reviews| ==> s.reviews[i].vehicleId != v.id;
    NoReviewsOf(s.reviews, v.id);
    assert ReviewsOf(t, v.id) == [];
  }

  /** A vehicle no review names has no reviews. */
  lemma NoReviewsOf(rs: seq<Review>, vehicleId: int)
    requires forall i :: 0 <= i < |rs| ==> rs[i].vehicleId != vehicleId
    ensures Filter(rs, (rv: Review) => rv.vehicleId == vehicleId) == []
  {
  }
}
