/** The review endpoints: a vehicle's reviews ten to a page, posting a
    review (signed in, with content and a rating from 1 to 5), and deleting
    one's own review. */
module ReviewController {
  import opened Common
  import opened Schema
  import opened Http
  import Numbers
  import Paging
  import ReviewService

  /** The page size of the review listing: the controller passes no limit,
      so the service's default applies. */
  const ReviewLimit := 10

  /** `getVehicleReviews`: the vehicle id goes through `parseInt` (a
      non-number reaches Postgres as `NaN` and the count fails), the page is
      `parseInt(page) || 1`, and a store error is handed on. */
  function GetVehicleReviews(s: Store, idParam: string, pageParam: Option<string>): (r: Reply<ReviewService.ReviewPage>)
    ensures r.Ok? || r.Unhandled?
    ensures Numbers.ParseInt(idParam).None? ==> r == Unhandled(InvalidInteger)
    ensures Numbers.ParseInt(idParam).Some? ==>
      var out := ReviewService.GetVehicleReviews(s, Numbers.ParseInt(idParam).value, Numbers.ParseIntOr(pageParam, 1), ReviewLimit);
      && (r.Ok? <==> out.Success?)
      && (r.Ok? ==> r.body == out.value)
      && (r.Unhandled? ==> r.cause == out.error)
  {
    match Numbers.ParseInt(idParam)
    case None => Unhandled(InvalidInteger)
    case Some(vehicleId) =>
      match ReviewService.GetVehicleReviews(s, vehicleId, Numbers.ParseIntOr(pageParam, 1), ReviewLimit)
      case Success(p) => Ok(p)
      case Failure(e) => Unhandled(e)
  }

  /** Without a page the client gets the vehicle's ten newest reviews, the
      total count, and the number of ten-review pages. */
  lemma FirstReviewPageByDefault(s: Store, idParam: string)
    requires Numbers.ParseInt(idParam).Some?
    ensures var vehicleId := Numbers.ParseInt(idParam).value;
      var pages := Paging.Pages(ReviewService.ReviewListing(s, vehicleId), ReviewLimit);
      var r := GetVehicleReviews(s, idParam, None);
      && r.Ok?
      && r.body.page == 1
      && r.body.total == |ReviewService.ReviewsOf(s, vehicleId)|
      && r.body.pages == Some(|pages|)
      && r.body.data == (if |pages| == 0 then [] else pages[0])
  {
    ReviewService.ReviewPageOfListing(s, Numbers.ParseInt(idParam).value, 1, ReviewLimit);
  }

  /** The request body of a new review. The rating is a JSON number or
      absent. */
  datatype ReviewBody = ReviewBody(title: Option<string>, content: Option<string>, rating: Option<real>)

  /** The body passes the controller's check: non-empty content and a
      rating that is present, not zero, and between 1 and 5. */
  predicate ValidReview(b: ReviewBody)
  {
    && Truthy(b.content)
    && b.rating.Some? && b.rating.value != 0.0
    && 1.0 <= b.rating.value <= 5.0
  }

  /** The refusal for a body that fails the check. */
  const InvalidReviewData := "Invalid review data"

  /** `addReview`: 401 without a signed-in user, then 400 for a body that
      fails the check, both with nothing written; otherwise the service
      inserts the review under the signed-in user, and the reply is 201 with
      the inserted row. A vehicle id that is not a number, or a vehicle or
      user that does not exist, is a store error with nothing written. */
  function AddReview(s: Store, user: Option<int>, idParam: string, body: ReviewBody, now: int): (r: (Store, Reply<Review>))
    ensures r.1 == Unauthorized() <==> user.None?
    ensures r.1 == BadRequest(InvalidReviewData) <==> user.Some? && !ValidReview(body)
    ensures !r.1.Created? ==> r.0 == s
    ensures r.1.Created? || r.1.Unhandled? || r.1 == Unauthorized() || r.1 == BadRequest(InvalidReviewData)
    ensures r.1.Created? ==>
      && user.Some? && ValidReview(body) && Numbers.ParseInt(idParam).Some?
      && r.1.body.userId == user
      && r.1.body.vehicleId == Numbers.ParseInt(idParam).value
      && r.1.body.title == body.title
      && r.1.body.content == body.content.value
      && r.1.body.rating == body.rating.value
      && 1.0 <= r.1.body.rating <= 5.0
    ensures user.Some? && ValidReview(body) && Numbers.ParseInt(idParam).None? ==> r.1 == Unhandled(InvalidInteger)
    ensures user.Some? && ValidReview(body) && Numbers.ParseInt(idParam).Some? ==>
      var out := ReviewService.AddReview(s, Numbers.ParseInt(idParam).value, user.value,
                                         body.title, body.content.value, body.rating.value, now);
      && (r.1.Created? <==> out.Success?)
      && (r.1.Created? ==> r == (out.value.0, Created(out.value.1)))
      && (r.1.Unhandled? ==> r.1.cause == out.error)
  {
    if user.None? then (s, Unauthorized())
    else if !ValidReview(body) then (s, BadRequest(InvalidReviewData))
    else match Numbers.ParseInt(idParam)
      case None => (s, Unhandled(InvalidInteger))
      case Some(vehicleId) =>
        match ReviewService.AddReview(s, vehicleId, user.value, body.title, body.content.value, body.rating.value, now)
        case Success((t, rv)) => (t, Created(rv))
        case Failure(e) => (s, Unhandled(e))
  }

  /** A signed-in user's valid review of an existing vehicle is stored
      under the next review id, the store stays well-formed, and the
      vehicle's review count goes up by one. */
  lemma ValidReviewIsStored(s: Store, u: int, idParam: string, body: ReviewBody, now: int)
    requires WellFormed(s)
    requires ValidReview(body) && Numbers.ParseInt(idParam).Some?
    requires VehicleExists(s, Numbers.ParseInt(idParam).value) && UserExists(s, u)
    ensures var r := AddReview(s, Some(u), idParam, body, now);
      var vehicleId := Numbers.ParseInt(idParam).value;
      && r.1.Created?
      && r.1.body.id == s.nextReviewId
      && WellFormed(r.0)
      && ReviewService.ReviewsOf(r.0, vehicleId) == ReviewService.ReviewsOf(s, vehicleId) + [r.1.body]
  {
    var vehicleId := Numbers.ParseInt(idParam).value;
    var rv := ReviewService.NewReview(s, vehicleId, u, body.title, body.content.value, body.rating.value, now);
    ReviewService.AddReviewKeepsWellFormed(s, vehicleId, u, body.title, body.content.value, body.rating.value, now);
    ReviewService.ReviewsOfInserted(s, rv);
  }

  /** The success message of a deletion. */
  const Deleted := "Review deleted successfully"

  /** The refusal when no review of the signed-in user has the id. */
  const NotYours := "Review not found or you do not have permission to delete it"

  /** `deleteReview`: 401 without a signed-in user; otherwise the review id
      goes through `parseInt`, and only the signed-in user's own review with
      that id is deleted. A 404 covers both a missing review and someone
      else's, and leaves the store as it was. */
  function DeleteReview(s: Store, user: Option<int>, idParam: string): (r: (Store, Reply<string>))
    ensures r.1 == Unauthorized() <==> user.None?
    ensures user.Some? && Numbers.ParseInt(idParam).None? ==> r == (s, Unhandled(InvalidInteger))
    ensures r.1 == NotFound(NotYours) <==>
      && user.Some? && Numbers.ParseInt(idParam).Some?
      && forall i :: 0 <= i < |s.reviews| ==> !ReviewService.Owns(s.reviews[i], Numbers.ParseInt(idParam).value, user.value)
    ensures r.1.Ok? || r.1.Unhandled? || r.1 == Unauthorized() || r.1 == NotFound(NotYours)
    ensures !r.1.Ok? ==> r.0 == s
    ensures r.1.Ok? ==>
      && r.1.body == Deleted
      && user.Some? && Numbers.ParseInt(idParam).Some?
      && r.0 == s.(reviews := r.0.reviews)
      && forall x :: multiset(r.0.reviews)[x] ==
           if ReviewService.Owns(x, Numbers.ParseInt(idParam).value, user.value) then 0 else multiset(s.reviews)[x]
  {
    if user.None? then (s, Unauthorized())
    else match Numbers.ParseInt(idParam)
      case None => (s, Unhandled(InvalidInteger))
      case Some(reviewId) =>
        var (t, gone) := ReviewService.DeleteReview(s, reviewId, user.value);
        if gone.None? then (s, NotFound(NotYours)) else (t, Ok(Deleted))
  }

  /** Posting a review and then deleting it under the decimal text of its
      id succeeds and gives back the reviews table as it was; the vehicle's
      rating columns, which deletion does not touch, still count the
      deleted review. */
  lemma PostThenDelete(s: Store, u: int, idParam: string, body: ReviewBody, now: int)
    requires WellFormed(s)
    requires AddReview(s, Some(u), idParam, body, now).1.Created?
    ensures var (t, posted) := AddReview(s, Some(u), idParam, body, now);
      var (w, answer) := DeleteReview(t, Some(u), Numbers.DecimalText(posted.body.id));
      && posted.body.id >= 1
      && answer == Ok(Deleted)
      && w.reviews == s.reviews
      && w.vehicles == t.vehicles
  {
    var (t, posted) := AddReview(s, Some(u), idParam, body, now);
    var rv := posted.body;
    assert rv.id == s.nextReviewId && rv.userId == Some(u);
    assert t.reviews == s.reviews + [rv];
    assert forall i :: 0 <= i < |s.reviews| ==> s.reviews[i].id < rv.id;
    Numbers.ParseIntRoundTrip(rv.id);
    DeleteNewest(t, s.reviews, rv, u);
  }

  /** Deleting, as its author, the review with the highest id removes just
      that review from the end of the table. */
  lemma DeleteNewest(t: Store, earlier: seq<Review>, rv: Review, u: int)
    requires t.reviews == earlier + [rv]
    requires forall i :: 0 <= i < |earlier| ==> earlier[i].id < rv.id
    requires rv.userId == Some(u)
    ensures ReviewService.DeleteReview(t, rv.id, u) == (t.(reviews := earlier), Some(rv))
  {
    var keep := (x: Review) => !ReviewService.Owns(x, rv.id, u);
    var owned := (x: Review) => ReviewService.Owns(x, rv.id, u);
    assert forall i :: 0 <= i < |earlier| ==> keep(earlier[i]) by {
      forall i | 0 <= i < |earlier| ensures keep(earlier[i]) {
        assert earlier[i].id < rv.id;
      }
    }
    FilterKeepsAll(earlier, keep);
    FilterAppend(earlier, [rv], keep);
    assert Filter([rv], keep) == [];
    var all := earlier + [rv];
    assert all[|earlier|] == rv;
    forall j | 0 <= j < |all| && j != |earlier| ensures !owned(all[j]) {
      assert all[j] == earlier[j];
    }
    FilterOneHit(all, owned, |earlier|);
    var out := ReviewService.DeleteReview(t, rv.id, u);
    assert Filter(t.reviews, owned) == [rv];
    assert out.1 == Some(rv);
    assert out.0.reviews == earlier;
    assert out.0 == t.(reviews := earlier);
  }
}
