# CarWheels core in Dafny

CarWheels is a car catalogue. An Express backend answers REST requests by running SQL against Postgres. A React front end keeps client state in zustand stores. This project models the parts of it that make decisions:

- the tables and their constraints;
- the query builders and queries of the vehicle, comparison, review, wishlist and account services;
- `generateSlug`;
- the comparison-tray, wishlist and logout reducers of the client store;
- the decision logic of the controllers.

The model is functional:

- **Store.** A `Store` is a record of tables, each a `seq` of row datatypes, plus one counter per `SERIAL` sequence. `WellFormed` collects the schema's guarantees: unique keys, satisfied `REFERENCES` clauses, the `UNIQUE(user_id, vehicle_id)` pair, and ids below their sequence.
- **Queries.** Each query is a pure function over the store. A statement Postgres would reject is a `Failure` with a `DbError`. Examples are a negative `OFFSET`, an `IN ()` list, a broken reference, a taken email, or a `NaN` integer.
- **Controllers.** A controller is a function from the store and the request to a new store and a `Reply`. A `Reply` is a status with a body, or a store error handed on to the error middleware (`Unhandled`).
- **Foreign code.** Password hashing and checking come in as function parameters. The clock comes in as an integer `now`.

Modules follow the program:

- `Common`, `Sorting`, `Paging`, `Text` and `Numbers` are shared:
  - `Common`: `Option`/`Result`, JavaScript truthiness, and a filter with its lemmas.
  - `Sorting`: `ORDER BY` as a stable insertion sort on a lexicographic key.
  - `Paging`: `LIMIT`/`OFFSET` and `Math.ceil`.
  - `Text`: ASCII case mapping and the `LIKE` matcher.
  - `Numbers`: JavaScript `parseInt`, `parseInt(x) || d`, and Postgres reading text as `numeric`.
- `Schema` holds the tables.
- One module per service: `VehicleQuery` (the `WHERE` builder), `VehicleService`, `ComparisonService`, `ReviewService`, `WishlistService` and `AuthService`.
- `Slug` models `generateSlug`.
- `ClientStore` models the zustand reducers.
- `Http` defines the reply type.
- One module per controller.

Two source files are named after the wrong controller. `backend/src/controllers/recommendation.controller.ts` holds the comparison endpoints, modelled as `ComparisonController`. `backend/src/controllers/comparison.controller.ts` holds the wishlist endpoints, modelled as `WishlistController`.

## Model

| member | source | states |
|---|---|---|
| Schema.NewVehicle | backend/src/db/schema.ts:68-71 | A vehicle inserted with the column defaults starts with average rating 0, no ratings, no views, and active, and keeps the keys it was given |
| Schema.JoinBrands | backend/src/services/vehicle.service.ts:43-45 | Every joined row comes from the input vehicles and carries the name of the brand its `brand_id` names, and every input vehicle whose brand exists is joined with that name |
| Schema.JoinKeepsEveryVehicle | backend/src/db/schema.ts:43 | When every `brand_id` refers to a brand, the brand join drops no vehicle and keeps the order, so the un-joined count and the joined listing see the same rows |
| Schema.VehicleBrandsResolve | backend/src/db/schema.ts:43 | In a well-formed store every vehicle's brand reference resolves |
| Sorting.SortBy | backend/src/services/vehicle.service.ts:47 | `ORDER BY` yields a permutation of its input that is sorted by the key |
| Sorting.SortedPermutationUnique | backend/src/services/vehicle.service.ts:32 | Two sorted permutations of the same rows are equal when no two rows share a key: a unique sort key fixes the whole order |
| Paging.CeilDiv | backend/src/services/vehicle.service.ts:56 | The least number of `limit`-sized pages that covers `total` rows; zero exactly when there are no rows |
| Paging.PageCount | backend/src/services/vehicle.service.ts:56 | `Math.ceil(total / limit)` has no page count when `limit` is 0; otherwise it is the least number of pages covering `total` |
| Paging.Window | backend/src/services/vehicle.service.ts:48-49 | `LIMIT n OFFSET o` gives at most `n` rows: exactly the rows from position `o` on, in order, cut at the end of the input |
| Paging.LimitOffset | backend/src/services/vehicle.service.ts:48-49 | Postgres refuses a negative `OFFSET`, then a negative `LIMIT`; otherwise the statement returns the window |
| Paging.PagesPartition | backend/src/services/vehicle.service.ts:30-49 | Cutting a listing into consecutive pages and joining them again gives the listing back: no row is skipped or repeated |
| Paging.PagesCount | backend/src/services/vehicle.service.ts:56 | The number of non-empty pages is the ceiling of total over limit |
| Paging.PagesAreWindows | backend/src/services/vehicle.service.ts:30-49 | Page `p` of the partition is the window at offset `(p - 1) * limit` |
| Paging.WindowIsPage | backend/src/services/review.service.ts:5-17 | For `p >= 1` the offset is non-negative, and the window at `(p - 1) * limit` is page `p`, or empty past the last page |
| Text.SurroundIsContains | backend/src/services/vehicle.service.ts:115-118 | For a term without `%`, `_` or `\`, `LIKE '%term%'` matches exactly the texts containing the term |
| Text.ILikeSurroundIsContains | backend/src/services/vehicle.service.ts:115-118 | For such a term, `ILIKE '%term%'` matches exactly when the lower-cased text contains the lower-cased term |
| Numbers.ParseIntOr | backend/src/controllers/vehicle.controller.ts:7-8 | `parseInt(x) \|\| d` is `d` when the parameter is missing, not a number, or parses to 0; otherwise it is the parsed value, negatives included |
| Numbers.ParseIntRoundTrip | backend/src/controllers/recommendation.controller.ts:19 | `parseInt` reads back the decimal text of every integer, with or without a minus sign |
| Numbers.ParseNumericRoundTrip | backend/src/services/vehicle.service.ts:21-23 | Postgres reads the decimal text of every integer given as a price bound as that number, with or without a minus sign |
| Numbers.NumericLeTotalOrder | backend/src/services/vehicle.service.ts:22 | `numeric`'s comparison, with `NaN` above everything and the infinities at the ends, is a total order |
| Numbers.ParsePointed | backend/src/services/vehicle.service.ts:21-23 | Digits, a point and digits are read as the decimal they write |
| Numbers.BlanksIgnored | backend/src/services/vehicle.service.ts:21-23 | Blanks before and after a price bound do not change what Postgres reads |
| Numbers.PointExample | backend/src/services/vehicle.service.ts:21-23 | `1.5` is read as 1.5 |
| Numbers.ExponentExample | backend/src/services/vehicle.service.ts:21-23 | `1e5` is read as 100000 |
| Numbers.BlankExponentExample | backend/src/services/vehicle.service.ts:21-23 | `1e 5` is read as 100000: blanks between `e` and the exponent are skipped |
| Numbers.PaddedExample | backend/src/services/vehicle.service.ts:21-23 | ` 100 ` is read as 100 |
| Numbers.WordExamples | backend/src/services/vehicle.service.ts:21-23 | `NaN`, in any case, and `-Infinity` are read as those special values |
| Numbers.ExponentWithoutDigits | backend/src/services/vehicle.service.ts:21-23 | `1e`, an exponent without digits, is refused |
| Numbers.LonePoint | backend/src/services/vehicle.service.ts:21-23 | `.`, a point without digits, is refused |
| Numbers.SecondPoint | backend/src/services/vehicle.service.ts:21-23 | `1.2.3`, a second point, is refused |
| VehicleQuery.PushEquals | backend/src/services/vehicle.service.ts:9-20 | Testing an equality criterion only appends to the conditions and parameters already built |
| VehicleQuery.PushEqualsAligned | backend/src/services/vehicle.service.ts:9-20 | The new condition takes the next free placeholder, so `$k` still names `params[k-1]` and the count stays one past the last |
| VehicleQuery.PushPrice | backend/src/services/vehicle.service.ts:21-25 | The price test only appends to the conditions and parameters already built |
| VehicleQuery.PushPriceAligned | backend/src/services/vehicle.service.ts:21-25 | The price test takes the two placeholders after the current count, so the alignment is kept |
| VehicleQuery.PushEqualsBound | backend/src/services/vehicle.service.ts:9-20 | After an equality test every condition's placeholder still binds the criterion it was built for |
| VehicleQuery.PushPriceBound | backend/src/services/vehicle.service.ts:21-25 | After the price test the `BETWEEN` placeholders bind `minPrice` and `maxPrice`, and the earlier conditions keep their bindings |
| VehicleQuery.BuildWhere | backend/src/services/vehicle.service.ts:5-29 | The built clause is aligned (`$k` is `params[k-1]`, and the next free slot is `\|params\| + 1`), and it always ends with `is_active = true` |
| VehicleQuery.BuildWhereBound | backend/src/services/vehicle.service.ts:7-25 | Every placeholder of the built clause binds the request value of the criterion its condition tests |
| VehicleQuery.BuildWhereCovers | backend/src/services/vehicle.service.ts:9-25 | Every truthy text criterion gets its condition; the price condition appears when both bounds are truthy |
| VehicleQuery.WhereMeansCriteria | backend/src/services/vehicle.service.ts:9-29 | The clause selects a vehicle exactly when it is active, equals every truthy criterion, and (when both bounds are given) has a starting price inside the inclusive range |
| VehicleQuery.ReadableMeansParsable | backend/src/services/vehicle.service.ts:21-23 | Postgres can read every bound parameter exactly when the price bounds, if used, are `numeric` input text |
| VehicleQuery.PriceWithinBounds | backend/src/services/vehicle.service.ts:22 | `BETWEEN` with finite bounds encloses the price inclusively; a `NaN` or `Infinity` lower bound or a `-Infinity` upper bound admits no price; `-Infinity` to `Infinity` or `NaN` admits every price; a NULL price never matches |
| VehicleQuery.ChooseOrder | backend/src/services/vehicle.service.ts:32-35 | `price_low`, `price_high` and `rating` each choose their order, and every other value (including none) chooses id descending |
| VehicleQuery.BuildListing | backend/src/services/vehicle.service.ts:42-49 | `LIMIT` and `OFFSET` take the two slots after the filter parameters, bound to the limit and the offset `(page - 1) * limit` |
| VehicleService.OrderKeyMeansPrecedes | backend/src/services/vehicle.service.ts:32-35 | The sort key orders two rows exactly as the chosen `ORDER BY` does, with a NULL price last on ascending and first on descending |
| VehicleService.ListedOrderAndContents | backend/src/services/vehicle.service.ts:42-47 | The listing is sorted in the chosen order, holds only active matching vehicles with their brand names, and is a permutation of the joined matches |
| VehicleService.SelectionIsMatches | backend/src/services/vehicle.service.ts:37-40 | The rows the `COUNT` statement counts are exactly the vehicles matching the criteria |
| VehicleService.GetAllVehicles | backend/src/services/vehicle.service.ts:4-57 | Unreadable price bounds, then a negative offset, then a negative limit fail; otherwise `total` counts every match, `data` is the window at `(page - 1) * limit`, and `pages` is the ceiling of total over limit |
| VehicleService.ListedCountsMatches | backend/src/services/vehicle.service.ts:37-50 | In a well-formed store the count equals the length of the brand-joined listing |
| VehicleService.DecimalBoundsAccepted | backend/src/services/vehicle.service.ts:21-23 | Price bounds `1.5` and `10` do not fail the listing, and an active vehicle priced 2 matches them |
| VehicleService.ListingPageOfListed | backend/src/services/vehicle.service.ts:30-56 | One request for page `p` of a positive limit answers the `p`-th page of the model's ordered listing (empty past the last page), with `pages` the number of pages |
| VehicleService.ListingWalksPages | backend/src/services/vehicle.service.ts:30-56 | Under the default `v.id DESC`, for every arrangement of the matches in descending id, request `p` answers that arrangement's `p`-th page and `pages` counts its pages, so walking the pages reads each match once |
| VehicleService.IdOrderDetermined | backend/src/services/vehicle.service.ts:32 | Under the default id-descending order the listing is the only order of the matches, so pages partition it |
| VehicleService.GetVehicleBySlug | backend/src/services/vehicle.service.ts:60-69 | A found row is a stored vehicle with that slug, joined with its brand's name |
| VehicleService.SlugLookupExact | backend/src/services/vehicle.service.ts:60-69 | In a well-formed store the lookup is null exactly when no vehicle has the slug; otherwise it is that vehicle, active or not |
| VehicleService.GetVehicleById | backend/src/services/vehicle.service.ts:71-80 | A found row is a stored vehicle with that id, joined with its brand's name |
| VehicleService.IdLookupExact | backend/src/services/vehicle.service.ts:71-80 | In a well-formed store the lookup is null exactly when no vehicle has the id; otherwise it is that vehicle, active or not |
| VehicleService.GetVariantsByVehicleId | backend/src/services/vehicle.service.ts:82-88 | Exactly the vehicle's variants, each as often as stored, in nondecreasing price |
| VehicleService.IncrementViewCount | backend/src/services/vehicle.service.ts:90-92 | Only the named vehicle's view count changes, by exactly one; every other row and table stays |
| VehicleService.IncrementKeepsWellFormed | backend/src/services/vehicle.service.ts:90-92 | The counter update keeps every store constraint |
| VehicleService.IncrementSeenByLookup | backend/src/services/vehicle.service.ts:90-92 | A later lookup by id sees the row as before with its view count one higher |
| VehicleService.TopSimilar | backend/src/services/vehicle.service.ts:98-106 | At most `limit` candidates, each at most as often as it is a candidate, none ranked above an earlier one by rating and then view count |
| VehicleService.GetSimilarVehicles | backend/src/services/vehicle.service.ts:94-107 | Empty for an unknown id; otherwise at most `limit` active vehicles of the source's category, never the source itself, none repeated beyond the candidates, ranked by rating and then views |
| VehicleService.SimilarAreTopRanked | backend/src/services/vehicle.service.ts:98-106 | The result has `min(candidates, limit)` rows drawn from the candidates without repeats beyond theirs, all of them when they number at most `limit`, and any candidate ranked above a chosen row was chosen before it: the result is a top-`limit` |
| VehicleService.SearchVehicles | backend/src/services/vehicle.service.ts:110-121 | At most 10 active vehicles, with brand names, whose name, brand name or category satisfies the `ILIKE '%term%'` condition, each matching row at most once |
| VehicleService.SearchIsContainment | backend/src/services/vehicle.service.ts:110-121 | For a term without pattern characters every returned row is an active vehicle whose name, brand name or category contains the term case-insensitively; no hit comes back more often than it is a hit, there are as many rows as hits up to 10, and fewer than 10 means every hit |
| ComparisonService.PlaceholdersBindIds | backend/src/services/comparison.service.ts:6-11 | The `$1..$n` list bound to the id list denotes exactly the requested ids |
| ComparisonService.FetchCompared | backend/src/services/comparison.service.ts:7-12 | Every fetched vehicle has a requested id |
| ComparisonService.FetchIsRequested | backend/src/services/comparison.service.ts:7-14 | The fetch is the requested rows in table order, projected to the compared columns |
| ComparisonService.PayloadExact | backend/src/services/comparison.service.ts:7-14 | In a well-formed store the payload holds every requested vehicle that exists exactly once (a repeated id once), drops unknown ids, and holds nothing else |
| ComparisonService.Assemble | backend/src/services/comparison.service.ts:15-26 | The payload lists the fetched vehicles, and every `specs` column has one entry per vehicle holding that vehicle's attribute |
| ComparisonService.CreateComparison | backend/src/services/comparison.service.ts:4-39 | An empty id list fails; the payload's vehicles are exactly the fetched rows, in aligned columns; a truthy user stores exactly one row with the user, the id list as given and that payload, and returns it; a user id with no row breaks the reference; without a truthy user nothing is written and the bare payload is returned |
| ComparisonService.CreatePayloadExact | backend/src/services/comparison.service.ts:4-26 | In a well-formed store the created payload has aligned columns and holds each existing requested vehicle once and nothing else |
| ComparisonService.CreateKeepsWellFormed | backend/src/services/comparison.service.ts:28-35 | Storing a comparison keeps every store constraint |
| ComparisonService.GetComparison | backend/src/services/comparison.service.ts:41-47 | Null exactly when no row has the id; when one has, the `JSON.parse` error if parsing its payload throws, otherwise that row with the parsed payload |
| ComparisonService.CreateThenGet | backend/src/services/comparison.service.ts:28-46 | Reading a just-stored comparison by its id finds that row: its parsed form, or the `JSON.parse` error when parsing throws |
| ComparisonService.StoredComparisonUnreadable | backend/src/services/comparison.service.ts:41-47 | With the driver's default `JSONB` decoding, on which `JSON.parse` throws, every existing comparison id fails |
| ComparisonService.UserComparisonRows | backend/src/services/comparison.service.ts:50 | The statement returns exactly the user's stored comparisons, each as often as stored, newest first |
| ComparisonService.GetUserComparisons | backend/src/services/comparison.service.ts:49-55 | Fails with the `JSON.parse` error exactly when some payload of the user's rows does not parse; otherwise those rows in order, each with its parsed payload |
| ComparisonService.UserComparisonsUnreadable | backend/src/services/comparison.service.ts:49-55 | With the driver's default `JSONB` decoding, the list succeeds exactly for users with no stored comparison |
| ReviewService.JoinAuthors | backend/src/services/review.service.ts:10-12 | The `LEFT JOIN` keeps every review in order and attaches its author's columns when the author exists |
| ReviewService.GetVehicleReviews | backend/src/services/review.service.ts:4-25 | A negative offset or limit fails; otherwise `total` counts the vehicle's reviews, `data` is the window of the newest-first listing at `(page - 1) * limit`, and `pages` is the ceiling |
| ReviewService.ReviewListingContents | backend/src/services/review.service.ts:9-17 | The listing holds exactly the vehicle's reviews, newest first, each with its author's columns |
| ReviewService.ReviewPageOfListing | backend/src/services/review.service.ts:4-24 | One request for page `p` of a positive limit answers the `p`-th page of the model's newest-first listing (empty past the last page), with `pages` the number of pages |
| ReviewService.ReviewOrderDetermined | backend/src/services/review.service.ts:9-17 | When the vehicle's reviews have distinct creation times, every newest-first arrangement of them with their authors is the listing |
| ReviewService.ReviewsWalkPages | backend/src/services/review.service.ts:4-24 | With distinct creation times, for every newest-first arrangement of the reviews, request `p` answers its `p`-th page and `pages` counts its pages, so walking the pages reads each review once |
| ReviewService.AddReview | backend/src/services/review.service.ts:27-46 | A missing vehicle or user fails with nothing written; otherwise one review with the given fields and type `'user'` is inserted and returned, and only the reviewed vehicle's rating columns are recomputed from all its reviews |
| ReviewService.ReviewsOfInserted | backend/src/services/review.service.ts:28-33 | After the insert the vehicle's reviews are the earlier ones plus the new row |
| ReviewService.RecomputeRating | backend/src/services/review.service.ts:36-43 | The update sets the vehicle's count and mean from its reviews and changes no other vehicle or key |
| ReviewService.AddReviewAggregates | backend/src/services/review.service.ts:36-43 | The recomputed count is the old count plus one, and the mean is the old rating sum plus the new rating over that count |
| ReviewService.ReratedIncrement | backend/src/services/review.service.ts:38-39 | Rating columns over one more review: the count grows by one and the mean absorbs the new rating |
| ReviewService.AddReviewRatingsAgree | backend/src/services/review.service.ts:36-43 | After a review is added, the vehicle's rating columns agree with its reviews, whatever they held before |
| ReviewService.AddReviewKeepsWellFormed | backend/src/services/review.service.ts:28-33 | Adding a review keeps every store constraint |
| ReviewService.DeleteReview | backend/src/services/review.service.ts:48-51 | Only a review with both that id and that author goes; the deleted row is returned, or null with nothing changed; the vehicle's rating columns are not touched |
| ReviewService.DeleteKeepsWellFormed | backend/src/services/review.service.ts:48-51 | Deleting keeps every store constraint |
| ReviewService.AddThenDelete | backend/src/services/review.service.ts:27-51 | The author can take back the review just added: the reviews table is as before and the deleted row is the one returned |
| ReviewService.DeleteLeavesStaleCount | backend/src/services/review.service.ts:48-51 | Deleting the only review of a vehicle whose columns agreed leaves them disagreeing: the count stays at 1 with no review left |
| ReviewService.NewVehicleRatingsAgree | backend/src/db/schema.ts:68-69 | A vehicle added with the default rating columns agrees with its (absent) reviews |
| WishlistService.AddToWishlist | backend/src/services/wishlist.service.ts:17-23 | A pair already saved returns null and leaves the table as it was (the sequence still advances); a new pair naming an existing user and vehicle is inserted once and returned; otherwise the reference breaks |
| WishlistService.RemoveFromWishlist | backend/src/services/wishlist.service.ts:25-27 | The pair goes and every other entry and table stays; removing an absent pair changes nothing |
| WishlistService.RemoveKeepsOtherPairs | backend/src/services/wishlist.service.ts:25-27 | Removing one pair leaves every other pair's membership as it was |
| WishlistService.IsInWishlist | backend/src/services/wishlist.service.ts:29-32 | True exactly when some entry holds the pair |
| WishlistService.AddThenIsIn | backend/src/services/wishlist.service.ts:17-32 | Right after a successful add the pair is in the wishlist |
| WishlistService.RemoveThenNotIn | backend/src/services/wishlist.service.ts:25-32 | Right after a remove the pair is not in the wishlist |
| WishlistService.AddIsIdempotent | backend/src/services/wishlist.service.ts:17-23 | Adding the same pair again returns null and leaves the entries as the first add left them |
| WishlistService.AddThenRemove | backend/src/services/wishlist.service.ts:17-27 | Adding a new pair and then removing it restores the entries |
| WishlistService.AddKeepsWellFormed | backend/src/db/schema.ts:118-125 | Adding keeps every store constraint; in particular no (user, vehicle) pair is ever stored twice |
| WishlistService.SavedBy | backend/src/services/wishlist.service.ts:10-11 | Exactly the user's entries, most recently saved first |
| WishlistService.GetUserWishlist | backend/src/services/wishlist.service.ts:4-15 | Every listed row is a stored vehicle, with its brand name, that the user saved |
| WishlistService.EntryJoinsOnce | backend/src/services/wishlist.service.ts:6-9 | In a well-formed store an entry joins exactly one vehicle row |
| WishlistService.WishlistFollowsEntries | backend/src/services/wishlist.service.ts:4-15 | In a well-formed store the page shows one vehicle per saved entry, in the entries' newest-first order |
| WishlistService.WishlistShowsEverySaved | backend/src/services/wishlist.service.ts:4-15 | In a well-formed store every vehicle the user saved is on the page |
| AuthService.Register | backend/src/services/auth.service.ts:14-28 | A taken email violates the unique constraint with nothing written; otherwise one user with role `'user'` is stored under the next id, and only id, email, full name and role come back |
| AuthService.RegisterKeepsWellFormed | backend/src/db/schema.ts:10-11 | Registration keeps ids and emails unique and ids below the sequence |
| AuthService.FindByEmail | backend/src/services/auth.service.ts:31 | Found exactly when some user has the email; the row found has it |
| AuthService.Login | backend/src/services/auth.service.ts:30-47 | An unknown email fails with `UserNotFound`, a rejected password with `InvalidPassword`; success returns the public columns of the user with that email |
| AuthService.RegisterThenLogin | backend/src/services/auth.service.ts:14-47 | Right after registering, a password the checker accepts against the stored hash logs in as the registered user |
| AuthService.GetUserById | backend/src/services/auth.service.ts:49-52 | Null exactly when no user has the id; otherwise that user's profile columns |
| AuthService.PushField | backend/src/services/auth.service.ts:59-74 | A truthy field appends `column = $k` bound to its value at slot `k`; a falsy one changes nothing; the alignment is kept |
| AuthService.PushCovers | backend/src/services/auth.service.ts:59-74 | Testing the next field in the fixed order extends the covered prefix of fields by that one |
| AuthService.Collect | backend/src/services/auth.service.ts:59-74 | After the four tests the SET items are exactly the truthy fields, in the order full name, phone, city, state |
| AuthService.BuildUpdate | backend/src/services/auth.service.ts:54-82 | No statement exactly when no field is truthy; otherwise item `k` sets a truthy field from `$k`, in fixed rank order, every truthy field appears, `updated_at` comes last, and the id binds the slot after every field value |
| AuthService.CollectEmpty | backend/src/services/auth.service.ts:76 | The SET list is empty exactly when no field is truthy |
| AuthService.AssignedTextIsRequest | backend/src/services/auth.service.ts:57-82 | The statement assigns each truthy field its request value and leaves every other field alone |
| AuthService.WhereIdIsUser | backend/src/services/auth.service.ts:79-82 | The `WHERE` placeholder binds the requested user id |
| AuthService.ExecuteMeansMerge | backend/src/services/auth.service.ts:59-84 | Running the built statement on a row is the intended merge: truthy values replace columns and the row is stamped |
| AuthService.UpdateUser | backend/src/services/auth.service.ts:54-87 | Nothing truthy gives null with no change; otherwise only the user with that id is merged, and its summary comes back exactly when the user exists |
| AuthService.SummaryOfHit | backend/src/services/auth.service.ts:81-86 | The `RETURNING` row is present exactly when the user exists, and it is that user's merged row |
| AuthService.UpdateKeepsWellFormed | backend/src/services/auth.service.ts:81-84 | Updating a profile keeps every store constraint |
| AuthService.UpdateIsIdempotent | backend/src/services/auth.service.ts:54-87 | Repeating the same update at the same time changes nothing more |
| Slug.Trim | backend/src/utils/auth.ts:31 | The trimmed text neither starts nor ends with whitespace, and trimming adds no upper-case letter |
| Slug.Hyphenate | backend/src/utils/auth.ts:32 | No whitespace is left after runs are replaced by hyphens |
| Slug.HyphenateRun | backend/src/utils/auth.ts:32 | A run of whitespace between two non-whitespace characters becomes exactly one hyphen |
| Slug.StripNonWord | backend/src/utils/auth.ts:33 | Only word characters and hyphens remain, so lower-case input leaves only `[a-z0-9_-]` |
| Slug.CollapseHyphens | backend/src/utils/auth.ts:34 | No two hyphens stand together afterwards, slug characters stay slug characters, and a non-empty input stays non-empty |
| Slug.GenerateSlug | backend/src/utils/auth.ts:28-35 | The output holds only `[a-z0-9_-]`, no upper-case letter, and no doubled hyphen |
| Slug.SlugIsFixed | backend/src/utils/auth.ts:28-35 | Every slug is its own slug |
| Slug.SlugIsIdempotent | backend/src/utils/auth.ts:28-35 | Applying the slug function twice gives the same as once |
| Slug.SlugIgnoresPadding | backend/src/utils/auth.ts:31 | Leading and trailing whitespace are dropped rather than turned into hyphens |
| Slug.TwoWords | backend/src/utils/auth.ts:32-34 | Two words separated by any run of whitespace give the lower-cased words joined by one hyphen |
| Slug.MarutiSwift | backend/src/utils/auth.ts:28-35 | "Maruti  Swift" (two spaces) gives "maruti-swift" |
| ClientStore.Logout | frontend/src/store/index.ts:30-31 | Logging out clears user and token and leaves the loading flag |
| ClientStore.LogoutIsIdempotent | frontend/src/store/index.ts:30-31 | Logging out twice is the same as once |
| ClientStore.TrayStaysBounded | frontend/src/store/index.ts:55-67 | From at most 3 selections, any sequence of add, remove and clear keeps at most 3 |
| ClientStore.FullTrayIgnoresAdd | frontend/src/store/index.ts:57-60 | Adding to a full tray leaves it unchanged |
| ClientStore.TrayAllowsRepeats | frontend/src/store/index.ts:57-60 | Adding the same id twice from empty keeps both copies |
| ClientStore.RemoveVehicle | frontend/src/store/index.ts:62-65 | Every occurrence of the id goes, and every other id keeps its count |
| ClientStore.RemoveVehicleKeepsOrder | frontend/src/store/index.ts:62-65 | Removal read left to right: nothing from nothing, and each later id stays at the end exactly when it is not the removed one, so the kept ids keep their order |
| ClientStore.RemoveAbsentVehicle | frontend/src/store/index.ts:62-65 | Removing an id that is not selected changes nothing |
| ClientStore.AddItem | frontend/src/store/index.ts:80-83 | The id is in the list afterwards, membership otherwise stays, a present id leaves the list as it was, and no repeat appears |
| ClientStore.RemoveItem | frontend/src/store/index.ts:85-88 | The id is gone, other ids keep their membership, and no repeat appears |
| ClientStore.RemoveItemKeepsOrder | frontend/src/store/index.ts:85-88 | The same left-to-right reading for the saved list: the ids that stay keep their order |
| ClientStore.AddItemIsIdempotent | frontend/src/store/index.ts:80-83 | Adding an id twice is the same as once |
| ClientStore.WishlistStaysUnique | frontend/src/store/index.ts:78-88 | From a list without repeats, any sequence of adds and removes keeps it without repeats |
| ClientStore.AddThenRemoveItem | frontend/src/store/index.ts:80-90 | The id is in the list right after adding it, and not right after removing it |
| VehicleController.ForwardedFilters | backend/src/controllers/vehicle.controller.ts:10-17 | The six filter keys reach the service unchanged from the query string |
| VehicleController.GetAll | backend/src/controllers/vehicle.controller.ts:6-21 | The reply is the service's listing for `page` and `limit` defaulted by `parseInt(x) \|\| d` (1 and 12), or its store error |
| VehicleController.FirstPageByDefault | backend/src/controllers/vehicle.controller.ts:7-8 | Without page and limit the reply is the first 12-row page of the listing, with the page count |
| VehicleController.FalsyPageIsFirst | backend/src/controllers/vehicle.controller.ts:7 | A page that is not a number or parses to 0 answers as if no page were given |
| VehicleController.NegativePageFails | backend/src/controllers/vehicle.controller.ts:7 | A negative page passes the defaulting and reaches Postgres as a negative offset |
| VehicleController.GetBySlug | backend/src/controllers/vehicle.controller.ts:23-43 | An unknown slug is a 404 with nothing changed; a known one increments that vehicle's views once and replies with the row read before, its variants and the similar vehicles |
| VehicleController.DetailShowsCountBeforeVisit | backend/src/controllers/vehicle.controller.ts:25-32 | The reply's view count is one below the stored count after the visit |
| VehicleController.Search | backend/src/controllers/vehicle.controller.ts:45-54 | A missing or empty `q` is a 400 with no search; otherwise the search result |
| VehicleController.SearchAnswerBounded | backend/src/controllers/vehicle.controller.ts:45-54 | A search answer holds at most 10 active vehicles meeting the search condition |
| VehicleController.GetCategories | backend/src/controllers/vehicle.controller.ts:56-59 | Always the same seven distinct categories |
| ComparisonController.Create | backend/src/controllers/recommendation.controller.ts:6-15 | A 400 exactly when `vehicleIds` is not an array of 2 or 3 ids, with nothing written; otherwise the service's result for the optional user, and only a success writes |
| ComparisonController.CreateNeverSendsEmptyList | backend/src/controllers/recommendation.controller.ts:9-13 | The length check keeps the empty `IN ()` list from the service; the only store error left is a signed-in user with no row |
| ComparisonController.RepeatedVehicleAccepted | backend/src/controllers/recommendation.controller.ts:9-13 | Only the length is checked: `[v, v]` passes and is stored as given for a signed-in user |
| ComparisonController.GetComparisonById | backend/src/controllers/recommendation.controller.ts:17-26 | A non-number id is a store error; a 404 exactly when no row has the id; the `JSON.parse` error exactly when the row's payload does not parse; otherwise that row with its parsed payload |
| ComparisonController.CreatedComparisonIsReadable | backend/src/controllers/recommendation.controller.ts:13-26 | A comparison stored for a signed-in user is found through the endpoint under the decimal text of its id: the reply is its parsed form, or the `JSON.parse` error when parsing throws |
| ComparisonController.GetMyComparisons | backend/src/controllers/recommendation.controller.ts:28-35 | A 401 exactly without a signed-in user; the `JSON.parse` error when one of the user's payloads does not parse; otherwise that user's comparisons, newest first |
| ComparisonController.MyComparisonsAnswered | backend/src/controllers/recommendation.controller.ts:28-35 | For a signed-in user the reply succeeds exactly when every payload of their stored comparisons parses, and otherwise is the `JSON.parse` error |
| ComparisonController.MyComparisonsAreMine | backend/src/controllers/recommendation.controller.ts:28-35 | A successful reply shows the user only their own comparisons, each a stored row parsed |
| ComparisonController.MyComparisonsAreAll | backend/src/controllers/recommendation.controller.ts:28-35 | A successful reply shows the user every one of their stored comparisons, parsed |
| ReviewController.GetVehicleReviews | backend/src/controllers/review.controller.ts:6-12 | The page is `parseInt(page) \|\| 1`; a non-number vehicle id is a store error; otherwise the service's page |
| ReviewController.FirstReviewPageByDefault | backend/src/controllers/review.controller.ts:8-10 | Without a page the reply is the vehicle's ten newest reviews with the total and the page count |
| ReviewController.AddReview | backend/src/controllers/review.controller.ts:14-36 | A 401 before any check without a user; a 400 when content is empty or the rating is missing, zero or outside [1, 5]; only a 201 writes, and it carries the user, the vehicle, the body's fields and a rating in [1, 5] |
| ReviewController.ValidReviewIsStored | backend/src/controllers/review.controller.ts:26-35 | A valid review of an existing vehicle by an existing user is a 201 stored under the next id, and the store stays well-formed |
| ReviewController.DeleteReview | backend/src/controllers/review.controller.ts:38-51 | A 401 without a user; a 404, with nothing changed, exactly when no review with that id belongs to the user; otherwise only the user's review goes |
| ReviewController.PostThenDelete | backend/src/controllers/review.controller.ts:26-51 | Deleting a just-posted review under the decimal text of its id succeeds and restores the reviews table, but leaves the vehicle's rating columns counting it |
| ReviewController.DeleteNewest | backend/src/services/review.service.ts:48-50 | Deleting, as its author, the review with the highest id removes exactly that last row |
| AuthController.Register | backend/src/controllers/auth.controller.ts:6-31 | A 400 with nothing written when email, password or full name is missing; a taken email is a 400 carrying the store error; otherwise 201 with id, email, name and role `'user'` |
| AuthController.SecondRegistrationRefused | backend/src/controllers/auth.controller.ts:13-30 | Registering an email a second time is a 400 that changes nothing |
| AuthController.LoginMessage | backend/src/services/auth.service.ts:33-42 | An unknown email and a rejected password have their own messages |
| AuthController.Login | backend/src/controllers/auth.controller.ts:33-50 | A 400 without email or password; a 401 "User not found" exactly for an unknown email; a 401 "Invalid password" exactly when the account found by the email rejects the password; success exactly when it accepts, with the public columns of such an account |
| AuthController.RegisterThenLogIn | backend/src/controllers/auth.controller.ts:6-50 | Right after registering, logging in with the same email and password succeeds with the registered user |
| AuthController.GetProfile | backend/src/controllers/auth.controller.ts:52-63 | A 401 without a user; a 404 exactly when the user's row is gone; otherwise the profile columns of the row with the user's id |
| AuthController.RegisteredProfile | backend/src/controllers/auth.controller.ts:52-63 | A freshly registered user sees their profile with the email and name they gave |
| AuthController.NullUpdateWritesNothing | backend/src/services/auth.service.ts:76-86 | When the update returns null, the store is as it was |
| AuthController.UpdateProfile | backend/src/controllers/auth.controller.ts:65-79 | A 401 without a user; a 404 whenever the update returns null (no truthy field or no row), with nothing changed; otherwise the store after the update and the summary of the user's row merged with the body |
| AuthController.UnsettableFieldsLookLikeMissingUser | backend/src/controllers/auth.controller.ts:70-73 | A body with only email or password answers 404, as if the account did not exist |
| WishlistController.GetWishlist | backend/src/controllers/comparison.controller.ts:6-13 | A 401 exactly without a user; otherwise the service's list of that user's saved vehicles, each one they saved |
| WishlistController.AddToWishlist | backend/src/controllers/comparison.controller.ts:15-24 | A 401 without a user; otherwise "Added to wishlist" whether or not the pair was already saved, or a store error with nothing written |
| WishlistController.RemoveFromWishlist | backend/src/controllers/comparison.controller.ts:26-35 | A 401 without a user; "Removed from wishlist" for every numeric id, even when nothing was removed; the pair is gone and only the wishlist changed |
| WishlistController.IsInWishlist | backend/src/controllers/comparison.controller.ts:37-46 | A 401 without a user; otherwise exactly whether the pair is saved |
| WishlistController.SaveThenAsk | backend/src/controllers/comparison.controller.ts:15-46 | After a save the vehicle reads as saved and appears on the list; after an unsave it reads as not saved |
| WishlistController.SaveTwiceSameAnswer | backend/src/controllers/comparison.controller.ts:15-24 | Saving again gives the same answer and the same list; only the id sequence moves |

## Left out

- The DDL itself is not modelled: running `initializeDatabase`, the dealers table and the other tables no service queries. The `INDEX` lines inside `CREATE TABLE` are not valid Postgres, so that bootstrap would fail. The model takes the tables as existing with the declared constraints.
- SQL text is not parsed. A `WHERE` clause is a sequence of typed conditions with placeholder numbers, and a `SET` list is a sequence of typed assignments.
- `JSON.stringify` is treated as identity: a comparison's payload and id list are stored as structured values.
- ComparisonService.GetComparison: `JSON.parse` of the value the driver returns for the `JSONB` column is the function parameter `parse`. Its result is `None` where the call throws. The driver's default decoding hands back an object, on which `JSON.parse` throws; `StoredComparisonUnreadable` states what that does. No decoder is assumed to invert the stored payload.
- ComparisonService.GetUserComparisons: reads its payloads through the same `parse` parameter; `UserComparisonsUnreadable` states the default-decoding case.
- bcrypt and JWT are foreign. `hashPassword` is a function parameter, `comparePassword` is a predicate parameter, and the token is not produced.
- Express routing, the auth middleware, `asyncHandler` and the error middleware are not modelled. A store error reaching the middleware is an `Unhandled` reply, and its status is left to that middleware.
- `localStorage`, `hydrate`, `setUser`, `setToken` and `setIsLoading` in the client store are I/O or plain setters.
- Concurrency is left to Postgres: the atomicity of `view_count + 1` and of the rating recomputation.
- DECIMAL columns are not rounded. Ratings and averages are exact `real`s, and stored prices are integers. Price bounds are read as `numeric` values and compared with the price as a number.
- Numbers.ParseNumeric: follows PostgreSQL 14 and 15 `numeric` input, including the blanks `strtol` skips between `e` and the exponent. PostgreSQL 16 also accepts `_` between digits and `0x`, `0o` and `0b` integers; those are refused here. Exponents beyond `numeric`'s range, which Postgres refuses, are accepted here.
- `average_rating` and `view_count` are declared without `NOT NULL` (backend/src/db/schema.ts:68 and :70). No statement of the core stores NULL there, so the model types them as a `real` and an `int`.
- Timestamps are the integer `now` given to each operation. `CURRENT_TIMESTAMP` is that value.
- The order of rows that tie on a sort key, and the order of rows without `ORDER BY`, are unspecified in SQL. The model keeps table order among ties, which is one order Postgres may choose. Claims about walking pages hold whatever order Postgres picks: the sort key must be unique for them (`ListingWalksPages` under `id DESC`, and `ReviewsWalkPages` with distinct creation times).
- VehicleService.GetAllVehicles: `data` is the window of the model's sorted listing. Under the price and rating sorts, rows tied on the key may be arranged differently by Postgres, and differently on each request, so two requests may overlap or skip a tied row.
- VehicleService.SearchVehicles: which ten of more than ten hits come back is Postgres's choice, since the statement has no `ORDER BY`. The model takes the first ten in table order; `SearchIsContainment` says only that they are ten hits, none repeated beyond the hits, not which.
- ComparisonService.FetchCompared: the order of an `IN (...)` result is unspecified; the model keeps table order.
- A `SERIAL` value that a failed insert consumes is not modelled. Only the `ON CONFLICT DO NOTHING` path advances the wishlist sequence without a row.
- Integer widths are not modelled: 32-bit `INTEGER` columns, JavaScript numbers above 2^53, and `VARCHAR` length limits.
- Query parameters given as arrays, and request fields of the wrong JSON type, are not modelled. A rating arrives as a number or is missing, and `vehicleIds` elements are integers.
- The UI components, the axios client and the type declarations have no behaviour to model.
- Text.Lower folds ASCII letters only, and so does the slug's lower-casing. JavaScript's `toLowerCase` and Postgres `ILIKE` follow Unicode, so some characters outside ASCII fold there and not here. Whitespace is JavaScript's full `\s` set (`Text.IsWhitespace`), and `\w` is ASCII in the source as well, since its regular expressions have no `u` flag.
- VehicleService.SearchIsContainment: holds only for terms without `%`, `_` or `\`. The source does not escape them, so such a term is a pattern there. `SearchVehicles` itself matches through the full `LIKE` matcher for every term.
- VehicleService.GetSimilarVehicles: takes `limit` as a natural number. The only caller passes the default 4, so a negative `LIMIT` error is not modelled.
