/** Restaurants: the repository with its rating ranking, nearby search and
    partial updates, and the service that normalises paging before delegating. */
module Restaurants {
  import opened Common
  import opened Table
  import opened Ranking
  import opened Paging
  import opened Queries

  /** A stored restaurant; the rating is an optional integer column. */
  datatype Restaurant = Restaurant(
    id: string,
    name: string,
    address: string,
    latitude: real,
    longitude: real,
    rating: Option<int>,
    category: Option<string>,
    website: Option<string>)

  function RestaurantKey(r: Restaurant): string { r.id }

  /** Every field optional. */
  datatype UpdateRestaurantDto = UpdateRestaurantDto(
    name: Option<string>, address: Option<string>, latitude: Option<real>, longitude: Option<real>,
    rating: Option<int>, category: Option<string>, website: Option<string>)

  /** `Object.assign(r, dto)`: the defined fields overwrite, the rest stay. */
  function MergeRestaurant(r: Restaurant, dto: UpdateRestaurantDto): (u: Restaurant)
    ensures u.id == r.id
    ensures u.name == Pick(dto.name, r.name) && u.address == Pick(dto.address, r.address)
    ensures u.latitude == Pick(dto.latitude, r.latitude) && u.longitude == Pick(dto.longitude, r.longitude)
    ensures u.rating == (if dto.rating.Some? then dto.rating else r.rating)
    ensures u.category == (if dto.category.Some? then dto.category else r.category)
    ensures u.website == (if dto.website.Some? then dto.website else r.website)
  {
    Restaurant(r.id, Pick(dto.name, r.name), Pick(dto.address, r.address),
               Pick(dto.latitude, r.latitude), Pick(dto.longitude, r.longitude),
               if dto.rating.Some? then dto.rating else r.rating,
               if dto.category.Some? then dto.category else r.category,
               if dto.website.Some? then dto.website else r.website)
  }

  /** `WHERE rating IS NOT NULL AND rating >= :min`. */
  predicate RatedAtLeast(r: Restaurant, min: int) {
    r.rating.Some? && r.rating.value >= min
  }

  /** `ORDER BY rating DESC, name ASC`. */
  function RatingThenName(r: Restaurant): SortKey {
    SortKey(-(if r.rating.Some? then r.rating.value else 0) as real, r.name)
  }

  /** `findByMinRating`: only rated restaurants at or above `min`, best
      first and alphabetical among equals; unpaged, all of them. */
  function ByMinRating(rows: seq<Restaurant>, min: int, page: Option<PageOpts>): (r: seq<Restaurant>)
    ensures forall x :: x in r ==> x in rows && x.rating.Some? && x.rating.value >= min
    ensures forall i, j :: 0 <= i < j < |r| ==>
              r[i].rating.value > r[j].rating.value
              || (r[i].rating.value == r[j].rating.value && StrLeq(r[i].name, r[j].name))
    ensures page.None? ==> forall x :: multiset(r)[x] == if RatedAtLeast(x, min) then multiset(rows)[x] else 0
    ensures page.Some? && page.value.take.Some? && page.value.take.value > 0 ==> |r| <= page.value.take.value
  {
    var where := (x: Restaurant) => RatedAtLeast(x, min);
    var r := Select(rows, where, RatingThenName, page);
    SelectRated(rows, min, page, where, r);
    r
  }

  /** What `Select` promises, read back for the rating filter and order. */
  lemma SelectRated(rows: seq<Restaurant>, min: int, page: Option<PageOpts>, where: Restaurant -> bool, r: seq<Restaurant>)
    requires forall x :: where(x) == RatedAtLeast(x, min)
    requires r == Select(rows, where, RatingThenName, page)
    ensures forall x :: x in r ==> x in rows && x.rating.Some? && x.rating.value >= min
    ensures forall i, j :: 0 <= i < j < |r| ==>
              r[i].rating.value > r[j].rating.value
              || (r[i].rating.value == r[j].rating.value && StrLeq(r[i].name, r[j].name))
    ensures page.None? ==> forall x :: multiset(r)[x] == if RatedAtLeast(x, min) then multiset(rows)[x] else 0
    ensures page.Some? && page.value.take.Some? && page.value.take.value > 0 ==> |r| <= page.value.take.value
  {
    assert forall i :: 0 <= i < |r| ==> r[i] in r;
    RatingThenNameOrder(r);
  }

  /** Reading the sort key back: best rating first, then by name. */
  lemma RatingThenNameOrder(r: seq<Restaurant>)
    requires SortedBy(r, RatingThenName)
    requires forall i :: 0 <= i < |r| ==> r[i].rating.Some?
    ensures forall i, j :: 0 <= i < j < |r| ==>
              r[i].rating.value > r[j].rating.value
              || (r[i].rating.value == r[j].rating.value && StrLeq(r[i].name, r[j].name))
  {
    forall i, j | 0 <= i < j < |r|
      ensures r[i].rating.value > r[j].rating.value
              || (r[i].rating.value == r[j].rating.value && StrLeq(r[i].name, r[j].name))
    {
      assert KeyLeq(RatingThenName(r[i]), RatingThenName(r[j]));
    }
  }

  /** A restaurant without a rating is never ranked, however low `min` is. */
  lemma UnratedNeverRanked(rows: seq<Restaurant>, min: int, page: Option<PageOpts>, x: Restaurant)
    requires x.rating.None?
    ensures x !in ByMinRating(rows, min, page)
  {
  }

  /** The restaurants table. */
  class RestaurantsRepository {
    var rows: seq<Restaurant>

    ghost predicate Valid()
      reads this
    {
      UniqueKeys(rows, RestaurantKey)
    }

    constructor ()
      ensures Valid() && rows == []
    {
      rows := [];
    }

    /** NotFound exactly when no restaurant has that id. */
    method FindByIdOrThrow(id: string) returns (r: Result<Restaurant>)
      ensures r.Err? <==> forall x :: x in rows ==> x.id != id
      ensures r.Err? ==> r.error == NotFound
      ensures r.Ok? ==> r.value in rows && r.value.id == id
    {
      var i := IndexOf(rows, RestaurantKey, id);
      if i.None? {
        return Err(NotFound);
      }
      r := Ok(rows[i.value]);
    }

    /** `findNearby`: within the clamped radius, nearest first, then paged. */
    method FindNearby(distanceKm: Restaurant -> real, radiusKm: Option<real>, page: Option<PageOpts>)
      returns (r: seq<Restaurant>)
      ensures r == Nearby(rows, distanceKm, radiusKm, page)
      ensures forall x :: x in r ==> x in rows && distanceKm(x) <= ClampRadius(radiusKm)
    {
      r := Nearby(rows, distanceKm, radiusKm, page);
    }

    method FindByMinRating(min: int, page: Option<PageOpts>) returns (r: seq<Restaurant>)
      ensures r == ByMinRating(rows, min, page)
      ensures forall x :: x in r ==> x in rows && RatedAtLeast(x, min)
    {
      r := ByMinRating(rows, min, page);
    }

    method UpdatePartial(id: string, dto: UpdateRestaurantDto) returns (r: Result<Restaurant>)
      requires Valid()
      modifies this
      ensures Valid()
      ensures IndexOf(old(rows), RestaurantKey, id).None? ==> r == Err(NotFound) && rows == old(rows)
      ensures IndexOf(old(rows), RestaurantKey, id).Some? ==>
                var i := IndexOf(old(rows), RestaurantKey, id).value;
                r == Ok(MergeRestaurant(old(rows)[i], dto)) && rows == old(rows)[i := r.value]
    {
      var found := IndexOf(rows, RestaurantKey, id);
      if found.None? {
        return Err(NotFound);
      }
      var restaurant := MergeRestaurant(rows[found.value], dto);
      UpdateKeepsUnique(rows, RestaurantKey, found.value, restaurant);
      rows := rows[found.value := restaurant];
      r := Ok(restaurant);
    }

    method RemoveById(id: string) returns (r: Result<()>)
      requires Valid()
      modifies this
      ensures Valid()
      ensures IndexOf(old(rows), RestaurantKey, id).None? ==> r == Err(NotFound) && rows == old(rows)
      ensures IndexOf(old(rows), RestaurantKey, id).Some? ==>
                r == Ok(()) && rows == Without(old(rows), IndexOf(old(rows), RestaurantKey, id).value)
      ensures forall x :: x in rows ==> x.id != id
    {
      var found := IndexOf(rows, RestaurantKey, id);
      if found.None? {
        return Err(NotFound);
      }
      WithoutKeepsUnique(rows, RestaurantKey, found.value);
      rows := Without(rows, found.value);
      r := Ok(());
    }
  }

  /** The service: list and search calls pass `normalizePage(opts)` on. */
  class RestaurantsService {
    const repository: RestaurantsRepository

    constructor (repository: RestaurantsRepository)
      ensures this.repository == repository
    {
      this.repository := repository;
    }

    method FindNearby(distanceKm: Restaurant -> real, radiusKm: Option<real>, opts: Option<RawPage>)
      returns (r: seq<Restaurant>)
      ensures r == Nearby(repository.rows, distanceKm, radiusKm, NormalizePage(opts))
      ensures opts.Some? && opts.value.take.Some? && AtLeast(opts.value.take.value, 1.0) ==> |r| <= MaxTake
    {
      r := repository.FindNearby(distanceKm, radiusKm, NormalizePage(opts));
    }

    method FindByMinRating(min: int, opts: Option<RawPage>) returns (r: seq<Restaurant>)
      ensures r == ByMinRating(repository.rows, min, NormalizePage(opts))
      ensures opts.Some? && opts.value.take.Some? && AtLeast(opts.value.take.value, 1.0) ==> |r| <= MaxTake
    {
      r := repository.FindByMinRating(min, NormalizePage(opts));
    }
  }
}
