/** Hotels: the repository, with its field-by-field partial update and the
    rating query, and the service, whose lookups, updates, removals and
    rating query repeat the repository's over the same table. */
module Hotels {
  import opened Common
  import opened Table
  import opened Ranking
  import opened Queries

  /** A stored hotel; the rating is a required integer column. */
  datatype Hotel = Hotel(
    id: string,
    name: string,
    address: string,
    latitude: real,
    longitude: real,
    rating: int,
    website: Option<string>,
    phone: Option<string>)

  function HotelKey(h: Hotel): string { h.id }

  /** Every field optional (`PartialType`). */
  datatype UpdateHotelDto = UpdateHotelDto(
    name: Option<string>, address: Option<string>, latitude: Option<real>, longitude: Option<real>,
    rating: Option<int>, website: Option<string>, phone: Option<string>)

  /** The assignments `if (dto.f !== undefined) hotel.f = dto.f`, one per field. */
  function MergeHotel(h: Hotel, dto: UpdateHotelDto): (u: Hotel)
    ensures u.id == h.id
    ensures u.name == Pick(dto.name, h.name) && u.address == Pick(dto.address, h.address)
    ensures u.latitude == Pick(dto.latitude, h.latitude) && u.longitude == Pick(dto.longitude, h.longitude)
    ensures u.rating == Pick(dto.rating, h.rating)
    ensures u.website == (if dto.website.Some? then dto.website else h.website)
    ensures u.phone == (if dto.phone.Some? then dto.phone else h.phone)
  {
    Hotel(h.id, Pick(dto.name, h.name), Pick(dto.address, h.address),
          Pick(dto.latitude, h.latitude), Pick(dto.longitude, h.longitude),
          Pick(dto.rating, h.rating),
          if dto.website.Some? then dto.website else h.website,
          if dto.phone.Some? then dto.phone else h.phone)
  }

  /** An update with no field defined leaves the hotel as it was, and
      applying the same update twice is applying it once. */
  lemma MergeHotelIdempotent(h: Hotel, dto: UpdateHotelDto)
    ensures MergeHotel(h, UpdateHotelDto(None, None, None, None, None, None, None)) == h
    ensures MergeHotel(MergeHotel(h, dto), dto) == MergeHotel(h, dto)
  {
  }

  /** `ORDER BY rating DESC`; hotels with equal ratings keep storage order. */
  function RatingDesc(h: Hotel): SortKey {
    SortKey(-h.rating as real, "")
  }

  /** `findByRating`: the hotels rated at least `min`, best first, each
      qualifying hotel exactly as often as it is stored. The bound comes
      through `ParseFloatPipe`, so it may have a fraction: 3.5 admits 4 and 5. */
  function ByRating(rows: seq<Hotel>, min: real): (r: seq<Hotel>)
    ensures forall x :: x in r ==> x in rows && x.rating as real >= min
    ensures forall i, j :: 0 <= i < j < |r| ==> r[i].rating >= r[j].rating
    ensures forall x :: multiset(r)[x] == if x.rating as real >= min then multiset(rows)[x] else 0
  {
    var where := (h: Hotel) => h.rating as real >= min;
    var r := Select(rows, where, RatingDesc, None);
    SelectRated(rows, min, where, r);
    r
  }

  /** What `Select` promises, read back for the rating filter and order. */
  lemma SelectRated(rows: seq<Hotel>, min: real, where: Hotel -> bool, r: seq<Hotel>)
    requires forall h :: where(h) == (h.rating as real >= min)
    requires r == Select(rows, where, RatingDesc, None)
    ensures forall x :: x in r ==> x in rows && x.rating as real >= min
    ensures forall i, j :: 0 <= i < j < |r| ==> r[i].rating >= r[j].rating
    ensures forall x :: multiset(r)[x] == if x.rating as real >= min then multiset(rows)[x] else 0
  {
    forall i, j | 0 <= i < j < |r| ensures r[i].rating >= r[j].rating {
      assert KeyLeq(RatingDesc(r[i]), RatingDesc(r[j]));
    }
  }

  /** A bound PostgreSQL accepts as the `integer` parameter of
      `rating >= $1`: node-postgres sends the number as its decimal text, which
      parses only when it is a whole number within 32 bits. */
  predicate IntegerParameter(min: real) {
    min.Floor as real == min && -0x8000_0000 <= min.Floor < 0x8000_0000
  }

  /** `findByRating` as written: the parameter is typed as the integer
      column, so a bound with a fraction (or beyond 32 bits) makes the query
      fail and the request end in a 500; any other bound filters as intended. */
  function ByRatingAsWritten(rows: seq<Hotel>, min: real): (r: Result<seq<Hotel>>)
    ensures r.Err? <==> !IntegerParameter(min)
    ensures r.Err? ==> r.error == QueryFailed
    ensures r.Ok? ==> r.value == ByRating(rows, min)
  {
    if IntegerParameter(min) then Ok(ByRating(rows, min)) else Err(QueryFailed)
  }

  /** `?minRating=3.5` passes `ParseFloatPipe` but fails in the database,
      where the intended filter admits a hotel rated 4. */
  lemma FractionalBoundFailsAsWritten(h: Hotel)
    requires h.rating == 4
    ensures ByRatingAsWritten([h], 3.5) == Err(QueryFailed)
    ensures ByRating([h], 3.5) == [h]
  {
    assert multiset(ByRating([h], 3.5))[h] == 1;
  }

  /** The hotels table. */
  class HotelsRepository {
    var rows: seq<Hotel>

    ghost predicate Valid()
      reads this
    {
      UniqueKeys(rows, HotelKey)
    }

    constructor ()
      ensures Valid() && rows == []
    {
      rows := [];
    }

    /** NotFound exactly when `findById` finds no hotel with that id. */
    method FindByIdOrThrow(id: string) returns (r: Result<Hotel>)
      ensures r.Err? <==> forall x :: x in rows ==> x.id != id
      ensures r.Err? ==> r.error == NotFound
      ensures r.Ok? ==> r.value in rows && r.value.id == id
    {
      var i := IndexOf(rows, HotelKey, id);
      if i.None? {
        return Err(NotFound);
      }
      r := Ok(rows[i.value]);
    }

    /** NotFound, changing nothing, for an unknown id; otherwise exactly the
        defined fields change. */
    method UpdatePartial(id: string, dto: UpdateHotelDto) returns (r: Result<Hotel>)
      requires Valid()
      modifies this
      ensures Valid()
      ensures IndexOf(old(rows), HotelKey, id).None? ==> r == Err(NotFound) && rows == old(rows)
      ensures IndexOf(old(rows), HotelKey, id).Some? ==>
                var i := IndexOf(old(rows), HotelKey, id).value;
                r == Ok(MergeHotel(old(rows)[i], dto)) && rows == old(rows)[i := r.value]
    {
      var found := IndexOf(rows, HotelKey, id);
      if found.None? {
        return Err(NotFound);
      }
      var hotel := MergeHotel(rows[found.value], dto);
      UpdateKeepsUnique(rows, HotelKey, found.value, hotel);
      rows := rows[found.value := hotel];
      r := Ok(hotel);
    }

    /** NotFound, removing nothing, for an unknown id. */
    method RemoveById(id: string) returns (r: Result<()>)
      requires Valid()
      modifies this
      ensures Valid()
      ensures IndexOf(old(rows), HotelKey, id).None? ==> r == Err(NotFound) && rows == old(rows)
      ensures IndexOf(old(rows), HotelKey, id).Some? ==>
                r == Ok(()) && rows == Without(old(rows), IndexOf(old(rows), HotelKey, id).value)
      ensures forall x :: x in rows ==> x.id != id
    {
      var found := IndexOf(rows, HotelKey, id);
      if found.None? {
        return Err(NotFound);
      }
      WithoutKeepsUnique(rows, HotelKey, found.value);
      rows := Without(rows, found.value);
      r := Ok(());
    }

    method FindByRating(min: real) returns (r: seq<Hotel>)
      ensures r == ByRating(rows, min)
      ensures forall x :: x in r ==> x in rows && x.rating as real >= min
    {
      r := ByRating(rows, min);
    }
  }

  /** The service works on the same table through the ORM directly; its
      code for these operations is the repository's, line for line. */
  class HotelsService {
    const table: HotelsRepository

    ghost predicate Valid()
      reads this, table
    {
      table.Valid()
    }

    constructor (table: HotelsRepository)
      requires table.Valid()
      ensures this.table == table && Valid()
    {
      this.table := table;
    }

    method FindOne(id: string) returns (r: Result<Hotel>)
      ensures r.Err? <==> forall x :: x in table.rows ==> x.id != id
      ensures r.Err? ==> r.error == NotFound
      ensures r.Ok? ==> r.value in table.rows && r.value.id == id
    {
      r := table.FindByIdOrThrow(id);
    }

    method Update(id: string, dto: UpdateHotelDto) returns (r: Result<Hotel>)
      requires Valid()
      modifies table
      ensures Valid()
      ensures IndexOf(old(table.rows), HotelKey, id).None? ==> r == Err(NotFound) && table.rows == old(table.rows)
      ensures IndexOf(old(table.rows), HotelKey, id).Some? ==>
                var i := IndexOf(old(table.rows), HotelKey, id).value;
                r == Ok(MergeHotel(old(table.rows)[i], dto)) && table.rows == old(table.rows)[i := r.value]
    {
      r := table.UpdatePartial(id, dto);
    }

    method Remove(id: string) returns (r: Result<()>)
      requires Valid()
      modifies table
      ensures Valid()
      ensures IndexOf(old(table.rows), HotelKey, id).None? ==> r == Err(NotFound) && table.rows == old(table.rows)
      ensures IndexOf(old(table.rows), HotelKey, id).Some? ==>
                r == Ok(()) && table.rows == Without(old(table.rows), IndexOf(old(table.rows), HotelKey, id).value)
    {
      r := table.RemoveById(id);
    }

    method FindByRating(min: real) returns (r: seq<Hotel>)
      ensures r == ByRating(table.rows, min)
    {
      r := table.FindByRating(min);
    }
  }
}
