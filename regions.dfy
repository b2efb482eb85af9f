/** Regions of the country, each optionally tied to a legend; the repository
    with its legend-link rules and nearby search, and the service that
    normalises paging before delegating. */
module Regions {
  import opened Common
  import opened Table
  import opened Paging
  import opened Queries

  datatype Region = Region(
    id: string,
    name: string,
    description: string,
    latitude: real,
    longitude: real,
    legendId: Option<string>)

  function RegionKey(r: Region): string { r.id }

  datatype CreateRegionDto = CreateRegionDto(
    name: string, description: string, latitude: real, longitude: real, legendId: Option<string>)

  /** Every field optional (`PartialType`). The legend id keeps the JSON
      distinction between an absent field and `null`, which `@IsOptional`
      lets through and which is how a client unlinks the legend. */
  datatype UpdateRegionDto = UpdateRegionDto(
    name: Option<string>, description: Option<string>, latitude: Option<real>, longitude: Option<real>,
    legendId: Assigned<string>)

  /** The entity `createAndSave` builds: a legend is linked only for a truthy id. */
  function NewRegion(id: string, dto: CreateRegionDto): (r: Region)
    ensures r.id == id && r.name == dto.name && r.description == dto.description
    ensures r.latitude == dto.latitude && r.longitude == dto.longitude
    ensures r.legendId.Some? <==> Present(dto.legendId)
    ensures r.legendId.Some? ==> r.legendId == dto.legendId
  {
    Region(id, dto.name, dto.description, dto.latitude, dto.longitude,
           if Present(dto.legendId) then dto.legendId else None)
  }

  /** `updatePartial`: `Object.assign` of every field but `legendId`, then the
      legend: an undefined id keeps it, `null` or `""` sets it to null, a
      truthy id links that legend. */
  function MergeRegion(r: Region, dto: UpdateRegionDto): (u: Region)
    ensures u.id == r.id
    ensures u.name == Pick(dto.name, r.name) && u.description == Pick(dto.description, r.description)
    ensures u.latitude == Pick(dto.latitude, r.latitude) && u.longitude == Pick(dto.longitude, r.longitude)
    ensures dto.legendId.Undefined? ==> u.legendId == r.legendId
    ensures !dto.legendId.Undefined? ==> (u.legendId.Some? <==> Present(ValueOf(dto.legendId)))
    ensures dto.legendId.Value? && dto.legendId.value != "" ==> u.legendId == Some(dto.legendId.value)
  {
    var kept := Region(r.id, Pick(dto.name, r.name), Pick(dto.description, r.description),
                       Pick(dto.latitude, r.latitude), Pick(dto.longitude, r.longitude), r.legendId);
    match dto.legendId
    case Undefined => kept
    case Null => kept.(legendId := None)
    case Value(l) => kept.(legendId := if l != "" then Some(l) else None)
  }

  /** A `null` legend id, the unlink a validated request can carry, drops the
      legend whatever it was; a truthy id replaces it. */
  lemma NullLegendUnlinks(r: Region, dto: UpdateRegionDto, l: string)
    requires r.legendId.Some?
    requires l != ""
    ensures MergeRegion(r, dto.(legendId := Null)).legendId.None?
    ensures MergeRegion(r, dto.(legendId := Value(l))).legendId == Some(l)
    ensures MergeRegion(MergeRegion(r, dto.(legendId := Null)), dto.(legendId := Undefined)).legendId.None?
  {
  }

  /** An update without a legend id leaves a created region as it was; an
      update with a legend id links what creating with that id links. */
  lemma LegendLinkAgreesWithCreate(id: string, dto: CreateRegionDto, legendId: Option<string>)
    ensures var created := NewRegion(id, dto);
            var none := UpdateRegionDto(None, None, None, None, Undefined);
            MergeRegion(created, none) == created
            && (legendId.Some? ==> MergeRegion(created, none.(legendId := Value(legendId.value))).legendId
                                   == NewRegion(id, dto.(legendId := legendId)).legendId)
  {
  }

  /** The regions table. */
  class RegionsRepository {
    var rows: seq<Region>

    ghost predicate Valid()
      reads this
    {
      UniqueKeys(rows, RegionKey)
    }

    constructor ()
      ensures Valid() && rows == []
    {
      rows := [];
    }

    method CreateAndSave(dto: CreateRegionDto, freshId: string) returns (r: Region)
      requires Valid()
      requires IndexOf(rows, RegionKey, freshId).None?
      modifies this
      ensures Valid()
      ensures r == NewRegion(freshId, dto) && rows == old(rows) + [r]
    {
      r := NewRegion(freshId, dto);
      AppendKeepsUnique(rows, RegionKey, r);
      rows := rows + [r];
    }

    /** NotFound exactly when no region has that id. */
    method FindByIdOrThrow(id: string) returns (r: Result<Region>)
      ensures r.Err? <==> forall x :: x in rows ==> x.id != id
      ensures r.Err? ==> r.error == NotFound
      ensures r.Ok? ==> r.value in rows && r.value.id == id
    {
      var i := IndexOf(rows, RegionKey, id);
      if i.None? {
        return Err(NotFound);
      }
      r := Ok(rows[i.value]);
    }

    /** `findNearby`: the regions within the clamped radius of the query
        point, nearest first; `skip`/`take` only when given. */
    method FindNearby(distanceKm: Region -> real, radiusKm: Option<real>, page: Option<PageOpts>)
      returns (r: seq<Region>)
      ensures r == Nearby(rows, distanceKm, radiusKm, page)
      ensures forall x :: x in r ==> x in rows && distanceKm(x) <= ClampRadius(radiusKm)
    {
      r := Nearby(rows, distanceKm, radiusKm, page);
    }

    method UpdatePartial(id: string, dto: UpdateRegionDto) returns (r: Result<Region>)
      requires Valid()
      modifies this
      ensures Valid()
      ensures IndexOf(old(rows), RegionKey, id).None? ==> r == Err(NotFound) && rows == old(rows)
      ensures IndexOf(old(rows), RegionKey, id).Some? ==>
                var i := IndexOf(old(rows), RegionKey, id).value;
                r == Ok(MergeRegion(old(rows)[i], dto)) && rows == old(rows)[i := r.value]
    {
      var found := IndexOf(rows, RegionKey, id);
      if found.None? {
        return Err(NotFound);
      }
      var region := MergeRegion(rows[found.value], dto);
      UpdateKeepsUnique(rows, RegionKey, found.value, region);
      rows := rows[found.value := region];
      r := Ok(region);
    }

    method RemoveById(id: string) returns (r: Result<()>)
      requires Valid()
      modifies this
      ensures Valid()
      ensures IndexOf(old(rows), RegionKey, id).None? ==> r == Err(NotFound) && rows == old(rows)
      ensures IndexOf(old(rows), RegionKey, id).Some? ==>
                r == Ok(()) && rows == Without(old(rows), IndexOf(old(rows), RegionKey, id).value)
      ensures forall x :: x in rows ==> x.id != id
    {
      var found := IndexOf(rows, RegionKey, id);
      if found.None? {
        return Err(NotFound);
      }
      WithoutKeepsUnique(rows, RegionKey, found.value);
      rows := Without(rows, found.value);
      r := Ok(());
    }
  }

  /** The service: list and search calls pass `normalizePage(opts)` on. */
  class RegionsService {
    const repository: RegionsRepository

    constructor (repository: RegionsRepository)
      ensures this.repository == repository
    {
      this.repository := repository;
    }

    /** `findByCoordinates`: the nearby search with the normalised page. */
    method FindByCoordinates(distanceKm: Region -> real, radiusKm: Option<real>, opts: Option<RawPage>)
      returns (r: seq<Region>)
      ensures r == Nearby(repository.rows, distanceKm, radiusKm, NormalizePage(opts))
      ensures opts.Some? && opts.value.take.Some? && AtLeast(opts.value.take.value, 1.0) ==> |r| <= MaxTake
    {
      r := repository.FindNearby(distanceKm, radiusKm, NormalizePage(opts));
    }
  }
}
