/** Event places (festivals, routes, events, attractions), the rule that a
    place is tied to a hotel or to a restaurant but never to both, and the
    repository that enforces it when places are created and updated. */
module EventPlaces {
  import opened Common
  import opened Table

  datatype PlaceType = Festival | Ruta | Evento | Atractivo

  /** A stored place. Region and legend are required links; hotel and
      restaurant are optional ones (NULL in the database). */
  datatype EventPlace = EventPlace(
    id: string,
    name: string,
    description: string,
    latitude: real,
    longitude: real,
    placeType: PlaceType,
    regionId: string,
    legendId: string,
    hotelId: Option<string>,
    restaurantId: Option<string>)

  function PlaceKey(p: EventPlace): string { p.id }

  /** The exclusivity rule on a stored place. */
  predicate Exclusive(p: EventPlace) {
    !(p.hotelId.Some? && p.restaurantId.Some?)
  }

  predicate AllExclusive(rows: seq<EventPlace>) {
    forall i :: 0 <= i < |rows| ==> Exclusive(rows[i])
  }

  datatype CreateEventPlaceDto = CreateEventPlaceDto(
    name: string, description: string, latitude: real, longitude: real, placeType: PlaceType,
    hotelId: Option<string>, restaurantId: Option<string>, regionId: string, legendId: string)

  /** Every field optional (`PartialType`). The hotel and restaurant ids are
      `@IsOptional()`, which lets `null` through as well as an absent field. */
  datatype UpdateEventPlaceDto = UpdateEventPlaceDto(
    name: Option<string>, description: Option<string>, latitude: Option<real>, longitude: Option<real>,
    placeType: Option<PlaceType>, hotelId: Assigned<string>, restaurantId: Assigned<string>,
    regionId: Option<string>, legendId: Option<string>)

  /** The fields the validator reads from an update DTO. */
  function UpdateLinks(dto: UpdateEventPlaceDto): LinkFields {
    LinkFields(ValueOf(dto.hotelId), ValueOf(dto.restaurantId))
  }

  /** A link field that is given (not `undefined`) but falsy: `null` or "". */
  predicate FalsyGiven(a: Assigned<string>) {
    !a.Undefined? && !Present(ValueOf(a))
  }

  /** The two DTO fields the exclusivity validator reads from `args.object`. */
  datatype LinkFields = LinkFields(hotelId: Option<string>, restaurantId: Option<string>)

  /** The message the validator reports and the repository throws. */
  const ExclusiveMessage: string := "No puede asociar simultáneamente un hotel y un restaurante."

  /** `dto.xId ? { id: dto.xId } : undefined`: a truthy id becomes a link. */
  function Link(id: Option<string>): (r: Option<string>)
    ensures r.Some? <==> Present(id)
    ensures r.Some? ==> r.value == id.value
  {
    if Present(id) then Some(id.value) else None
  }

  /** `HotelRestaurantExclusiveConstraint.validate(value, args)`: the object
      may be missing (`obj?.`), and the decorated value is not consulted. */
  function ValidateExclusive<V>(value: V, obj: Option<LinkFields>): (valid: bool)
    ensures !valid <==> obj.Some? && Present(obj.value.hotelId) && Present(obj.value.restaurantId)
    ensures obj.Some? ==> (valid <==> !(Link(obj.value.hotelId).Some? && Link(obj.value.restaurantId).Some?))
  {
    if obj.None? then true
    else !(Present(obj.value.hotelId) && Present(obj.value.restaurantId))
  }

  /** The validator's cases one by one: only two truthy ids fail. */
  lemma ValidateExclusiveCases(value: string, other: string, hotel: string, restaurant: string)
    requires hotel != "" && restaurant != ""
    ensures !ValidateExclusive(value, Some(LinkFields(Some(hotel), Some(restaurant))))
    ensures ValidateExclusive(value, Some(LinkFields(Some(hotel), None)))
    ensures ValidateExclusive(value, Some(LinkFields(None, Some(restaurant))))
    ensures ValidateExclusive(value, Some(LinkFields(Some(hotel), Some(""))))
    ensures ValidateExclusive(value, Some(LinkFields(None, None)))
    ensures ValidateExclusive(value, None)
    ensures ValidateExclusive(value, Some(LinkFields(Some(hotel), Some(restaurant))))
            == ValidateExclusive(other, Some(LinkFields(Some(hotel), Some(restaurant))))
  {
  }

  /** The entity `createAndSave` builds. */
  function NewPlace(id: string, dto: CreateEventPlaceDto): (p: EventPlace)
    ensures p.id == id && p.name == dto.name && p.description == dto.description
    ensures p.latitude == dto.latitude && p.longitude == dto.longitude && p.placeType == dto.placeType
    ensures p.regionId == dto.regionId && p.legendId == dto.legendId
    ensures p.hotelId == Link(dto.hotelId) && p.restaurantId == Link(dto.restaurantId)
    ensures ValidateExclusive(dto, Some(LinkFields(dto.hotelId, dto.restaurantId))) ==> Exclusive(p)
  {
    EventPlace(id, dto.name, dto.description, dto.latitude, dto.longitude, dto.placeType,
               dto.regionId, dto.legendId, Link(dto.hotelId), Link(dto.restaurantId))
  }

  /** The field-by-field assignments of `updatePartial` as written. A given
      truthy hotel or restaurant id links it; a given falsy one (`null` or "")
      assigns `undefined`, which `save` does not write, so the old link stays. */
  function MergePlaceAsWritten(p: EventPlace, dto: UpdateEventPlaceDto): (r: EventPlace)
    ensures r == MergePlace(p, dto).(
              hotelId := if FalsyGiven(dto.hotelId) then p.hotelId else MergePlace(p, dto).hotelId,
              restaurantId := if FalsyGiven(dto.restaurantId) then p.restaurantId else MergePlace(p, dto).restaurantId)
  {
    var hotel := if dto.hotelId.Undefined? then Undefined
                 else if Present(ValueOf(dto.hotelId)) then Value(dto.hotelId.value) else Undefined;
    var restaurant := if dto.restaurantId.Undefined? then Undefined
                      else if Present(ValueOf(dto.restaurantId)) then Value(dto.restaurantId.value) else Undefined;
    MergePlace(p, dto).(hotelId := Saved(hotel, p.hotelId), restaurantId := Saved(restaurant, p.restaurantId))
  }

  /** The field-by-field assignments of `updatePartial` as intended: a
      defined field overwrites; a given but falsy hotel or restaurant id
      (`null` or "") is written as NULL and clears that link. */
  function MergePlace(p: EventPlace, dto: UpdateEventPlaceDto): (r: EventPlace)
    ensures r.id == p.id
    ensures r.name == Pick(dto.name, p.name) && r.description == Pick(dto.description, p.description)
    ensures r.latitude == Pick(dto.latitude, p.latitude) && r.longitude == Pick(dto.longitude, p.longitude)
    ensures r.placeType == Pick(dto.placeType, p.placeType)
    ensures r.regionId == Pick(dto.regionId, p.regionId) && r.legendId == Pick(dto.legendId, p.legendId)
    ensures dto.hotelId.Undefined? ==> r.hotelId == p.hotelId
    ensures !dto.hotelId.Undefined? ==> r.hotelId == Link(ValueOf(dto.hotelId))
    ensures dto.restaurantId.Undefined? ==> r.restaurantId == p.restaurantId
    ensures !dto.restaurantId.Undefined? ==> r.restaurantId == Link(ValueOf(dto.restaurantId))
  {
    var hotel := if dto.hotelId.Undefined? then Undefined
                 else if Present(ValueOf(dto.hotelId)) then Value(dto.hotelId.value) else Null;
    var restaurant := if dto.restaurantId.Undefined? then Undefined
                      else if Present(ValueOf(dto.restaurantId)) then Value(dto.restaurantId.value) else Null;
    EventPlace(p.id, Pick(dto.name, p.name), Pick(dto.description, p.description),
               Pick(dto.latitude, p.latitude), Pick(dto.longitude, p.longitude),
               Pick(dto.placeType, p.placeType),
               Pick(dto.regionId, p.regionId), Pick(dto.legendId, p.legendId),
               Saved(hotel, p.hotelId), Saved(restaurant, p.restaurantId))
  }

  /** The two merges differ exactly on a given falsy id for a link the place has. */
  lemma MergesDifferOnFalsyIds(p: EventPlace, dto: UpdateEventPlaceDto)
    ensures MergePlaceAsWritten(p, dto) != MergePlace(p, dto) <==>
              (FalsyGiven(dto.hotelId) && p.hotelId.Some?) || (FalsyGiven(dto.restaurantId) && p.restaurantId.Some?)
  {
  }

  /** `updatePartial` as written, once the place is found: the exclusivity
      check looks at the DTO only, and a falsy id does not unlink. */
  function UpdateAsWritten(p: EventPlace, dto: UpdateEventPlaceDto): (r: Result<EventPlace>)
    ensures r.Err? <==> !ValidateExclusive(dto, Some(UpdateLinks(dto)))
    ensures r.Err? ==> r.error == BadRequest
    ensures r.Ok? ==> r.value == MergePlaceAsWritten(p, dto)
  {
    if Present(ValueOf(dto.hotelId)) && Present(ValueOf(dto.restaurantId)) then Err(BadRequest)
    else Ok(MergePlaceAsWritten(p, dto))
  }

  /** A place linked to a hotel, updated with only a restaurant id, ends up
      linked to both: the DTO alone passes the check. */
  lemma UpdateAsWrittenLinksBoth()
    ensures var hotel := "6a1f4e2b-7c3d-4e8a-b5f9-0d2c6e8a4b1f";
            var restaurant := "9c7e2d4a-1b3f-4a6e-8d5c-2f9b0e7a3c61";
            var p := EventPlace("3f2b8c1e-5d4a-4b6f-9e2d-1a7c8b9d0e3f", "Feria", "", 0.0, 0.0, Festival,
                                "c4d8e2f6-0a1b-4c3d-9e5f-7a8b6c4d2e10", "e1f3a5b7-c9d0-4e2f-a4b6-c8d0e2f4a6b8",
                                Some(hotel), None);
            var dto := UpdateEventPlaceDto(None, None, None, None, None, Undefined, Value(restaurant), None, None);
            Exclusive(p) && ValidateExclusive(restaurant, Some(UpdateLinks(dto)))
            && UpdateAsWritten(p, dto) == Ok(p.(restaurantId := Some(restaurant)))
            && !Exclusive(UpdateAsWritten(p, dto).value)
  {
  }

  /** As written, `{ hotelId: null, restaurantId: R }` on a place linked to a
      hotel passes the check and keeps the hotel, so the place ends up linked
      to both; the intended update unlinks the hotel and links only R. */
  lemma NullIdKeepsLinkAsWritten(p: EventPlace, dto: UpdateEventPlaceDto)
    requires p.hotelId.Some? && p.restaurantId.None?
    requires dto.hotelId == Null && dto.restaurantId.Value? && dto.restaurantId.value != ""
    ensures UpdateAsWritten(p, dto).Ok? && !Exclusive(UpdateAsWritten(p, dto).value)
    ensures UpdateAsWritten(p, dto).value.hotelId == p.hotelId
    ensures UpdateChecked(p, dto).Ok?
    ensures UpdateChecked(p, dto).value.hotelId.None?
    ensures UpdateChecked(p, dto).value.restaurantId == Some(dto.restaurantId.value)
  {
  }

  /** `updatePartial` as evidently intended: a falsy id unlinks, and the rule
      is checked on the place the update would produce, so no update links both. */
  function UpdateChecked(p: EventPlace, dto: UpdateEventPlaceDto): (r: Result<EventPlace>)
    ensures r.Ok? ==> Exclusive(r.value)
    ensures r.Err? ==> r.error == BadRequest
    ensures r.Err? <==> !Exclusive(MergePlace(p, dto))
    ensures r.Ok? ==> r.value == MergePlace(p, dto)
  {
    if Present(ValueOf(dto.hotelId)) && Present(ValueOf(dto.restaurantId)) then Err(BadRequest)
    else
      var merged := MergePlace(p, dto);
      if !Exclusive(merged) then Err(BadRequest) else Ok(merged)
  }

  /** The intended update rejects every DTO the written one rejects. For a
      DTO with no falsy id it differs from the written one only where that
      one would link both. */
  lemma UpdateCheckedRefinesAsWritten(p: EventPlace, dto: UpdateEventPlaceDto)
    ensures UpdateAsWritten(p, dto).Err? ==> UpdateChecked(p, dto).Err?
    ensures !FalsyGiven(dto.hotelId) && !FalsyGiven(dto.restaurantId) ==>
              (UpdateChecked(p, dto) != UpdateAsWritten(p, dto) <==>
                 UpdateAsWritten(p, dto).Ok? && !Exclusive(UpdateAsWritten(p, dto).value))
  {
  }

  /** On a place with no hotel and no restaurant yet, checking the DTO is
      enough: both updates agree. */
  lemma UpdatesAgreeOnUnlinkedPlace(p: EventPlace, dto: UpdateEventPlaceDto)
    requires p.hotelId.None? && p.restaurantId.None?
    ensures UpdateChecked(p, dto) == UpdateAsWritten(p, dto)
  {
  }

  /** The event_places table. */
  class EventPlacesRepository {
    var rows: seq<EventPlace>

    ghost predicate Valid()
      reads this
    {
      UniqueKeys(rows, PlaceKey) && AllExclusive(rows)
    }

    constructor ()
      ensures Valid() && rows == []
    {
      rows := [];
    }

    /** BadRequest, with nothing saved, when both ids are truthy; otherwise
        the new place, linked to a hotel or a restaurant only for a truthy id. */
    method CreateAndSave(dto: CreateEventPlaceDto, freshId: string) returns (r: Result<EventPlace>)
      requires Valid()
      requires IndexOf(rows, PlaceKey, freshId).None?
      modifies this
      ensures Valid()
      ensures Present(dto.hotelId) && Present(dto.restaurantId) ==> r == Err(BadRequest) && rows == old(rows)
      ensures !(Present(dto.hotelId) && Present(dto.restaurantId)) ==>
                r == Ok(NewPlace(freshId, dto)) && rows == old(rows) + [r.value]
    {
      if Present(dto.hotelId) && Present(dto.restaurantId) {
        return Err(BadRequest);
      }
      var place := NewPlace(freshId, dto);
      AppendKeepsUnique(rows, PlaceKey, place);
      rows := rows + [place];
      r := Ok(place);
    }

    /** NotFound exactly when no place has that id. */
    method FindByIdOrThrow(id: string) returns (r: Result<EventPlace>)
      ensures r.Err? <==> forall p :: p in rows ==> p.id != id
      ensures r.Err? ==> r.error == NotFound
      ensures r.Ok? ==> r.value in rows && r.value.id == id
    {
      var i := IndexOf(rows, PlaceKey, id);
      if i.None? {
        return Err(NotFound);
      }
      r := Ok(rows[i.value]);
    }

    /** NotFound first; then BadRequest when the DTO, or the place it would
        produce, links both a hotel and a restaurant; otherwise the defined
        fields are assigned and the place saved, a falsy id clearing its link
        (as intended). */
    method UpdatePartial(id: string, dto: UpdateEventPlaceDto) returns (r: Result<EventPlace>)
      requires Valid()
      modifies this
      ensures Valid()
      ensures IndexOf(old(rows), PlaceKey, id).None? ==> r == Err(NotFound) && rows == old(rows)
      ensures IndexOf(old(rows), PlaceKey, id).Some? ==>
                var i := IndexOf(old(rows), PlaceKey, id).value;
                r == UpdateChecked(old(rows)[i], dto)
                && rows == if r.Ok? then old(rows)[i := r.value] else old(rows)
    {
      var found := IndexOf(rows, PlaceKey, id);
      if found.None? {
        return Err(NotFound);
      }
      var i := found.value;
      if Present(ValueOf(dto.hotelId)) && Present(ValueOf(dto.restaurantId)) {
        return Err(BadRequest);
      }
      var place := MergePlace(rows[i], dto);
      if !Exclusive(place) {
        return Err(BadRequest);
      }
      UpdateKeepsUnique(rows, PlaceKey, i, place);
      rows := rows[i := place];
      r := Ok(place);
    }

    /** NotFound for an unknown id; otherwise the row is deleted. */
    method RemoveById(id: string) returns (r: Result<()>)
      requires Valid()
      modifies this
      ensures Valid()
      ensures IndexOf(old(rows), PlaceKey, id).None? ==> r == Err(NotFound) && rows == old(rows)
      ensures IndexOf(old(rows), PlaceKey, id).Some? ==>
                r == Ok(()) && rows == Without(old(rows), IndexOf(old(rows), PlaceKey, id).value)
      ensures forall p :: p in rows ==> p.id != id
    {
      var found := IndexOf(rows, PlaceKey, id);
      if found.None? {
        return Err(NotFound);
      }
      WithoutKeepsUnique(rows, PlaceKey, found.value);
      rows := Without(rows, found.value);
      r := Ok(());
    }
  }
}
