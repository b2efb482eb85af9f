/** Reviews of event places, hotels and restaurants: who may edit or delete
    a review, and the average rating of a reviewed entity. */
module Reviews {
  import opened Common
  import opened Table

  /** `ReviewEntityType`: what a review is about. */
  datatype ReviewEntityType = EventPlaceEntity | HotelEntity | RestaurantEntity

  /** The enum's string values. */
  function EntityTypeName(t: ReviewEntityType): string {
    match t
    case EventPlaceEntity => "eventplace"
    case HotelEntity => "hotel"
    case RestaurantEntity => "restaurant"
  }

  /** `Object.values(ReviewEntityType).includes(s)`, answering which value. */
  function ParseEntityType(s: string): (r: Option<ReviewEntityType>)
    ensures r.Some? ==> EntityTypeName(r.value) == s
    ensures r.None? <==> forall t: ReviewEntityType :: EntityTypeName(t) != s
  {
    if s == "eventplace" then Some(EventPlaceEntity)
    else if s == "hotel" then Some(HotelEntity)
    else if s == "restaurant" then Some(RestaurantEntity)
    else None
  }

  /** Every enum value is accepted as itself, and names are distinct. */
  lemma EntityTypeRoundTrip(t: ReviewEntityType)
    ensures ParseEntityType(EntityTypeName(t)) == Some(t)
  {
  }

  // ----- the `uuid` column type -----

  predicate HexDigit(c: char) {
    '0' <= c <= '9' || 'a' <= c <= 'f' || 'A' <= c <= 'F'
  }

  predicate LowerHexDigit(c: char) {
    '0' <= c <= '9' || 'a' <= c <= 'f'
  }

  function LowerHex(c: char): (d: char)
    requires HexDigit(c)
    ensures LowerHexDigit(d)
    ensures LowerHexDigit(c) ==> d == c
  {
    if 'A' <= c <= 'F' then (c as int - 'A' as int + 'a' as int) as char else c
  }

  /** Pair `i` (of 16) may be followed by a hyphen in Postgres' input syntax
      when it is odd and not the last; the output syntax puts one after
      pairs 3, 5, 7 and 9. */
  predicate HyphenMayFollow(i: nat) {
    i == 1 || i == 3 || i == 5 || i == 7 || i == 9 || i == 11 || i == 13
  }

  predicate HyphenFollows(i: nat) {
    i == 3 || i == 5 || i == 7 || i == 9
  }

  /** Pairs `i` to 15 of hex digits, read from the front of `s`, skipping an
      optional hyphen where one may follow: the digits, lower-cased, and the
      text after them; None at the first pair that is not two hex digits. */
  function HexPairs(s: string, i: nat): (r: Option<(string, string)>)
    requires i <= 16
    ensures r.Some? ==> |r.value.0| == 2 * (16 - i)
    ensures r.Some? ==> AllLowerHex(r.value.0)
    decreases 16 - i
  {
    if i == 16 then Some(("", s))
    else if |s| < 2 || !HexDigit(s[0]) || !HexDigit(s[1]) then None
    else
      var rest := if |s| > 2 && s[2] == '-' && HyphenMayFollow(i) then s[3..] else s[2..];
      match HexPairs(rest, i + 1)
      case None => None
      case Some((digits, tail)) => Some(([LowerHex(s[0]), LowerHex(s[1])] + digits, tail))
  }

  /** Lower-case hex digits for pairs `i` to 15, hyphenated as Postgres
      writes a uuid. */
  function Hyphenated(digits: string, i: nat): (s: string)
    requires i <= 16 && |digits| == 2 * (16 - i)
    decreases 16 - i
  {
    if i == 16 then ""
    else digits[..2] + (if HyphenFollows(i) then "-" else "") + Hyphenated(digits[2..], i + 1)
  }

  /** A uuid's text as Postgres returns it: `xxxxxxxx-xxxx-xxxx-xxxx-xxxxxxxxxxxx`. */
  ghost predicate IsCanonicalUuid(u: string) {
    exists digits: string :: |digits| == 32 && AllLowerHex(digits) && u == Hyphenated(digits, 0)
  }

  predicate AllLowerHex(digits: string) {
    forall k :: 0 <= k < |digits| ==> LowerHexDigit(digits[k])
  }

  /** Postgres' `uuid_in`, the cast a text parameter compared with a `uuid`
      column goes through: an optional `{`, 32 hex digits in either case
      with optional hyphens after every odd pair but the last, the matching
      `}`, and nothing else. The value is the canonical text; None is the
      "invalid input syntax for type uuid" error. */
  function ParseUuid(s: string): (r: Option<string>)
    ensures r.Some? ==> IsCanonicalUuid(r.value) && |r.value| == 36
  {
    var braces := |s| > 0 && s[0] == '{';
    match HexPairs(if braces then s[1..] else s, 0)
    case None => None
    case Some((digits, tail)) =>
      if tail == (if braces then "}" else "") then
        HyphenatedIsCanonical(digits);
        Some(Hyphenated(digits, 0))
      else None
  }

  lemma {:induction false} HyphenatedLength(digits: string, i: nat)
    requires i <= 16 && |digits| == 2 * (16 - i)
    ensures |Hyphenated(digits, i)| == 2 * (16 - i) + (if i <= 3 then 4 else if i <= 5 then 3 else if i <= 7 then 2 else if i <= 9 then 1 else 0)
    decreases 16 - i
  {
    if i < 16 {
      HyphenatedLength(digits[2..], i + 1);
    }
  }

  lemma HyphenatedIsCanonical(digits: string)
    requires |digits| == 32 && AllLowerHex(digits)
    ensures IsCanonicalUuid(Hyphenated(digits, 0)) && |Hyphenated(digits, 0)| == 36
  {
    HyphenatedLength(digits, 0);
  }

  /** Reading back what `Hyphenated` writes gives the same digits. */
  lemma {:induction false} HexPairsOfHyphenated(digits: string, i: nat)
    requires i <= 16 && |digits| == 2 * (16 - i) && AllLowerHex(digits)
    ensures HexPairs(Hyphenated(digits, i), i) == Some((digits, ""))
    decreases 16 - i
  {
    if i < 16 {
      var rest := digits[2..];
      HexPairsOfHyphenated(rest, i + 1);
      var s := Hyphenated(digits, i);
      PairThenRest(digits, i);
      HexPairsUnfold(s, i, Hyphenated(rest, i + 1));
    }
  }

  /** One pair of `Hyphenated`, as `HexPairs` reads it back. */
  lemma PairThenRest(digits: string, i: nat)
    requires i < 16 && |digits| == 2 * (16 - i) && AllLowerHex(digits)
    ensures var s := Hyphenated(digits, i);
      && |s| >= 2 && s[0] == digits[0] && s[1] == digits[1]
      && LowerHexDigit(s[0]) && LowerHexDigit(s[1])
      && (if |s| > 2 && s[2] == '-' && HyphenMayFollow(i) then s[3..] else s[2..])
           == Hyphenated(digits[2..], i + 1)
      && [LowerHex(s[0]), LowerHex(s[1])] + digits[2..] == digits
  {
    var rest := digits[2..];
    var sep := if HyphenFollows(i) then "-" else "";
    var after := Hyphenated(rest, i + 1);
    PairThen(digits[..2], sep, after);
    assert LowerHexDigit(digits[0]) && LowerHexDigit(digits[1]);
    assert [digits[0], digits[1]] + rest == digits;
    if !HyphenFollows(i) && i < 15 {
      assert LowerHexDigit(rest[0]);
      PairThen(rest[..2], if HyphenFollows(i + 1) then "-" else "", Hyphenated(rest[2..], i + 2));
    }
  }

  /** Splitting two characters, an optional separator and the rest. */
  lemma PairThen(p: string, sep: string, after: string)
    requires |p| == 2 && |sep| <= 1
    ensures var s := p + sep + after;
      && |s| >= 2 && s[0] == p[0] && s[1] == p[1] && s[2 + |sep|..] == after
      && (|sep| == 1 ==> s[2] == sep[0])
      && (|sep| == 0 && |after| > 0 ==> s[2] == after[0])
  {
  }

  lemma HexPairsUnfold(s: string, i: nat, after: string)
    requires i < 16 && |s| >= 2 && HexDigit(s[0]) && HexDigit(s[1])
    requires after == (if |s| > 2 && s[2] == '-' && HyphenMayFollow(i) then s[3..] else s[2..])
    requires HexPairs(after, i + 1).Some?
    ensures HexPairs(s, i)
            == Some(([LowerHex(s[0]), LowerHex(s[1])] + HexPairs(after, i + 1).value.0, HexPairs(after, i + 1).value.1))
  {
  }

  /** The canonical text parses as itself, so parsing is idempotent: equal
      uuids written differently compare equal once parsed. */
  lemma CanonicalUuidParsesToItself(u: string)
    requires IsCanonicalUuid(u)
    ensures ParseUuid(u) == Some(u)
  {
    var digits: string :| |digits| == 32 && AllLowerHex(digits) && u == Hyphenated(digits, 0);
    HyphenatedParsesToItself(digits);
  }

  lemma HyphenatedParsesToItself(digits: string)
    requires |digits| == 32 && AllLowerHex(digits)
    ensures ParseUuid(Hyphenated(digits, 0)) == Some(Hyphenated(digits, 0))
  {
    var u := Hyphenated(digits, 0);
    HexPairsOfHyphenated(digits, 0);
    assert |u| > 0 && u[0] != '{' by {
      PairThenRest(digits, 0);
    }
    ParseUnbraced(u, digits);
  }

  lemma ParseUnbraced(s: string, digits: string)
    requires |s| > 0 && s[0] != '{' && HexPairs(s, 0) == Some((digits, ""))
    ensures ParseUuid(s) == Some(Hyphenated(digits, 0))
  {
  }

  lemma ParseUuidIdempotent(s: string)
    requires ParseUuid(s).Some?
    ensures ParseUuid(ParseUuid(s).value) == ParseUuid(s)
  {
    CanonicalUuidParsesToItself(ParseUuid(s).value);
  }

  /** A name that is not a uuid is refused. */
  lemma NameIsNotUuid()
    ensures ParseUuid("h1") == None
  {
  }

  datatype Review = Review(
    id: string,
    rating: int,
    comment: string,
    entityType: ReviewEntityType,
    entityId: string,
    userId: string)

  function ReviewKey(r: Review): string { r.id }

  /** Every field of the creation DTO, optional. */
  datatype UpdateReviewDto = UpdateReviewDto(
    rating: Option<int>, comment: Option<string>, entityType: Option<ReviewEntityType>, entityId: Option<string>)

  /** `Object.assign(review, dto)`: the author is not a DTO field, so it stays. */
  function MergeReview(r: Review, dto: UpdateReviewDto): (u: Review)
    ensures u.id == r.id && u.userId == r.userId
    ensures u.rating == Pick(dto.rating, r.rating) && u.comment == Pick(dto.comment, r.comment)
    ensures u.entityType == Pick(dto.entityType, r.entityType) && u.entityId == Pick(dto.entityId, r.entityId)
  {
    Review(r.id, Pick(dto.rating, r.rating), Pick(dto.comment, r.comment),
           Pick(dto.entityType, r.entityType), Pick(dto.entityId, r.entityId), r.userId)
  }

  /** `update`: only the author. */
  predicate MayEdit(r: Review, userId: string) {
    r.userId == userId
  }

  /** `remove`: an administrator, or the author. */
  predicate MayRemove(r: Review, userId: string, isAdmin: bool) {
    isAdmin || r.userId == userId
  }

  /** Whoever may edit a review may also delete it, and an administrator
      may delete every review without being allowed to edit it. */
  lemma EditImpliesRemove(r: Review, userId: string, isAdmin: bool)
    ensures MayEdit(r, userId) ==> MayRemove(r, userId, isAdmin)
    ensures MayRemove(r, userId, true)
    ensures !MayEdit(r, userId) && !isAdmin ==> !MayRemove(r, userId, isAdmin)
  {
  }

  predicate About(r: Review, t: ReviewEntityType, entityId: string) {
    r.entityType == t && r.entityId == entityId
  }

  /** The number and the rating total of the reviews about one entity. */
  function CountAbout(rows: seq<Review>, t: ReviewEntityType, entityId: string): nat {
    if |rows| == 0 then 0
    else (if About(rows[0], t, entityId) then 1 else 0) + CountAbout(rows[1..], t, entityId)
  }

  function SumAbout(rows: seq<Review>, t: ReviewEntityType, entityId: string): int {
    if |rows| == 0 then 0
    else (if About(rows[0], t, entityId) then rows[0].rating else 0) + SumAbout(rows[1..], t, entityId)
  }

  /** `AVG(review.rating)` over the entity's reviews, read back with
      `result?.average ? parseFloat(result.average) : 0`: no reviews give 0. */
  function AverageRating(rows: seq<Review>, t: ReviewEntityType, entityId: string): real {
    var n := CountAbout(rows, t, entityId);
    if n == 0 then 0.0 else SumAbout(rows, t, entityId) as real / n as real
  }

  /** The rating bounds the creation DTO enforces. */
  const MinRating: int := 0
  const MaxRating: int := 5

  lemma {:induction false} SumWithinBounds(rows: seq<Review>, t: ReviewEntityType, entityId: string)
    requires forall i :: 0 <= i < |rows| ==> MinRating <= rows[i].rating <= MaxRating
    ensures MinRating * CountAbout(rows, t, entityId) <= SumAbout(rows, t, entityId)
            <= MaxRating * CountAbout(rows, t, entityId)
  {
    if |rows| > 0 {
      SumWithinBounds(rows[1..], t, entityId);
    }
  }

  /** With every rating between 0 and 5, so is the average. */
  lemma AverageWithinBounds(rows: seq<Review>, t: ReviewEntityType, entityId: string)
    requires forall i :: 0 <= i < |rows| ==> MinRating <= rows[i].rating <= MaxRating
    ensures MinRating as real <= AverageRating(rows, t, entityId) <= MaxRating as real
  {
    var n := CountAbout(rows, t, entityId);
    if n > 0 {
      SumWithinBounds(rows, t, entityId);
      QuotientWithin(SumAbout(rows, t, entityId) as real, n as real, MinRating as real, MaxRating as real);
    }
  }

  /** A total between `lo` and `hi` times a positive count has its mean between them. */
  lemma QuotientWithin(s: real, n: real, lo: real, hi: real)
    requires n > 0.0 && lo * n <= s <= hi * n
    ensures lo <= s / n <= hi
  {
    var q := s / n;
    assert q * n == s;
    assert (q - lo) * n >= 0.0;
    assert (hi - q) * n >= 0.0;
  }

  /** Reviews of other entities do not move an entity's average. */
  lemma {:induction false} AverageIgnoresOthers(rows: seq<Review>, r: Review, t: ReviewEntityType, entityId: string)
    requires !About(r, t, entityId)
    ensures AverageRating(rows + [r], t, entityId) == AverageRating(rows, t, entityId)
  {
    CountSumAppend(rows, r, t, entityId);
  }

  lemma {:induction false} CountSumAppend(rows: seq<Review>, r: Review, t: ReviewEntityType, entityId: string)
    ensures CountAbout(rows + [r], t, entityId) == CountAbout(rows, t, entityId) + (if About(r, t, entityId) then 1 else 0)
    ensures SumAbout(rows + [r], t, entityId) == SumAbout(rows, t, entityId) + (if About(r, t, entityId) then r.rating else 0)
  {
    if |rows| > 0 {
      assert (rows + [r])[1..] == rows[1..] + [r];
      CountSumAppend(rows[1..], r, t, entityId);
    } else {
      assert rows + [r] == [r];
    }
  }

  /** The reviews table. */
  class ReviewsRepository {
    var rows: seq<Review>

    ghost predicate Valid()
      reads this
    {
      UniqueKeys(rows, ReviewKey)
    }

    constructor ()
      ensures Valid() && rows == []
    {
      rows := [];
    }

    /** NotFound exactly when no review has that id. */
    method FindByIdOrThrow(id: string) returns (r: Result<Review>)
      ensures r.Err? <==> forall x :: x in rows ==> x.id != id
      ensures r.Err? ==> r.error == NotFound
      ensures r.Ok? ==> r.value in rows && r.value.id == id
    {
      var i := IndexOf(rows, ReviewKey, id);
      if i.None? {
        return Err(NotFound);
      }
      r := Ok(rows[i.value]);
    }

    /** `save`: overwrites the row with the same id, or adds one. */
    method Save(review: Review)
      requires Valid()
      modifies this
      ensures Valid()
      ensures IndexOf(old(rows), ReviewKey, review.id).Some? ==>
                rows == old(rows)[IndexOf(old(rows), ReviewKey, review.id).value := review]
      ensures IndexOf(old(rows), ReviewKey, review.id).None? ==> rows == old(rows) + [review]
    {
      var found := IndexOf(rows, ReviewKey, review.id);
      if found.Some? {
        UpdateKeepsUnique(rows, ReviewKey, found.value, review);
        rows := rows[found.value := review];
      } else {
        AppendKeepsUnique(rows, ReviewKey, review);
        rows := rows + [review];
      }
    }

    /** `remove`: deletes the row with the review's id. */
    method Remove(review: Review)
      requires Valid()
      modifies this
      ensures Valid()
      ensures IndexOf(old(rows), ReviewKey, review.id).Some? ==>
                rows == Without(old(rows), IndexOf(old(rows), ReviewKey, review.id).value)
      ensures IndexOf(old(rows), ReviewKey, review.id).None? ==> rows == old(rows)
    {
      var found := IndexOf(rows, ReviewKey, review.id);
      if found.Some? {
        WithoutKeepsUnique(rows, ReviewKey, found.value);
        rows := Without(rows, found.value);
      }
    }
  }

  /** The service: authorisation in front of the repository. */
  class ReviewsService {
    const repository: ReviewsRepository

    ghost predicate Valid()
      reads this, repository
    {
      repository.Valid()
    }

    constructor (repository: ReviewsRepository)
      requires repository.Valid()
      ensures this.repository == repository && Valid()
    {
      this.repository := repository;
    }

    /** NotFound first; Forbidden, saving nothing, for anyone but the author;
        otherwise the DTO is merged and saved. */
    method Update(id: string, dto: UpdateReviewDto, userId: string) returns (r: Result<Review>)
      requires Valid()
      modifies repository
      ensures Valid()
      ensures IndexOf(old(repository.rows), ReviewKey, id).None? ==>
                r == Err(NotFound) && repository.rows == old(repository.rows)
      ensures IndexOf(old(repository.rows), ReviewKey, id).Some? ==>
                var i := IndexOf(old(repository.rows), ReviewKey, id).value;
                if !MayEdit(old(repository.rows)[i], userId) then
                  r == Err(Forbidden) && repository.rows == old(repository.rows)
                else
                  r == Ok(MergeReview(old(repository.rows)[i], dto))
                  && repository.rows == old(repository.rows)[i := r.value]
    {
      var review := repository.FindByIdOrThrow(id);
      if review.Err? {
        return review;
      }
      ghost var i := IndexOf(repository.rows, ReviewKey, id).value;
      IndexOfUnique(repository.rows, ReviewKey, i);
      if review.value.userId != userId {
        return Err(Forbidden);
      }
      var merged := MergeReview(review.value, dto);
      repository.Save(merged);
      r := Ok(merged);
    }

    /** NotFound first; Forbidden, keeping the review, unless the caller is
        an administrator or the author; otherwise the review is deleted. */
    method Remove(id: string, userId: string, isAdmin: bool) returns (r: Result<()>)
      requires Valid()
      modifies repository
      ensures Valid()
      ensures IndexOf(old(repository.rows), ReviewKey, id).None? ==>
                r == Err(NotFound) && repository.rows == old(repository.rows)
      ensures IndexOf(old(repository.rows), ReviewKey, id).Some? ==>
                var i := IndexOf(old(repository.rows), ReviewKey, id).value;
                if !MayRemove(old(repository.rows)[i], userId, isAdmin) then
                  r == Err(Forbidden) && repository.rows == old(repository.rows)
                else
                  r == Ok(()) && repository.rows == Without(old(repository.rows), i)
    {
      var review := repository.FindByIdOrThrow(id);
      if review.Err? {
        return Err(NotFound);
      }
      ghost var i := IndexOf(repository.rows, ReviewKey, id).value;
      IndexOfUnique(repository.rows, ReviewKey, i);
      if !isAdmin && review.value.userId != userId {
        return Err(Forbidden);
      }
      repository.Remove(review.value);
      r := Ok(());
    }

    /** BadRequest, before any query, for a type outside the enum. The id
        reaches the query unchecked and is cast to `uuid` there, so an id
        that is not a uuid fails the query (a 500); otherwise the average
        rating of that entity's reviews, whose stored ids are canonical. */
    method GetAverageRating(entityType: string, entityId: string) returns (r: Result<real>)
      ensures r.Err? <==> (forall t: ReviewEntityType :: EntityTypeName(t) != entityType) || ParseUuid(entityId).None?
      ensures (forall t: ReviewEntityType :: EntityTypeName(t) != entityType) ==> r == Err(BadRequest)
      ensures ParseEntityType(entityType).Some? && ParseUuid(entityId).None? ==> r == Err(QueryFailed)
      ensures r.Ok? ==>
                r.value == AverageRating(repository.rows, ParseEntityType(entityType).value, ParseUuid(entityId).value)
    {
      var t := ParseEntityType(entityType);
      if t.None? {
        return Err(BadRequest);
      }
      var id := ParseUuid(entityId);
      if id.None? {
        return Err(QueryFailed);
      }
      r := Ok(AverageRating(repository.rows, t.value, id.value));
    }
  }
}
