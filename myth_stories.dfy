/** Myth stories: short texts tied to a region and written by a user. The
    repository links the author on creation and never changes that link. */
module MythStories {
  import opened Common
  import opened Table

  datatype MythStory = MythStory(
    id: string,
    title: string,
    content: string,
    imageUrl: string,
    regionId: string,
    userId: string)

  function StoryKey(s: MythStory): string { s.id }

  datatype CreateMythStoryDto = CreateMythStoryDto(
    title: string, content: string, imageUrl: string, regionId: string)

  /** Every field optional (`PartialType`). */
  datatype UpdateMythStoryDto = UpdateMythStoryDto(
    title: Option<string>, content: Option<string>, imageUrl: Option<string>, regionId: Option<string>)

  /** The entity `createAndSave` builds for the calling user. */
  function NewStory(id: string, dto: CreateMythStoryDto, userId: string): (s: MythStory)
    ensures s.id == id && s.title == dto.title && s.content == dto.content && s.imageUrl == dto.imageUrl
    ensures s.regionId == dto.regionId && s.userId == userId
  {
    MythStory(id, dto.title, dto.content, dto.imageUrl, dto.regionId, userId)
  }

  /** The guarded assignments of `updatePartial`; the author is not among them. */
  function MergeStory(s: MythStory, dto: UpdateMythStoryDto): (u: MythStory)
    ensures u.id == s.id && u.userId == s.userId
    ensures u.title == Pick(dto.title, s.title) && u.content == Pick(dto.content, s.content)
    ensures u.imageUrl == Pick(dto.imageUrl, s.imageUrl) && u.regionId == Pick(dto.regionId, s.regionId)
  {
    MythStory(s.id, Pick(dto.title, s.title), Pick(dto.content, s.content),
              Pick(dto.imageUrl, s.imageUrl), Pick(dto.regionId, s.regionId), s.userId)
  }

  /** A run of partial updates applied in order. */
  function UpdateAll(s: MythStory, dtos: seq<UpdateMythStoryDto>): MythStory
    decreases |dtos|
  {
    if |dtos| == 0 then s else UpdateAll(MergeStory(s, dtos[0]), dtos[1..])
  }

  /** Whatever updates follow, a story stays with the user who created it. */
  lemma {:induction false} AuthorSurvivesUpdates(s: MythStory, dtos: seq<UpdateMythStoryDto>)
    ensures UpdateAll(s, dtos).userId == s.userId && UpdateAll(s, dtos).id == s.id
    decreases |dtos|
  {
    if |dtos| > 0 {
      AuthorSurvivesUpdates(MergeStory(s, dtos[0]), dtos[1..]);
    }
  }

  /** The myth_stories table. */
  class MythStoriesRepository {
    var rows: seq<MythStory>

    ghost predicate Valid()
      reads this
    {
      UniqueKeys(rows, StoryKey)
    }

    constructor ()
      ensures Valid() && rows == []
    {
      rows := [];
    }

    /** Saves a story linked to `dto.regionId` and to the calling user. */
    method CreateAndSave(dto: CreateMythStoryDto, userId: string, freshId: string) returns (s: MythStory)
      requires Valid()
      requires IndexOf(rows, StoryKey, freshId).None?
      modifies this
      ensures Valid()
      ensures s == NewStory(freshId, dto, userId) && rows == old(rows) + [s]
    {
      s := NewStory(freshId, dto, userId);
      AppendKeepsUnique(rows, StoryKey, s);
      rows := rows + [s];
    }

    /** NotFound exactly when `findById` finds no story with that id. */
    method FindByIdOrThrow(id: string) returns (r: Result<MythStory>)
      ensures r.Err? <==> forall x :: x in rows ==> x.id != id
      ensures r.Err? ==> r.error == NotFound
      ensures r.Ok? ==> r.value in rows && r.value.id == id
    {
      var i := IndexOf(rows, StoryKey, id);
      if i.None? {
        return Err(NotFound);
      }
      r := Ok(rows[i.value]);
    }

    method UpdatePartial(id: string, dto: UpdateMythStoryDto) returns (r: Result<MythStory>)
      requires Valid()
      modifies this
      ensures Valid()
      ensures IndexOf(old(rows), StoryKey, id).None? ==> r == Err(NotFound) && rows == old(rows)
      ensures IndexOf(old(rows), StoryKey, id).Some? ==>
                var i := IndexOf(old(rows), StoryKey, id).value;
                r == Ok(MergeStory(old(rows)[i], dto)) && rows == old(rows)[i := r.value]
    {
      var found := IndexOf(rows, StoryKey, id);
      if found.None? {
        return Err(NotFound);
      }
      var story := MergeStory(rows[found.value], dto);
      UpdateKeepsUnique(rows, StoryKey, found.value, story);
      rows := rows[found.value := story];
      r := Ok(story);
    }

    method RemoveById(id: string) returns (r: Result<()>)
      requires Valid()
      modifies this
      ensures Valid()
      ensures IndexOf(old(rows), StoryKey, id).None? ==> r == Err(NotFound) && rows == old(rows)
      ensures IndexOf(old(rows), StoryKey, id).Some? ==>
                r == Ok(()) && rows == Without(old(rows), IndexOf(old(rows), StoryKey, id).value)
      ensures forall x :: x in rows ==> x.id != id
    {
      var found := IndexOf(rows, StoryKey, id);
      if found.None? {
        return Err(NotFound);
      }
      WithoutKeepsUnique(rows, StoryKey, found.value);
      rows := Without(rows, found.value);
      r := Ok(());
    }
  }
}
