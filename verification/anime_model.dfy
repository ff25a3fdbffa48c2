/** The records fetched from the catalogue (types.ts). They are values: the screen never mutates them. */
module AnimeModel {
  import opened Wrappers

  /** The airing status enum of the catalogue. */
  datatype Status = Finished | Releasing | NotYetReleased | Cancelled | Hiatus

  /** The enum value as the catalogue spells it. */
  function StatusName(s: Status): string
  {
    match s
    case Finished => "FINISHED"
    case Releasing => "RELEASING"
    case NotYetReleased => "NOT_YET_RELEASED"
    case Cancelled => "CANCELLED"
    case Hiatus => "HIATUS"
  }

  datatype Title = Title(romaji: string, english: Option<string>, native: string)

  datatype CoverImage = CoverImage(extraLarge: string, large: string, medium: string)

  /**
   * One catalogue entry. `averageScore` and `episodes` are optional because the
   * catalogue sends `null` for titles without a score or a known episode count.
   */
  datatype Anime = Anime(
    id: int,
    idMal: Option<int>,
    title: Title,
    description: Option<string>,
    genres: seq<string>,
    coverImage: CoverImage,
    bannerImage: Option<string>,
    averageScore: Option<int>,
    episodes: Option<int>,
    status: Status)

  /** The set of ids occurring in a list of entries. */
  function Ids(xs: seq<Anime>): set<int>
  {
    set x | x in xs :: x.id
  }

  /** No two entries of the list share an id. */
  predicate UniqueIds(xs: seq<Anime>)
  {
    forall j, k :: 0 <= j < k < |xs| ==> xs[j].id != xs[k].id
  }
}
