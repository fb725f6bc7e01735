/** The constant sample catalogue the in-memory store is seeded with:
    fifteen genres, twelve anime (each naming its genres by name) and
    nineteen episodes. Episode release dates are the instants
    `new Date("YYYY-MM-DD")` denotes, in milliseconds since the epoch.
    The free-text payload of each entry (descriptions, image and video
    URLs) is not reproduced: the store copies it unread, and the seeded
    records carry the empty string in its place. */
module SeedData {

  /** One entry of the anime sample list; `genres` are genre names. */
  datatype AnimeSeed = AnimeSeed(
    title: string, releaseYear: int, status: string, animeType: string, episodeCount: int,
    rating: string, studio: string, genres: seq<string>)

  /** One entry of the episode sample list. */
  datatype EpisodeSeed = EpisodeSeed(
    animeId: int, title: string, number: int, duration: string, releaseDate: int)

  const GenreNames: seq<string> := [
    "Action",
    "Adventure",
    "Comedy",
    "Drama",
    "Fantasy",
    "Horror",
    "Mecha",
    "Romance",
    "School",
    "Sci-Fi",
    "Slice of Life",
    "Sports",
    "Supernatural",
    "Mystery",
    "Psychological"
  ]

  const Animes: seq<AnimeSeed> := [
    // 1
    AnimeSeed("Demon Slayer: Kimetsu no Yaiba",
      2019, "Ongoing", "TV Series", 26, "4.9", "ufotable",
      ["Action", "Adventure", "Fantasy", "Supernatural"]),
    // 2
    AnimeSeed("Attack on Titan",
      2013, "Completed", "TV Series", 87, "4.9", "Wit Studio, MAPPA",
      ["Action", "Drama", "Fantasy", "Mystery"]),
    // 3
    AnimeSeed("My Hero Academia",
      2016, "Ongoing", "TV Series", 113, "4.7", "Bones",
      ["Action", "Adventure", "Supernatural", "School"]),
    // 4
    AnimeSeed("Fullmetal Alchemist: Brotherhood",
      2009, "Completed", "TV Series", 64, "4.9", "Bones",
      ["Action", "Adventure", "Drama", "Fantasy"]),
    // 5
    AnimeSeed("One Piece",
      1999, "Ongoing", "TV Series", 1000, "4.8", "Toei Animation",
      ["Action", "Adventure", "Comedy", "Fantasy"]),
    // 6
    AnimeSeed("Jujutsu Kaisen",
      2020, "Ongoing", "TV Series", 24, "4.8", "MAPPA",
      ["Action", "Supernatural", "Horror", "School"]),
    // 7
    AnimeSeed("Chainsaw Man",
      2022, "Ongoing", "TV Series", 12, "4.8", "MAPPA",
      ["Action", "Supernatural", "Horror", "Comedy"]),
    // 8
    AnimeSeed("Spy x Family",
      2022, "Ongoing", "TV Series", 25, "4.9", "Wit Studio, CloverWorks",
      ["Action", "Comedy", "Slice of Life"]),
    // 9
    AnimeSeed("Bocchi the Rock!",
      2022, "Completed", "TV Series", 12, "4.7", "CloverWorks",
      ["Comedy", "Slice of Life", "School"]),
    // 10
    AnimeSeed("Blue Lock",
      2022, "Ongoing", "TV Series", 24, "4.6", "8bit",
      ["Sports", "Drama", "School"]),
    // 11
    AnimeSeed("Hunter x Hunter",
      2011, "Ongoing", "TV Series", 148, "5.0", "Madhouse",
      ["Action", "Adventure", "Fantasy", "Supernatural"]),
    // 12
    AnimeSeed("Vinland Saga",
      2019, "Ongoing", "TV Series", 24, "4.8", "Wit Studio",
      ["Action", "Adventure", "Drama", "Historical"])
  ]

  const Episodes: seq<EpisodeSeed> := [
    // 1
    EpisodeSeed(
      1, "Cruelty", 1,
      "24:00", 1682899200000),
    // 2
    EpisodeSeed(
      1, "Trainer of the Final Selection", 2,
      "24:00", 1683504000000),
    // 3
    EpisodeSeed(
      1, "Sabito and Makomo", 3,
      "24:00", 1684108800000),
    // 4
    EpisodeSeed(
      1, "Final Selection", 4,
      "24:00", 1684713600000),
    // 5
    EpisodeSeed(
      2, "To You, 2000 Years From Now", 1,
      "24:00", 1685577600000),
    // 6
    EpisodeSeed(
      2, "That Day: The Fall of Shiganshina", 2,
      "24:00", 1686182400000),
    // 7
    EpisodeSeed(
      2, "A Dim Light Amid Despair", 3,
      "24:00", 1686787200000),
    // 8
    EpisodeSeed(
      3, "Izuku Midoriya: Origin", 1,
      "24:00", 1688169600000),
    // 9
    EpisodeSeed(
      3, "What It Takes to Be a Hero", 2,
      "24:00", 1688774400000),
    // 10
    EpisodeSeed(
      7, "Dog & Chainsaw", 1,
      "24:00", 1680307200000),
    // 11
    EpisodeSeed(
      7, "Arrival in Tokyo", 2,
      "24:00", 1680912000000),
    // 12
    EpisodeSeed(
      7, "The Final Battle", 12,
      "24:00", 1681516800000),
    // 13
    EpisodeSeed(
      8, "Operation Strix", 1,
      "24:00", 1677628800000),
    // 14
    EpisodeSeed(
      8, "Secure a Wife", 2,
      "24:00", 1678233600000),
    // 15
    EpisodeSeed(
      8, "Mission Complete", 25,
      "24:00", 1678838400000),
    // 16
    EpisodeSeed(
      9, "Bocchi the Rock!", 1,
      "24:00", 1675209600000),
    // 17
    EpisodeSeed(
      9, "Live Performance", 8,
      "24:00", 1675814400000),
    // 18
    EpisodeSeed(
      10, "Dream", 1,
      "24:00", 1672531200000),
    // 19
    EpisodeSeed(
      10, "The Perfect Striker", 15,
      "24:00", 1673136000000)
  ]
}
