/** The game title search of js/gamellection.js: a fixed table of games, and
    `handleSearch`, which normalises the text typed into the search box,
    keeps the games whose lower-cased name contains it and renders them as
    an HTML list. The single effect of `handleSearch`, its assignment to the
    result container's `innerHTML`, is modelled as the string it assigns. */
module Gamellection {
  import opened JsText

  /** One entry of the `games` table: the title shown and the page it links to. */
  datatype Game = Game(name: string, url: string)

  /** The `games` table (lines 5-43), in its order. It is written as four
      displays joined together, which keeps proofs about single entries
      small; the value is the one array of the source. */
  const Games: seq<Game> := GamesPart1 + GamesPart2 + GamesPart3 + GamesPart4

  /** Lines 6-17 of the table. */
  const GamesPart1: seq<Game> := [
    Game("3 Slices", "../Pages/Subpages/Gamellection Subpages/3Slices.html"),
    Game("3 Slices 2", "../Pages/Subpages/Gamellection Subpages/3Slices2.html"),
    Game("2048", "../Pages/Subpages/Gamellection Subpages/2048.html"),
    Game("Achievement Unlocked", "../Pages/Subpages/Gamellection Subpages/AchievementUnlocked.html"),
    Game("Antbuster", "../Pages/Subpages/Gamellection Subpages/Antbuster.html"),
    Game("Awesome Planes", "../Pages/Subpages/Gamellection Subpages/AwesomePlanes.html"),
    Game("Awesome Tanks", "../Pages/Subpages/Gamellection Subpages/AwesomeTanks.html"),
    Game("Awesome Tanks 2", "../Pages/Subpages/Gamellection Subpages/AwesomeTanks2.html"),
    Game("Big FLAPPY Tower VS Tiny Square", "../Pages/Subpages/Gamellection Subpages/BigFLAPPYTowerVSTinySquare.html"),
    Game("Big ICE Tower Tiny Square", "../Pages/Subpages/Gamellection Subpages/BigICETowerTinySquare.html"),
    Game("Big NEON Tower VS Tiny Square", "../Pages/Subpages/Gamellection Subpages/BigNEONTowerVSTinySquare.html"),
    Game("Big Tower Tiny Square", "../Pages/Subpages/Gamellection Subpages/BigTowerTinySquare.html")
  ]

  /** Lines 18-28 of the table. */
  const GamesPart2: seq<Game> := [
    Game("Big Tower Tiny Square 2", "../Pages/Subpages/Gamellection Subpages/BigTowerTinySquare2.html"),
    Game("Bloons Tower Defense", "../Pages/Subpages/Gamellection Subpages/BTD.html"),
    Game("Bloons Tower Defense 2", "../Pages/Subpages/Gamellection Subpages/BTD2.html"),
    Game("Bloons Tower Defense 3", "../Pages/Subpages/Gamellection Subpages/BTD3.html"),
    Game("Connect 4", "../Pages/Subpages/Gamellection Subpages/Connect4.html"),
    Game("Cookie Clicker", "../Pages/Subpages/Gamellection Subpages/CookieClicker.html"),
    Game("Escape Road", "../Pages/Subpages/Gamellection Subpages/EscapeRoad.html"),
    Game("Five Nights at Winston's", "../Pages/Subpages/Gamellection Subpages/FiveNightsAtWinstons.html"),
    Game("Google Snake", "../Pages/Subpages/Gamellection Subpages/GoogleSnake.html"),
    Game("Hong Kong 97", "../Pages/Subpages/Gamellection Subpages/HongKong97.html"),
    Game("Learn to Fly", "../Pages/Subpages/Gamellection Subpages/LearnToFly.html")
  ]

  /** Lines 29-38 of the table. */
  const GamesPart3: seq<Game> := [
    Game("Learn to Fly 2", "../Pages/Subpages/Gamellection Subpages/LearnToFly2.html"),
    Game("Learn to Fly 3", "../Pages/Subpages/Gamellection Subpages/LearnToFly3.html"),
    Game("Minecraft Classic", "../Pages/Subpages/Gamellection Subpages/MinecraftClassic.html"),
    Game("Moo Moo", "../Pages/Subpages/Gamellection Subpages/MooMoo.html"),
    Game("n-gon", "../Pages/Subpages/Gamellection Subpages/n-gon.html"),
    Game("New Super Mario Bros.", "../Pages/Subpages/Gamellection Subpages/NewSuperMarioBros.html"),
    Game("Pac-Man", "../Pages/Subpages/Gamellection Subpages/Pac-Man.html"),
    Game("Quick, Draw!", "../Pages/Subpages/Gamellection Subpages/QuickDrawWithGoogle.html"),
    Game("Run 3", "../Pages/Subpages/Gamellection Subpages/Run3.html"),
    Game("Shell Shockers", "../Pages/Subpages/Gamellection Subpages/ShellShockers.html")
  ]

  /** Lines 39-42 of the table. */
  const GamesPart4: seq<Game> := [
    Game("Slope", "../Pages/Subpages/Gamellection Subpages/Slope.html"),
    Game("Smash Karts", "../Pages/Subpages/Gamellection Subpages/SmashKarts.html"),
    Game("Tetris", "../Pages/Subpages/Gamellection Subpages/Tetris.html"),
    Game("Wordle+", "../Pages/Subpages/Gamellection Subpages/Wordle+.html")
  ]

  /** What the result container shows when no game matches (line 73). */
  const NoResultsMessage: string := "rest in piss"

  /** The query of line 51, `value.toLowerCase().trim()`: lower case, with no
      white space at either end, and empty exactly when the typed text is
      white space only. */
  function NormalizeQuery(value: string): (q: string)
    ensures IsLowerCase(q) && IsTrimmed(q)
    ensures q == [] <==> forall i :: 0 <= i < |value| ==> IsWhiteSpace(value[i])
  {
    var lower := ToLowerCase(value);
    LowerIsLower(value);
    var q := Trim(lower);
    forall i | 0 <= i < |q| ensures !('A' <= q[i] <= 'Z') {
      assert q[i] in lower;
    }
    q
  }

  /** The filter test of line 61. */
  predicate IsMatch(game: Game, query: string)
  {
    Includes(ToLowerCase(game.name), query)
  }

  /** `games.filter(game => game.name.toLowerCase().includes(query))`
      (lines 60-62): exactly the games of the table that match, no others. */
  function Matches(games: seq<Game>, query: string): (r: seq<Game>)
    ensures |r| <= |games|
    ensures forall g :: g in r <==> g in games && IsMatch(g, query)
  {
    if games == [] then []
    else (if IsMatch(games[0], query) then [games[0]] else []) + Matches(games[1..], query)
  }

  /** The list item of one game (line 68); the name and the URL go in as
      they are, without HTML escaping. */
  function ListItem(game: Game): string
  {
    "<li><a href=\"" + game.url + "\">" + game.name + "</a></li>"
  }

  /** `matches.map(ListItem).join('')` (lines 67-69). */
  function ListHtml(matches: seq<Game>): string
  {
    if matches == [] then [] else ListItem(matches[0]) + ListHtml(matches[1..])
  }

  /** What `handleSearch` (lines 50-75) assigns to the result container's
      `innerHTML` for the typed text `value`, searching the table `games`. */
  function Search(games: seq<Game>, value: string): string
  {
    var query := NormalizeQuery(value);
    if query == [] then ""
    else
      var matches := Matches(games, query);
      if |matches| > 0 then "<ul>" + ListHtml(matches) + "</ul>" else NoResultsMessage
  }

  /** `handleSearch` over the site's own table. */
  function HandleSearch(value: string): string
  {
    Search(Games, value)
  }

  // ---------------------------------------------------------------------------
  // What the search promises

  /** The matches keep the order of the table: filtering a table made of two
      parts gives the matches of the first part, then those of the second. */
  lemma {:induction false} MatchesAppend(a: seq<Game>, b: seq<Game>, query: string)
    ensures Matches(a + b, query) == Matches(a, query) + Matches(b, query)
  {
    if a != [] {
      assert (a + b)[1..] == a[1..] + b;
      MatchesAppend(a[1..], b, query);
    } else {
      assert a + b == b;
    }
  }

  /** The list renders each match by its item, in match order. */
  lemma {:induction false} ListHtmlAppend(a: seq<Game>, b: seq<Game>)
    ensures ListHtml(a + b) == ListHtml(a) + ListHtml(b)
  {
    if a != [] {
      assert (a + b)[1..] == a[1..] + b;
      ListHtmlAppend(a[1..], b);
    } else {
      assert a + b == b;
    }
  }

  /** A longer query matches no game that a query it contains does not:
      the matches of `q2` are among the matches of `q1`. */
  lemma LongerQueryNarrows(games: seq<Game>, q1: string, q2: string)
    requires Includes(q2, q1)
    ensures forall g :: g in Matches(games, q2) ==> g in Matches(games, q1)
  {
    forall g | g in Matches(games, q2) ensures g in Matches(games, q1) {
      IncludesTransitive(q1, q2, ToLowerCase(g.name));
    }
  }

  /** Every game matches the empty string; `Search` never asks, since it
      clears the output first. */
  lemma EmptyQueryMatchesAll(games: seq<Game>)
    ensures Matches(games, "") == games
  {
    if games != [] {
      assert AgreeFrom(ToLowerCase(games[0].name), "", 0, 0);
      EmptyQueryMatchesAll(games[1..]);
    }
  }

  /** The three outcomes of `handleSearch`, each exactly when its condition
      holds: an empty container for a blank query, the no-results message
      when nothing matches, and otherwise a `<ul>` of the list items. */
  lemma SearchOutcomes(games: seq<Game>, value: string)
    ensures var query := NormalizeQuery(value);
      && (Search(games, value) == "" <==> forall i :: 0 <= i < |value| ==> IsWhiteSpace(value[i]))
      && (Search(games, value) == NoResultsMessage <==> query != [] && Matches(games, query) == [])
      && (Search(games, value) == "<ul>" + ListHtml(Matches(games, query)) + "</ul>" <==>
            query != [] && Matches(games, query) != [])
  {
    var query := NormalizeQuery(value);
    var matches := Matches(games, query);
    ListIsNeitherBlankNorMessage(ListHtml(matches));
    assert NoResultsMessage != "";
    if query == [] {
      assert Search(games, value) == "";
    } else if matches == [] {
      assert Search(games, value) == NoResultsMessage;
    } else {
      assert Search(games, value) == "<ul>" + ListHtml(matches) + "</ul>";
    }
  }

  /** A rendered list is neither the empty string nor the no-results message. */
  lemma ListIsNeitherBlankNorMessage(items: string)
    ensures "<ul>" + items + "</ul>" != ""
    ensures "<ul>" + items + "</ul>" != NoResultsMessage
  {
    var list := "<ul>" + items + "</ul>";
    assert list[0] == '<';
    assert NoResultsMessage[0] == 'r';
  }

  /** A normalised query is its own normal form. */
  lemma NormalizeIdempotent(value: string)
    ensures NormalizeQuery(NormalizeQuery(value)) == NormalizeQuery(value)
  {
    var q := NormalizeQuery(value);
    assert ToLowerCase(q) == q;
    TrimIdempotent(q);
  }

  /** `value.toLowerCase().trim()` is `value.trim().toLowerCase()`. */
  lemma NormalizeTrimsFirst(value: string)
    ensures NormalizeQuery(value) == ToLowerCase(Trim(value))
  {
    TrimLowerCommute(value);
  }

  /** Lower-casing the typed text first changes nothing. */
  lemma NormalizeLowered(value: string)
    ensures NormalizeQuery(ToLowerCase(value)) == NormalizeQuery(value)
  {
    LowerIsLower(value);
  }

  /** Trimming the typed text first changes nothing. */
  lemma NormalizeTrimmed(value: string)
    ensures NormalizeQuery(Trim(value)) == NormalizeQuery(value)
  {
    var t := Trim(value);
    TrimLowerCommute(value);
    TrimLowerCommute(t);
    TrimIdempotent(t);
  }

  /** Two typed texts with the same normal form give the same output. */
  lemma SameQuerySameOutput(games: seq<Game>, v1: string, v2: string)
    requires NormalizeQuery(v1) == NormalizeQuery(v2)
    ensures Search(games, v1) == Search(games, v2)
  {
  }

  /** The output depends on the typed text only through its normalised
      form: normalising, lower-casing or trimming it first changes nothing. */
  lemma NormalizationInvariance(games: seq<Game>, value: string)
    ensures Search(games, NormalizeQuery(value)) == Search(games, value)
    ensures Search(games, ToLowerCase(value)) == Search(games, value)
    ensures Search(games, Trim(value)) == Search(games, value)
  {
    NormalizeIdempotent(value);
    SameQuerySameOutput(games, NormalizeQuery(value), value);
    NormalizeLowered(value);
    SameQuerySameOutput(games, ToLowerCase(value), value);
    NormalizeTrimmed(value);
    SameQuerySameOutput(games, Trim(value), value);
  }

  /** White space typed before or after the query changes nothing. */
  lemma PaddingIgnored(games: seq<Game>, w1: string, value: string, w2: string)
    requires forall i :: 0 <= i < |w1| ==> IsWhiteSpace(w1[i])
    requires forall i :: 0 <= i < |w2| ==> IsWhiteSpace(w2[i])
    ensures Search(games, w1 + value + w2) == Search(games, value)
  {
    var l1, l, l2 := ToLowerCase(w1), ToLowerCase(value), ToLowerCase(w2);
    assert ToLowerCase(w1 + value + w2) == l1 + l + l2;
    TrimPadded(l1, l, l2);
    SameQuerySameOutput(games, w1 + value + w2, value);
  }

  lemma CapitalsLowered()
    ensures ToLowerCase("SLOPE") == "slope"
  {
  }

  lemma PaddedQuerySplits()
    ensures "  SLOPE " == "  " + "SLOPE" + " "
    ensures forall i :: 0 <= i < |"  "| ==> IsWhiteSpace("  "[i])
    ensures forall i :: 0 <= i < |" "| ==> IsWhiteSpace(" "[i])
  {
  }

  /** "  SLOPE " and "slope" give the same output, whatever the table. */
  lemma PaddedCapitalsIgnored(games: seq<Game>)
    ensures Search(games, "  SLOPE ") == Search(games, "slope")
  {
    PaddedQuerySplits();
    PaddingIgnored(games, "  ", "SLOPE", " ");
    CapitalsLowered();
    NormalizationInvariance(games, "SLOPE");
  }

  /** The table holds the site's 37 games, from "3 Slices" to "Wordle+". */
  lemma GamesTable()
    ensures |Games| == 37
    ensures Games[0].name == "3 Slices" && Games[36].name == "Wordle+"
  {
  }

  lemma SlopeEntry()
    ensures Games[33] == Game("Slope", "../Pages/Subpages/Gamellection Subpages/Slope.html")
  {
  }

  lemma SlopeMatchesItself()
    ensures IsMatch(Game("Slope", "../Pages/Subpages/Gamellection Subpages/Slope.html"), "slope")
  {
    assert ToLowerCase("Slope") == "slope";
    assert AgreeFrom("slope", "slope", 0, 0);
  }

  /** A query holding a lower-case letter that the name holds in neither
      case (`upper` is its capital) matches no game of that name. */
  lemma LetterMissing(name: string, query: string, k: nat, upper: char)
    requires k < |query| && 'A' <= upper <= 'Z' && query[k] as int == upper as int + 32
    requires forall i :: 0 <= i < |name| ==> name[i] != query[k] && name[i] != upper
    ensures !Includes(ToLowerCase(name), query)
  {
    var lower := ToLowerCase(name);
    IncludesAt(lower, query);
    forall i | 0 <= i <= |lower| - |query| ensures !OccursAt(lower, query, i) {
      assert lower[i..i + |query|][k] == lower[i + k];
    }
  }

  /** A query holding two lower-case letters in a row (with capitals
      `upper0` and `upper1`) that the name never holds in a row, in any mix
      of cases, matches no game of that name. */
  lemma PairMissing(name: string, query: string, k: nat, upper0: char, upper1: char)
    requires k + 1 < |query| && 'A' <= upper0 <= 'Z' && 'A' <= upper1 <= 'Z'
    requires query[k] as int == upper0 as int + 32 && query[k + 1] as int == upper1 as int + 32
    requires forall i :: 0 <= i < |name| - 1 ==>
      !((name[i] == query[k] || name[i] == upper0) && (name[i + 1] == query[k + 1] || name[i + 1] == upper1))
    ensures !Includes(ToLowerCase(name), query)
  {
    var lower := ToLowerCase(name);
    IncludesAt(lower, query);
    forall i | 0 <= i <= |lower| - |query| ensures !OccursAt(lower, query, i) {
      assert lower[i..i + |query|][k] == lower[i + k];
      assert lower[i..i + |query|][k + 1] == lower[i + k + 1];
    }
  }

  /** Titles of lines 6-10 with no 'p' in either case. */
  lemma TitlesWithoutP1()
    ensures !Includes(ToLowerCase("3 Slices"), "slope")
    ensures !Includes(ToLowerCase("3 Slices 2"), "slope")
    ensures !Includes(ToLowerCase("2048"), "slope")
    ensures !Includes(ToLowerCase("Achievement Unlocked"), "slope")
    ensures !Includes(ToLowerCase("Antbuster"), "slope")
  {
    LetterMissing("3 Slices", "slope", 3, 'P');
    LetterMissing("3 Slices 2", "slope", 3, 'P');
    LetterMissing("2048", "slope", 3, 'P');
    LetterMissing("Achievement Unlocked", "slope", 3, 'P');
    LetterMissing("Antbuster", "slope", 3, 'P');
  }

  /** "Awesome Planes" and "Big FLAPPY Tower VS Tiny Square" hold every letter of "slope", but never an 's' followed by an 'l'. */
  lemma TitlesWithoutSl()
    ensures !Includes(ToLowerCase("Awesome Planes"), "slope")
    ensures !Includes(ToLowerCase("Big FLAPPY Tower VS Tiny Square"), "slope")
  {
    PairMissing("Awesome Planes", "slope", 0, 'S', 'L');
    PairMissing("Big FLAPPY Tower VS Tiny Square", "slope", 0, 'S', 'L');
  }

  /** Titles of lines 12-13 and 15-17 with no 'p' in either case. */
  lemma TitlesWithoutP2()
    ensures !Includes(ToLowerCase("Awesome Tanks"), "slope")
    ensures !Includes(ToLowerCase("Awesome Tanks 2"), "slope")
    ensures !Includes(ToLowerCase("Big ICE Tower Tiny Square"), "slope")
    ensures !Includes(ToLowerCase("Big NEON Tower VS Tiny Square"), "slope")
    ensures !Includes(ToLowerCase("Big Tower Tiny Square"), "slope")
  {
    LetterMissing("Awesome Tanks", "slope", 3, 'P');
    LetterMissing("Awesome Tanks 2", "slope", 3, 'P');
    LetterMissing("Big ICE Tower Tiny Square", "slope", 3, 'P');
    LetterMissing("Big NEON Tower VS Tiny Square", "slope", 3, 'P');
    LetterMissing("Big Tower Tiny Square", "slope", 3, 'P');
  }

  /** Titles of lines 18-23 with no 'p' in either case. */
  lemma TitlesWithoutP3()
    ensures !Includes(ToLowerCase("Big Tower Tiny Square 2"), "slope")
    ensures !Includes(ToLowerCase("Bloons Tower Defense"), "slope")
    ensures !Includes(ToLowerCase("Bloons Tower Defense 2"), "slope")
    ensures !Includes(ToLowerCase("Bloons Tower Defense 3"), "slope")
    ensures !Includes(ToLowerCase("Connect 4"), "slope")
    ensures !Includes(ToLowerCase("Cookie Clicker"), "slope")
  {
    LetterMissing("Big Tower Tiny Square 2", "slope", 3, 'P');
    LetterMissing("Bloons Tower Defense", "slope", 3, 'P');
    LetterMissing("Bloons Tower Defense 2", "slope", 3, 'P');
    LetterMissing("Bloons Tower Defense 3", "slope", 3, 'P');
    LetterMissing("Connect 4", "slope", 3, 'P');
    LetterMissing("Cookie Clicker", "slope", 3, 'P');
  }

  /** Titles of lines 24-28: "Escape Road" has no 'l', the others no 'p'. */
  lemma TitlesWithoutP4()
    ensures !Includes(ToLowerCase("Escape Road"), "slope")
    ensures !Includes(ToLowerCase("Five Nights at Winston's"), "slope")
    ensures !Includes(ToLowerCase("Google Snake"), "slope")
    ensures !Includes(ToLowerCase("Hong Kong 97"), "slope")
    ensures !Includes(ToLowerCase("Learn to Fly"), "slope")
  {
    LetterMissing("Escape Road", "slope", 1, 'L');
    LetterMissing("Five Nights at Winston's", "slope", 3, 'P');
    LetterMissing("Google Snake", "slope", 3, 'P');
    LetterMissing("Hong Kong 97", "slope", 3, 'P');
    LetterMissing("Learn to Fly", "slope", 3, 'P');
  }

  /** Titles of lines 29-33 with no 'p' in either case. */
  lemma TitlesWithoutP5()
    ensures !Includes(ToLowerCase("Learn to Fly 2"), "slope")
    ensures !Includes(ToLowerCase("Learn to Fly 3"), "slope")
    ensures !Includes(ToLowerCase("Minecraft Classic"), "slope")
    ensures !Includes(ToLowerCase("Moo Moo"), "slope")
    ensures !Includes(ToLowerCase("n-gon"), "slope")
  {
    LetterMissing("Learn to Fly 2", "slope", 3, 'P');
    LetterMissing("Learn to Fly 3", "slope", 3, 'P');
    LetterMissing("Minecraft Classic", "slope", 3, 'P');
    LetterMissing("Moo Moo", "slope", 3, 'P');
    LetterMissing("n-gon", "slope", 3, 'P');
  }

  /** Titles of lines 34-38: "New Super Mario Bros." has no 'l', "Pac-Man" no 's', the others no 'p'. */
  lemma TitlesWithoutP6()
    ensures !Includes(ToLowerCase("New Super Mario Bros."), "slope")
    ensures !Includes(ToLowerCase("Pac-Man"), "slope")
    ensures !Includes(ToLowerCase("Quick, Draw!"), "slope")
    ensures !Includes(ToLowerCase("Run 3"), "slope")
    ensures !Includes(ToLowerCase("Shell Shockers"), "slope")
  {
    LetterMissing("New Super Mario Bros.", "slope", 1, 'L');
    LetterMissing("Pac-Man", "slope", 0, 'S');
    LetterMissing("Quick, Draw!", "slope", 3, 'P');
    LetterMissing("Run 3", "slope", 3, 'P');
    LetterMissing("Shell Shockers", "slope", 3, 'P');
  }

  /** The titles after Slope, lines 40-42, with no 'p' in either case. */
  lemma TitlesWithoutP7()
    ensures !Includes(ToLowerCase("Smash Karts"), "slope")
    ensures !Includes(ToLowerCase("Tetris"), "slope")
    ensures !Includes(ToLowerCase("Wordle+"), "slope")
  {
    LetterMissing("Smash Karts", "slope", 3, 'P');
    LetterMissing("Tetris", "slope", 3, 'P');
    LetterMissing("Wordle+", "slope", 3, 'P');
  }

  /** No game of lines 6-17 matches "slope". */
  lemma Part1MissesSlope()
    ensures Matches(GamesPart1, "slope") == []
  {
    TitlesWithoutP1();
    TitlesWithoutSl();
    TitlesWithoutP2();
  }

  /** No game of lines 18-28 matches "slope". */
  lemma Part2MissesSlope()
    ensures Matches(GamesPart2, "slope") == []
  {
    TitlesWithoutP3();
    TitlesWithoutP4();
  }

  /** No game of lines 29-38 matches "slope". */
  lemma Part3MissesSlope()
    ensures Matches(GamesPart3, "slope") == []
  {
    TitlesWithoutP5();
    TitlesWithoutP6();
  }

  /** Of lines 39-42, only Slope matches "slope". */
  lemma Part4FindsSlope()
    ensures Matches(GamesPart4, "slope") == [GamesPart4[0]]
  {
    SlopeMatchesItself();
    TitlesWithoutP7();
    var rest := GamesPart4[1..];
    assert GamesPart4 == [GamesPart4[0]] + rest;
    MatchesAppend([GamesPart4[0]], rest, "slope");
    assert Matches(rest, "slope") == [];
  }

  /** "slope" is already in normal form. */
  lemma SlopeQueryNormal()
    ensures NormalizeQuery("slope") == "slope"
  {
    assert ToLowerCase("slope") == "slope";
    TrimIdempotent("slope");
  }

  /** A single match renders as its own list item. */
  lemma ListHtmlSingle(game: Game)
    ensures ListHtml([game]) == ListItem(game)
  {
    assert ListHtml([game]) == ListItem(game) + ListHtml([]);
  }

  /** The games matching "slope" are the Slope entry and nothing else. */
  lemma SlopeOnlyMatch()
    ensures Matches(Games, "slope") == [Games[33]]
  {
    Part1MissesSlope();
    Part2MissesSlope();
    Part3MissesSlope();
    Part4FindsSlope();
    MatchesAppend(GamesPart1 + GamesPart2 + GamesPart3, GamesPart4, "slope");
    MatchesAppend(GamesPart1 + GamesPart2, GamesPart3, "slope");
    MatchesAppend(GamesPart1, GamesPart2, "slope");
  }

  /** Searching for "slope" lists the Slope entry and nothing else. */
  lemma SlopeOnly()
    ensures HandleSearch("slope") == "<ul>" + ListItem(Games[33]) + "</ul>"
  {
    SlopeOnlyMatch();
    SlopeQueryNormal();
    ListHtmlSingle(Games[33]);
  }
}
