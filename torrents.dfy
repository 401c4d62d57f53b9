/** The torrent record as the cleanup script reads it from the client, the
    run's policy configuration, the tag parsing shared by every mode and the
    per-torrent predicates the modes are built from. */
module Torrents {
  import opened Text

  /** One entry of the client's snapshot. `tags` is the raw comma-joined field
      and `category` the raw category ("" when the torrent has none). */
  datatype Torrent = Torrent(
    hash: string,
    name: string,
    category: string,
    tags: string,
    state: string,
    totalSize: nat,
    addedOn: int)

  /** The cleanup mode chosen for a run. */
  datatype Mode = Autobrr | Aged | Dedupe

  /** The policy values that stay constant for a run. */
  datatype Config = Config(
    excludedTags: seq<string>,
    nameExclusions: seq<string>,
    crossSeedTag: string,
    daysThreshold: nat,
    sizeThresholdGB: nat)

  /** The values the script is shipped with. */
  const SourceConfig := Config(["movies", "tv"], ["nsw", "ebook"], "cross-seed", 15, 5)

  const SecondsPerDay := 86400
  const BytesPerGB := 1024 * 1024 * 1024

  function AgeThresholdSec(cfg: Config): int {
    cfg.daysThreshold * SecondsPerDay
  }

  function SizeThresholdBytes(cfg: Config): int {
    cfg.sizeThresholdGB * BytesPerGB
  }

  /** Every torrent of the snapshot has its own hash. */
  ghost predicate UniqueHashes(ts: seq<Torrent>) {
    forall i, j :: 0 <= i < j < |ts| ==> ts[i].hash != ts[j].hash
  }

  // ---------------------------------------------------------------------
  // Tags
  // ---------------------------------------------------------------------

  /** A tag as parsing leaves it: trimmed, lower-case, without a comma. */
  predicate IsCleanTag(tag: string) {
    IsStripped(tag) && IsLowered(tag) && ',' !in tag
  }

  lemma CleanComponent(p: string)
    requires ',' !in p
    ensures IsCleanTag(Lower(Strip(p)))
  {
    var q := Strip(p);
    StripKeepsAbsent(p, ',');
    LowerKeepsStripped(q);
    LowerIsLowered(q);
    LowerKeepsAbsent(q, ',');
  }

  /** The tag list of a torrent: an empty field gives no tags; otherwise the
      field is cut at every comma and each component, in order, is trimmed and
      lower-cased (components that end up empty are kept). ParseTagsComponents
      and ParseTagsClean state the components and their form. */
  function ParseTags(field: string): (tags: seq<string>)
    ensures field == "" ==> tags == []
    ensures field != "" ==> |tags| == Count(field, ',') + 1
  {
    if field == "" then [] else CleanAll(Split(field, ','))
  }

  /** Each component trimmed and lower-cased, in order. */
  function CleanAll(parts: seq<string>): (tags: seq<string>)
    ensures |tags| == |parts|
    decreases |parts|
  {
    if parts == [] then [] else CleanAll(parts[..|parts| - 1]) + [Lower(Strip(parts[|parts| - 1]))]
  }

  lemma {:induction false} CleanAllIndex(parts: seq<string>)
    ensures forall i :: 0 <= i < |parts| ==> CleanAll(parts)[i] == Lower(Strip(parts[i]))
    decreases |parts|
  {
    if parts != [] {
      var init := parts[..|parts| - 1];
      CleanAllIndex(init);
      forall i | 0 <= i < |init| ensures CleanAll(parts)[i] == Lower(Strip(parts[i])) {
        assert init[i] == parts[i];
      }
    }
  }

  /** Tag `i` is comma-separated component `i`, trimmed and lower-cased. */
  lemma ParseTagsComponents(field: string)
    requires field != ""
    ensures forall i :: 0 <= i < |ParseTags(field)| ==>
              ParseTags(field)[i] == Lower(Strip(Split(field, ',')[i]))
  {
    CleanAllIndex(Split(field, ','));
  }

  /** Every parsed tag is trimmed, lower-case and free of commas. */
  lemma ParseTagsClean(field: string)
    ensures forall i :: 0 <= i < |ParseTags(field)| ==> IsCleanTag(ParseTags(field)[i])
  {
    if field != "" {
      var parts := Split(field, ',');
      ParseTagsComponents(field);
      forall i | 0 <= i < |parts| ensures IsCleanTag(ParseTags(field)[i]) {
        CleanComponent(parts[i]);
      }
    }
  }

  /** Parsing is idempotent: re-joining parsed tags with commas and parsing
      again gives the same tags. (A field of only whitespace parses to one
      empty tag, whose re-joined field would be empty and parse to none.) */
  lemma ParseTagsIdempotent(field: string)
    requires ParseTags(field) != [""]
    ensures ParseTags(Join(ParseTags(field), ",")) == ParseTags(field)
  {
    var tags := ParseTags(field);
    ParseTagsClean(field);
    if field != "" {
      JoinEmpty(tags, ',');
      SplitJoin(tags, ',');
      var again := ParseTags(Join(tags, ","));
      ParseTagsComponents(Join(tags, ","));
      forall i | 0 <= i < |tags| ensures again[i] == tags[i] {
        StripOfStripped(tags[i]);
        LowerOfLowered(tags[i]);
      }
    }
  }

  /** The two components of a comma-joined field, each trimmed and lower-cased. */
  lemma ParseTwoTags(a: string, b: string)
    requires ',' !in a && ',' !in b
    ensures ParseTags(a + "," + b) == [Lower(Strip(a)), Lower(Strip(b))]
  {
    var field := a + "," + b;
    SplitPieceThen(a, ',', b);
    SplitPiece(b, ',');
    var parts := Split(field, ',');
    assert parts == [a, b];
    var tags := ParseTags(field);
    ParseTagsComponents(field);
    assert |tags| == 2;
    assert tags[0] == Lower(Strip(a));
    assert tags[1] == Lower(Strip(b));
  }

  lemma StripMovies()
    ensures Lower(Strip(" Movies")) == "movies"
  {
    assert TrimStart(" Movies") == "Movies" by {
      assert " Movies"[1..] == "Movies";
      TrimStartOfStripped("Movies");
    }
    assert TrimEnd("Movies") == "Movies" by {
      TrimEndOfStripped("Movies");
    }
  }

  lemma StripTv()
    ensures Lower(Strip(" TV ")) == "tv"
  {
    assert TrimStart(" TV ") == "TV " by {
      assert " TV "[1..] == "TV ";
      TrimStartOfStripped("TV ");
    }
    assert TrimEnd("TV ") == "TV" by {
      assert "TV "[..2] == "TV";
      TrimEndOfStripped("TV");
    }
    assert Strip(" TV ") == "TV";
    assert Lower("TV") == "tv" by {
      assert LowerChar('T') == 't' && LowerChar('V') == 'v';
    }
  }

  lemma ParseSpacedExample(spaced: string)
    requires spaced == " Movies" + "," + " TV "
    ensures ParseTags(spaced) == ["movies", "tv"]
  {
    ParseTwoTags(" Movies", " TV ");
    StripMovies();
    StripTv();
  }

  /** A field of blanks alone passes the `if torrent.tags` guard and yields
      one empty tag, the one case ParseTagsIdempotent excludes. */
  lemma BlankTagsField(field: string)
    requires field != "" && AllSpace(field)
    ensures ParseTags(field) == [""]
  {
    assert ',' !in field by {
      forall i | 0 <= i < |field| ensures field[i] != ',' {
        assert IsSpace(field[i]);
      }
    }
    CountAbsent(field, ',');
    var parts := Split(field, ',');
    assert |parts| == 1 && Join(parts, ",") == parts[0] == field;
    ParseTagsComponents(field);
    StripBlanks(field);
  }

  /** Already clean tags survive a round of parsing unchanged. */
  lemma ParseCleanPair(a: string, b: string)
    requires IsCleanTag(a) && IsCleanTag(b)
    ensures ParseTags(a + "," + b) == [a, b]
  {
    ParseTwoTags(a, b);
    StripOfStripped(a);
    LowerOfLowered(a);
    StripOfStripped(b);
    LowerOfLowered(b);
  }

  /** Surrounding whitespace and letter case do not matter:
      " Movies, TV " and "movies,tv" give the same tags. */
  lemma ParseTagsExample(spaced: string, plain: string)
    requires spaced == " Movies, TV "
    requires plain == "movies,tv"
    ensures ParseTags(spaced) == ParseTags(plain) == ["movies", "tv"]
  {
    ParseSpacedExample(spaced);
    assert plain == "movies" + "," + "tv";
    ParseCleanPair("movies", "tv");
  }

  // ---------------------------------------------------------------------
  // Per-torrent predicates
  // ---------------------------------------------------------------------

  /** The state string begins with "stalled", case-sensitively. */
  predicate IsStalled(t: Torrent) {
    StartsWith(t.state, "stalled")
  }

  predicate HasCategory(t: Torrent, category: string) {
    Lower(t.category) == category
  }

  /** Some parsed tag is one of the excluded tags. */
  predicate HasExcludedTag(tags: seq<string>, cfg: Config) {
    exists i :: 0 <= i < |tags| && tags[i] in cfg.excludedTags
  }

  /** Some excluded substring occurs in the lower-cased name. */
  predicate NameHasExclusion(nameLower: string, cfg: Config) {
    exists i :: 0 <= i < |cfg.nameExclusions| && Contains(nameLower, cfg.nameExclusions[i])
  }

  predicate HasCrossSeedTag(tags: seq<string>, cfg: Config) {
    cfg.crossSeedTag in tags
  }

  /** At least the configured number of days have passed since the torrent was added. */
  predicate IsOld(t: Torrent, now: int, cfg: Config) {
    now - t.addedOn >= AgeThresholdSec(cfg)
  }

  /** The torrent is no larger than the configured size. */
  predicate IsSmall(t: Torrent, cfg: Config) {
    t.totalSize <= SizeThresholdBytes(cfg)
  }

  /** Once old, a torrent stays old as the clock moves on. */
  lemma IsOldMonotone(t: Torrent, now: int, later: int, cfg: Config)
    requires now <= later
    requires IsOld(t, now, cfg)
    ensures IsOld(t, later, cfg)
  {
  }

  /** Both thresholds are inclusive under the shipped configuration. */
  lemma ThresholdsInclusive(t: Torrent, now: int)
    ensures IsOld(t, now, SourceConfig) <==> now - t.addedOn >= 15 * 86400
    ensures IsSmall(t, SourceConfig) <==> t.totalSize <= 5 * 1024 * 1024 * 1024
    ensures now - t.addedOn == 1296000 ==> IsOld(t, now, SourceConfig)
    ensures t.totalSize == 5368709120 ==> IsSmall(t, SourceConfig)
  {
  }

  /** The shipped exclusions, spelled out. */
  lemma SourceExclusions(tags: seq<string>, nameLower: string)
    ensures HasExcludedTag(tags, SourceConfig) <==> "movies" in tags || "tv" in tags
    ensures NameHasExclusion(nameLower, SourceConfig) <==>
              Contains(nameLower, "nsw") || Contains(nameLower, "ebook")
  {
    if "movies" in tags {
      var i :| 0 <= i < |tags| && tags[i] == "movies";
      assert tags[i] in SourceConfig.excludedTags;
    }
    if "tv" in tags {
      var i :| 0 <= i < |tags| && tags[i] == "tv";
      assert tags[i] in SourceConfig.excludedTags;
    }
    if Contains(nameLower, "nsw") {
      assert Contains(nameLower, SourceConfig.nameExclusions[0]);
    }
    if Contains(nameLower, "ebook") {
      assert Contains(nameLower, SourceConfig.nameExclusions[1]);
    }
  }
}
