/** The dedupe mode: torrents of the movies category are grouped by the part
    of their name before the first " (", each group of two or more is
    filtered of protected members, and of the survivors all but the first
    largest one become duplicates to delete. */
module Dedupe {
  import opened Text
  import opened Torrents

  const GroupSeparator := " ("

  /** The torrent belongs to the movies category (compared lower-cased). */
  predicate IsMovie(t: Torrent) {
    HasCategory(t, "movies")
  }

  /** The grouping key of a name: the part before the first " (", trimmed and
      lower-cased. */
  function BaseName(name: string): string
  {
    Lower(Strip(BeforeFirst(name, GroupSeparator)))
  }

  /** A key is trimmed and lower-case, so names differing only in case or in
      whitespace before " (" share a group. */
  lemma BaseNameClean(name: string)
    ensures IsStripped(BaseName(name)) && IsLowered(BaseName(name))
  {
    LowerKeepsStripped(Strip(BeforeFirst(name, GroupSeparator)));
  }

  /** A name without " (" is its own key, trimmed and lower-cased. */
  lemma BaseNameWithoutSeparator(name: string)
    requires !Contains(name, GroupSeparator)
    ensures BaseName(name) == Lower(Strip(name))
  {
    BeforeFirstWhole(name, GroupSeparator);
  }

  /** A title followed by " (" and anything keys as the title alone,
      trimmed and lower-cased. */
  lemma BaseNameOfTitle(title: string, rest: string)
    requires !Contains(title, GroupSeparator)
    ensures BaseName(title + GroupSeparator + rest) == Lower(Strip(title))
  {
    SeparatorAfterTitle(title, rest);
  }

  /** The first " (" of such a name is the one right after the title. */
  lemma SeparatorAfterTitle(title: string, rest: string)
    requires !Contains(title, GroupSeparator)
    ensures BeforeFirst(title + GroupSeparator + rest, GroupSeparator) == title
  {
    var name := title + GroupSeparator + rest;
    var k := |title|;
    assert name[k..k + 2] == GroupSeparator;
    ContainsMeansOccurs(title, GroupSeparator);
    forall i | 0 <= i < k ensures !OccursAt(name, GroupSeparator, i) {
      if i + 2 <= k {
        assert name[i..i + 2] == title[i..i + 2];
        assert !OccursAt(title, GroupSeparator, i);
      } else {
        assert name[i + 1] == ' ';
      }
    }
    BeforeFirstAt(name, GroupSeparator, k);
    assert name[..k] == title;
  }

  /** A title without a blank cannot contain " (". */
  lemma WithoutBlankNoSeparator(title: string)
    requires ' ' !in title
    ensures !Contains(title, GroupSeparator)
  {
    ContainsMeansOccurs(title, GroupSeparator);
    forall i ensures !OccursAt(title, GroupSeparator, i) {
      if 0 <= i && i + 2 <= |title| {
        assert title[i..i + 2][0] == title[i];
        assert title[i] in title;
      }
    }
  }

  /** Releases of one title share a group whatever follows the " (". */
  lemma SameTitleSameKey(title: string, rest1: string, rest2: string)
    requires !Contains(title, GroupSeparator)
    ensures BaseName(title + GroupSeparator + rest1) == BaseName(title + GroupSeparator + rest2)
  {
    BaseNameOfTitle(title, rest1);
    BaseNameOfTitle(title, rest2);
  }

  /** The key of a typical release name "Some.Movie (...)". */
  lemma BaseNameExample(title: string, rest: string)
    requires title == "Some.Movie"
    ensures BaseName(title + GroupSeparator + rest) == "some.movie"
  {
    WithoutBlankNoSeparator(title);
    BaseNameOfTitle(title, rest);
    StripOfStripped(title);
    LowerSomeMovie(title);
  }

  lemma LowerSomeMovie(title: string)
    requires title == "Some.Movie"
    ensures Lower(title) == "some.movie"
  {
    assert LowerChar('S') == 's' && LowerChar('M') == 'm';
  }

  // ---------------------------------------------------------------------
  // Grouping (the dict of lists filled in snapshot order)
  // ---------------------------------------------------------------------

  /** The key a movie is grouped under. */
  function MovieKey(t: Torrent): string {
    BaseName(t.name)
  }

  /** Some movie of `ts` has key `k` under `key`. */
  predicate KeyedMovie(ts: seq<Torrent>, key: Torrent -> string, k: string) {
    exists i :: 0 <= i < |ts| && IsMovie(ts[i]) && key(ts[i]) == k
  }

  lemma KeyedMovieStep(ts: seq<Torrent>, key: Torrent -> string, k: string)
    requires ts != []
    ensures KeyedMovie(ts, key, k) <==>
              KeyedMovie(ts[..|ts| - 1], key, k)
              || (IsMovie(ts[|ts| - 1]) && key(ts[|ts| - 1]) == k)
  {
    var init := ts[..|ts| - 1];
    if KeyedMovie(ts, key, k) {
      var i :| 0 <= i < |ts| && IsMovie(ts[i]) && key(ts[i]) == k;
      if i < |init| {
        assert init[i] == ts[i];
      }
    }
    if KeyedMovie(init, key, k) {
      var i :| 0 <= i < |init| && IsMovie(init[i]) && key(init[i]) == k;
      assert init[i] == ts[i];
    }
  }

  /** The keys of the groups, in the order a dict first sees them; KeysSpec
      states that each movie key is listed once and nothing else is, and
      KeysFirstSeen states the order. */
  function Keys(ts: seq<Torrent>, key: Torrent -> string): (ks: seq<string>)
    ensures |ks| <= |ts|
    decreases |ts|
  {
    if ts == [] then []
    else
      var t := ts[|ts| - 1];
      var prev := Keys(ts[..|ts| - 1], key);
      if IsMovie(t) && key(t) !in prev then prev + [key(t)] else prev
  }

  /** The keys are distinct and are exactly the keys of the movies. */
  lemma {:induction false} KeysSpec(ts: seq<Torrent>, key: Torrent -> string)
    ensures var ks := Keys(ts, key);
            (forall a, b :: 0 <= a < b < |ks| ==> ks[a] != ks[b])
            && (forall k :: k in ks <==> KeyedMovie(ts, key, k))
    decreases |ts|
  {
    if ts != [] {
      KeysSpec(ts[..|ts| - 1], key);
      forall k ensures k in Keys(ts, key) <==> KeyedMovie(ts, key, k) {
        KeyedMovieStep(ts, key, k);
      }
    }
  }

  /** Torrent `i` is the first movie of `ts` to carry its key. */
  predicate FirstAt(ts: seq<Torrent>, key: Torrent -> string, i: int) {
    0 <= i < |ts| && IsMovie(ts[i]) && !KeyedMovie(ts[..i], key, key(ts[i]))
  }

  /** A first occurrence in a prefix stays one in the whole snapshot. */
  lemma FirstAtLift(ts: seq<Torrent>, key: Torrent -> string, i: int)
    requires ts != [] && FirstAt(ts[..|ts| - 1], key, i)
    ensures FirstAt(ts, key, i) && ts[i] == ts[..|ts| - 1][i]
  {
    assert ts[..|ts| - 1][..i] == ts[..i];
  }

  /** Every key some movie carries has a first movie carrying it. */
  lemma {:induction false} FirstIndexOf(ts: seq<Torrent>, key: Torrent -> string, k: string)
    returns (i: int)
    requires KeyedMovie(ts, key, k)
    ensures FirstAt(ts, key, i) && key(ts[i]) == k
    decreases |ts|
  {
    var init := ts[..|ts| - 1];
    KeyedMovieStep(ts, key, k);
    if KeyedMovie(init, key, k) {
      i := FirstIndexOf(init, key, k);
      FirstAtLift(ts, key, i);
    } else {
      i := |ts| - 1;
    }
  }

  /** The keys come in the order their first movies appear in the snapshot,
      which is the insertion order of the dict the groups are collected in. */
  lemma {:induction false} KeysFirstSeen(ts: seq<Torrent>, key: Torrent -> string)
    ensures forall a, b :: 0 <= a < b < |Keys(ts, key)| ==>
              exists i, j :: FirstAt(ts, key, i) && FirstAt(ts, key, j) && i < j
                             && key(ts[i]) == Keys(ts, key)[a] && key(ts[j]) == Keys(ts, key)[b]
    decreases |ts|
  {
    if ts == [] {
      assert Keys(ts, key) == [];
    } else {
      var n := |ts| - 1;
      var init := ts[..n];
      var prev := Keys(init, key);
      var ks := Keys(ts, key);
      KeysFirstSeen(init, key);
      KeysSpec(init, key);
      KeysStep(ts, key);
      forall a, b | 0 <= a < b < |ks|
        ensures exists i, j :: FirstAt(ts, key, i) && FirstAt(ts, key, j) && i < j
                               && key(ts[i]) == ks[a] && key(ts[j]) == ks[b]
      {
        if b < |prev| {
          assert 0 <= a < b < |Keys(init, key)|;
          assert exists i, j :: FirstAt(init, key, i) && FirstAt(init, key, j) && i < j
                                && key(init[i]) == Keys(init, key)[a] && key(init[j]) == Keys(init, key)[b];
          var i, j :| FirstAt(init, key, i) && FirstAt(init, key, j) && i < j
                      && key(init[i]) == prev[a] && key(init[j]) == prev[b];
          FirstAtLift(ts, key, i);
          FirstAtLift(ts, key, j);
          assert ks[a] == prev[a] && ks[b] == prev[b];
        } else {
          assert ks == prev + [key(ts[n])] && b == |prev|;
          assert prev[a] in prev;
          var i := FirstIndexOf(init, key, prev[a]);
          FirstAtLift(ts, key, i);
          assert ts[..n] == init;
          assert FirstAt(ts, key, n);
          assert ks[a] == prev[a];
        }
      }
    }
  }

  /** The members of the group with key `k`, in snapshot order; GroupMembers
      states which they are. */
  function Group(ts: seq<Torrent>, key: Torrent -> string, k: string): (g: seq<Torrent>)
    ensures |g| <= |ts|
    decreases |ts|
  {
    if ts == [] then []
    else
      var t := ts[|ts| - 1];
      Group(ts[..|ts| - 1], key, k) + (if IsMovie(t) && key(t) == k then [t] else [])
  }

  /** A group holds exactly the movies of the snapshot with its key. */
  lemma {:induction false} GroupMembers(ts: seq<Torrent>, key: Torrent -> string, k: string)
    ensures forall t :: t in Group(ts, key, k) <==> t in ts && IsMovie(t) && key(t) == k
    decreases |ts|
  {
    if ts != [] {
      var init := ts[..|ts| - 1];
      GroupMembers(init, key, k);
      assert ts == init + [ts[|ts| - 1]];
    }
  }

  lemma KeysStep(ts: seq<Torrent>, key: Torrent -> string)
    requires ts != []
    ensures var t := ts[|ts| - 1]; var prev := Keys(ts[..|ts| - 1], key);
            Keys(ts, key) == if IsMovie(t) && key(t) !in prev then prev + [key(t)] else prev
  {
  }

  lemma GroupStep(ts: seq<Torrent>, key: Torrent -> string)
    requires ts != []
    ensures var t := ts[|ts| - 1];
            forall k :: Group(ts, key, k) ==
              Group(ts[..|ts| - 1], key, k) + (if IsMovie(t) && key(t) == k then [t] else [])
  {
  }

  /** Each movie lies in the group of its own key, and that key is listed. */
  lemma MovieInItsGroup(ts: seq<Torrent>, key: Torrent -> string, i: nat)
    requires i < |ts| && IsMovie(ts[i])
    ensures key(ts[i]) in Keys(ts, key)
    ensures ts[i] in Group(ts, key, key(ts[i]))
  {
    KeysSpec(ts, key);
    GroupMembers(ts, key, key(ts[i]));
  }

  // ---------------------------------------------------------------------
  // Filtering and keeper selection
  // ---------------------------------------------------------------------

  /** Protected from dedupe: the cross-seed tag, an excluded tag, or an
      excluded part in the lower-cased name. */
  predicate Protected(t: Torrent, cfg: Config) {
    var tags := ParseTags(t.tags);
    HasCrossSeedTag(tags, cfg) || HasExcludedTag(tags, cfg) || NameHasExclusion(Lower(t.name), cfg)
  }

  /** The protection test of a configuration as a predicate on torrents. The
      filtering and marking below are stated for any such predicate `prot`. */
  function ProtectedUnder(cfg: Config): Torrent -> bool {
    t => Protected(t, cfg)
  }

  /** The members of a group that are not protected, in order. */
  function Survivors(g: seq<Torrent>, prot: Torrent -> bool): (s: seq<Torrent>)
    ensures |s| <= |g|
    decreases |g|
  {
    if g == [] then []
    else
      var t := g[|g| - 1];
      Survivors(g[..|g| - 1], prot) + (if prot(t) then [] else [t])
  }

  /** The survivors are exactly the unprotected members. */
  lemma {:induction false} SurvivorsMembers(g: seq<Torrent>, prot: Torrent -> bool)
    ensures forall t :: t in Survivors(g, prot) <==> t in g && !prot(t)
    decreases |g|
  {
    if g != [] {
      var init := g[..|g| - 1];
      SurvivorsMembers(init, prot);
      assert g == init + [g[|g| - 1]];
    }
  }

  /** The index `max(..., key=total_size)` picks: a largest member, and the
      first one among equals. */
  function KeeperIndex(s: seq<Torrent>): (k: nat)
    requires |s| > 0
    ensures k < |s|
    ensures forall j :: 0 <= j < |s| ==> s[j].totalSize <= s[k].totalSize
    ensures forall j :: 0 <= j < k ==> s[j].totalSize < s[k].totalSize
    decreases |s|
  {
    if |s| == 1 then 0
    else
      var init := s[..|s| - 1];
      var k := KeeperIndex(init);
      assert forall j :: 0 <= j < |init| ==> init[j] == s[j];
      if s[|s| - 1].totalSize > s[k].totalSize then |s| - 1 else k
  }

  /** The first largest member is the only index a maximum can mean. */
  lemma KeeperIndexUnique(s: seq<Torrent>, k: nat)
    requires k < |s|
    requires forall j :: 0 <= j < |s| ==> s[j].totalSize <= s[k].totalSize
    requires forall j :: 0 <= j < k ==> s[j].totalSize < s[k].totalSize
    ensures KeeperIndex(s) == k
  {
    var m := KeeperIndex(s);
    assert s[m].totalSize <= s[k].totalSize && s[k].totalSize <= s[m].totalSize;
  }

  // ---------------------------------------------------------------------
  // Candidates
  // ---------------------------------------------------------------------

  /** A member marked for deletion and the reason given for it. */
  datatype Candidate = Candidate(torrent: Torrent, reason: string)

  function DuplicateReason(keeper: Torrent): string {
    "duplicate of " + keeper.name
  }

  /** Every member whose hash differs from the keeper's, marked as its duplicate. */
  function Duplicates(s: seq<Torrent>, keeper: Torrent): (cs: seq<Candidate>)
    ensures |cs| <= |s|
    decreases |s|
  {
    if s == [] then []
    else
      var t := s[|s| - 1];
      Duplicates(s[..|s| - 1], keeper)
      + (if t.hash == keeper.hash then [] else [Candidate(t, DuplicateReason(keeper))])
  }

  /** Exactly the members with a hash other than the keeper's are marked, each
      as a duplicate of the keeper. */
  lemma {:induction false} DuplicatesMembers(s: seq<Torrent>, keeper: Torrent)
    ensures forall c :: c in Duplicates(s, keeper) ==>
              c.torrent in s && c.torrent.hash != keeper.hash && c.reason == DuplicateReason(keeper)
    ensures forall t :: t in s && t.hash != keeper.hash ==>
              Candidate(t, DuplicateReason(keeper)) in Duplicates(s, keeper)
    decreases |s|
  {
    if s != [] {
      var init := s[..|s| - 1];
      DuplicatesMembers(init, keeper);
      assert s == init + [s[|s| - 1]];
    }
  }

  /** What one group contributes: nothing for a group of one, nothing when at
      most one member survives the filter, and otherwise the duplicates of the
      first largest survivor. */
  function GroupCandidates(g: seq<Torrent>, prot: Torrent -> bool): (cs: seq<Candidate>)
    ensures |g| <= 1 ==> cs == []
    ensures |Survivors(g, prot)| <= 1 ==> cs == []
  {
    if |g| <= 1 then []
    else
      var s := Survivors(g, prot);
      if |s| <= 1 then [] else Duplicates(s, s[KeeperIndex(s)])
  }

  /** A group only ever gives up unprotected members of its own. */
  lemma GroupCandidatesUnprotected(g: seq<Torrent>, prot: Torrent -> bool)
    ensures forall c :: c in GroupCandidates(g, prot) ==> c.torrent in g && !prot(c.torrent)
  {
    var s := Survivors(g, prot);
    SurvivorsMembers(g, prot);
    if |g| > 1 && |s| > 1 {
      DuplicatesMembers(s, s[KeeperIndex(s)]);
    }
  }

  /** The candidates of the groups with keys `ks`, in key order. */
  function CandidatesOf(ks: seq<string>, ts: seq<Torrent>, key: Torrent -> string, prot: Torrent -> bool): (cs: seq<Candidate>)
    decreases |ks|
  {
    if ks == [] then []
    else CandidatesOf(ks[..|ks| - 1], ts, key, prot) + GroupCandidates(Group(ts, key, ks[|ks| - 1]), prot)
  }

  /** Whatever the keys, only unprotected movies of the snapshot are marked. */
  lemma {:induction false} CandidatesOfUnprotected(ks: seq<string>, ts: seq<Torrent>, key: Torrent -> string, prot: Torrent -> bool)
    ensures forall c :: c in CandidatesOf(ks, ts, key, prot) ==>
              c.torrent in ts && IsMovie(c.torrent) && !prot(c.torrent)
    decreases |ks|
  {
    if ks != [] {
      CandidatesOfUnprotected(ks[..|ks| - 1], ts, key, prot);
      GroupCandidatesUnprotected(Group(ts, key, ks[|ks| - 1]), prot);
      GroupMembers(ts, key, ks[|ks| - 1]);
    }
  }

  /** All the duplicates of a snapshot: only unprotected movies from it. */
  function DedupeCandidates(ts: seq<Torrent>, cfg: Config): seq<Candidate> {
    CandidatesOf(Keys(ts, MovieKey), ts, MovieKey, ProtectedUnder(cfg))
  }

  /** Dedupe marks only unprotected movies of the snapshot: a torrent outside
      the movies category, or one with the cross-seed tag, an excluded tag or
      an excluded name part, is never marked and its hash is never deleted
      (hashes being unique). */
  lemma DedupeSpares(ts: seq<Torrent>, cfg: Config)
    ensures forall c :: c in DedupeCandidates(ts, cfg) ==>
              c.torrent in ts && IsMovie(c.torrent) && !Protected(c.torrent, cfg)
  {
    CandidatesOfUnprotected(Keys(ts, MovieKey), ts, MovieKey, ProtectedUnder(cfg));
  }

  /** The hashes of the candidates, in order. */
  function HashesOf(cs: seq<Candidate>): (hs: seq<string>)
    ensures |hs| == |cs|
    decreases |cs|
  {
    if cs == [] then [] else HashesOf(cs[..|cs| - 1]) + [cs[|cs| - 1].torrent.hash]
  }

  /** A hash is listed exactly when some candidate carries it. */
  lemma {:induction false} HashesOfMember(cs: seq<Candidate>, h: string)
    ensures h in HashesOf(cs) <==> exists c :: c in cs && c.torrent.hash == h
    decreases |cs|
  {
    if cs != [] {
      var init := cs[..|cs| - 1];
      HashesOfMember(init, h);
      assert cs == init + [cs[|cs| - 1]];
    }
  }

  /** Every hash a real dedupe run deletes is that of an unprotected movie of
      the snapshot. */
  lemma DedupeDeletesOnly(ts: seq<Torrent>, cfg: Config, h: string)
    requires h in HashesOf(DedupeCandidates(ts, cfg))
    ensures exists i :: 0 <= i < |ts| && ts[i].hash == h && IsMovie(ts[i]) && !Protected(ts[i], cfg)
  {
    var cs := DedupeCandidates(ts, cfg);
    HashesOfMember(cs, h);
    DedupeSpares(ts, cfg);
    var c :| c in cs && c.torrent.hash == h;
    var i :| 0 <= i < |ts| && ts[i] == c.torrent;
  }

  /** With unique hashes, a torrent outside the movies category or protected
      by its tags or name is never deleted by dedupe. */
  lemma DedupeKeeps(ts: seq<Torrent>, cfg: Config, i: nat)
    requires UniqueHashes(ts)
    requires i < |ts|
    requires !IsMovie(ts[i]) || Protected(ts[i], cfg)
    ensures ts[i].hash !in HashesOf(DedupeCandidates(ts, cfg))
  {
    var cs := DedupeCandidates(ts, cfg);
    HashesOfMember(cs, ts[i].hash);
    DedupeSpares(ts, cfg);
    forall c | c in cs ensures c.torrent.hash != ts[i].hash {
      var j :| 0 <= j < |ts| && ts[j] == c.torrent;
      assert j != i;
    }
  }

  lemma HashesOfAppend(cs: seq<Candidate>, c: Candidate)
    ensures HashesOf(cs + [c]) == HashesOf(cs) + [c.torrent.hash]
  {
    assert (cs + [c])[..|cs|] == cs;
  }

  lemma {:induction false} HashesOfConcat(a: seq<Candidate>, b: seq<Candidate>)
    ensures HashesOf(a + b) == HashesOf(a) + HashesOf(b)
    decreases |b|
  {
    if b != [] {
      var init := b[..|b| - 1];
      HashesOfConcat(a, init);
      assert (a + b)[..|a + b| - 1] == a + init;
      assert (a + b)[|a + b| - 1] == b[|b| - 1];
      assert HashesOf(b) == HashesOf(init) + [b[|b| - 1].torrent.hash];
    } else {
      assert a + b == a;
    }
  }

  lemma DuplicatesStep(s: seq<Torrent>, keeper: Torrent)
    requires s != []
    ensures var t := s[|s| - 1];
            Duplicates(s, keeper) == Duplicates(s[..|s| - 1], keeper)
              + (if t.hash == keeper.hash then [] else [Candidate(t, DuplicateReason(keeper))])
  {
  }

  lemma CandidatesOfNext(ks: seq<string>, n: nat, ts: seq<Torrent>, key: Torrent -> string, prot: Torrent -> bool)
    requires n < |ks|
    ensures CandidatesOf(ks[..n + 1], ts, key, prot) ==
              CandidatesOf(ks[..n], ts, key, prot) + GroupCandidates(Group(ts, key, ks[n]), prot)
  {
    assert ks[..n + 1][..n] == ks[..n];
  }

  // ---------------------------------------------------------------------
  // Eligible groups
  // ---------------------------------------------------------------------

  /** Every torrent of `r`, in order, marked with the same reason. */
  function MarkAll(r: seq<Torrent>, reason: string): (cs: seq<Candidate>)
    ensures |cs| == |r|
    ensures forall i :: 0 <= i < |r| ==> cs[i] == Candidate(r[i], reason)
  {
    seq(|r|, i requires 0 <= i < |r| => Candidate(r[i], reason))
  }

  lemma UniqueSnoc(a: seq<Torrent>, t: Torrent)
    requires UniqueHashes(a)
    requires forall u :: u in a ==> u.hash != t.hash
    ensures UniqueHashes(a + [t])
  {
    var b := a + [t];
    forall i, j | 0 <= i < j < |b| ensures b[i].hash != b[j].hash {
      assert b[i] == a[i];
      if j < |a| {
        assert b[j] == a[j];
      } else {
        assert a[i] in a;
      }
    }
  }

  /** Filtering keeps hashes unique. */
  lemma {:induction false} SurvivorsUnique(g: seq<Torrent>, prot: Torrent -> bool)
    requires UniqueHashes(g)
    ensures UniqueHashes(Survivors(g, prot))
    decreases |g|
  {
    if g != [] {
      var init := g[..|g| - 1];
      var t := g[|g| - 1];
      assert UniqueHashes(init) by {
        forall i, j | 0 <= i < j < |init| ensures init[i].hash != init[j].hash {
          assert init[i] == g[i] && init[j] == g[j];
        }
      }
      SurvivorsUnique(init, prot);
      SurvivorsMembers(init, prot);
      forall u | u in Survivors(init, prot) ensures u.hash != t.hash {
        var j :| 0 <= j < |init| && init[j] == u;
        assert g[j] == u;
      }
      if !prot(t) {
        UniqueSnoc(Survivors(init, prot), t);
      }
    }
  }

  /** Grouping keeps hashes unique. */
  lemma {:induction false} GroupUnique(ts: seq<Torrent>, key: Torrent -> string, k: string)
    requires UniqueHashes(ts)
    ensures UniqueHashes(Group(ts, key, k))
    decreases |ts|
  {
    if ts != [] {
      var init := ts[..|ts| - 1];
      var t := ts[|ts| - 1];
      assert UniqueHashes(init) by {
        forall i, j | 0 <= i < j < |init| ensures init[i].hash != init[j].hash {
          assert init[i] == ts[i] && init[j] == ts[j];
        }
      }
      GroupUnique(init, key, k);
      GroupMembers(init, key, k);
      forall u | u in Group(init, key, k) ensures u.hash != t.hash {
        var j :| 0 <= j < |init| && init[j] == u;
        assert ts[j] == u;
      }
      if IsMovie(t) && key(t) == k {
        UniqueSnoc(Group(init, key, k), t);
      }
    }
  }

  /** Against a keeper whose hash no member shares, every member is marked. */
  lemma {:induction false} DuplicatesNoMatch(s: seq<Torrent>, keeper: Torrent)
    requires forall i :: 0 <= i < |s| ==> s[i].hash != keeper.hash
    ensures Duplicates(s, keeper) == MarkAll(s, DuplicateReason(keeper))
    decreases |s|
  {
    if s != [] {
      var init := s[..|s| - 1];
      DuplicatesNoMatch(init, keeper);
      assert MarkAll(s, DuplicateReason(keeper))
          == MarkAll(init, DuplicateReason(keeper)) + [Candidate(s[|s| - 1], DuplicateReason(keeper))];
    }
  }

  /** With unique hashes, the duplicates of member `k` are all the other
      members, in order, each marked as a duplicate of member `k`. */
  lemma {:induction false} DuplicatesAllButKeeper(s: seq<Torrent>, k: nat)
    requires k < |s|
    requires UniqueHashes(s)
    ensures Duplicates(s, s[k]) == MarkAll(s[..k] + s[k + 1..], DuplicateReason(s[k]))
    decreases |s|
  {
    var init := s[..|s| - 1];
    var last := s[|s| - 1];
    var reason := DuplicateReason(s[k]);
    DuplicatesStep(s, s[k]);
    if k == |s| - 1 {
      forall i | 0 <= i < |init| ensures init[i].hash != s[k].hash {
        assert init[i] == s[i];
      }
      DuplicatesNoMatch(init, s[k]);
      assert s[..k] + s[k + 1..] == init;
    } else {
      assert UniqueHashes(init) by {
        forall i, j | 0 <= i < j < |init| ensures init[i].hash != init[j].hash {
          assert init[i] == s[i] && init[j] == s[j];
        }
      }
      assert init[k] == s[k];
      DuplicatesAllButKeeper(init, k);
      var rest := init[..k] + init[k + 1..];
      assert s[..k] + s[k + 1..] == rest + [last];
      assert MarkAll(rest + [last], reason) == MarkAll(rest, reason) + [Candidate(last, reason)];
    }
  }

  /** An eligible group with unique hashes: the first largest survivor is
      kept and exactly the other survivors, in order, are marked as its
      duplicates, so the group adds one fewer than its survivors to the count. */
  lemma GroupCandidatesEligible(g: seq<Torrent>, prot: Torrent -> bool)
    requires UniqueHashes(g)
    requires |Survivors(g, prot)| >= 2
    ensures var s := Survivors(g, prot); var k := KeeperIndex(s);
            && GroupCandidates(g, prot) == MarkAll(s[..k] + s[k + 1..], DuplicateReason(s[k]))
            && |GroupCandidates(g, prot)| == |s| - 1
  {
    var s := Survivors(g, prot);
    SurvivorsUnique(g, prot);
    DuplicatesAllButKeeper(s, KeeperIndex(s));
  }

  /** Python's `max` keeps the first of two equally large members: of sizes
      small, large, large the middle one stays and the other two go. */
  lemma TieBreak(a: Torrent, b: Torrent, c: Torrent)
    requires a.totalSize < b.totalSize && b.totalSize == c.totalSize
    requires a.hash != b.hash && b.hash != c.hash && a.hash != c.hash
    ensures KeeperIndex([a, b, c]) == 1
    ensures Duplicates([a, b, c], b) == [Candidate(a, DuplicateReason(b)), Candidate(c, DuplicateReason(b))]
  {
    KeeperIndexUnique([a, b, c], 1);
    MarkOthers(a, b, c);
  }

  lemma MarkOthers(a: Torrent, b: Torrent, c: Torrent)
    requires a.hash != b.hash && b.hash != c.hash && a.hash != c.hash
    ensures Duplicates([a, b, c], b) == [Candidate(a, DuplicateReason(b)), Candidate(c, DuplicateReason(b))]
  {
    var s := [a, b, c];
    var r := DuplicateReason(b);
    DuplicatesAllButKeeper(s, 1);
    assert s[..1] + s[2..] == [a, c];
    assert MarkAll([a, c], r) == [Candidate(a, r), Candidate(c, r)];
  }

  /** Movies that all share key `k` form one group, holding all of them in
      snapshot order. */
  lemma {:induction false} OneGroup(ts: seq<Torrent>, key: Torrent -> string, k: string)
    requires ts != []
    requires forall i :: 0 <= i < |ts| ==> IsMovie(ts[i]) && key(ts[i]) == k
    ensures Keys(ts, key) == [k]
    ensures Group(ts, key, k) == ts
    decreases |ts|
  {
    var init := ts[..|ts| - 1];
    if init != [] {
      forall i | 0 <= i < |init| ensures IsMovie(init[i]) && key(init[i]) == k {
        assert init[i] == ts[i];
      }
      OneGroup(init, key, k);
    }
    assert ts == init + [ts[|ts| - 1]];
  }

  /** When no member is protected, every member survives the filter. */
  lemma {:induction false} AllSurvive(g: seq<Torrent>, prot: Torrent -> bool)
    requires forall i :: 0 <= i < |g| ==> !prot(g[i])
    ensures Survivors(g, prot) == g
    decreases |g|
  {
    if g != [] {
      var init := g[..|g| - 1];
      forall i | 0 <= i < |init| ensures !prot(init[i]) {
        assert init[i] == g[i];
      }
      AllSurvive(init, prot);
      assert g == init + [g[|g| - 1]];
    }
  }

  /** Three unprotected releases of one movie with sizes small, large, large
      and unique hashes: the second is kept, the first and third are marked. */
  lemma TieBreakScenario(a: Torrent, b: Torrent, c: Torrent, key: Torrent -> string, prot: Torrent -> bool)
    requires IsMovie(a) && IsMovie(b) && IsMovie(c)
    requires key(a) == key(b) == key(c)
    requires !prot(a) && !prot(b) && !prot(c)
    requires a.totalSize < b.totalSize && b.totalSize == c.totalSize
    requires a.hash != b.hash && b.hash != c.hash && a.hash != c.hash
    ensures CandidatesOf(Keys([a, b, c], key), [a, b, c], key, prot)
              == [Candidate(a, DuplicateReason(b)), Candidate(c, DuplicateReason(b))]
  {
    var ts := [a, b, c];
    OneGroup(ts, key, key(a));
    AllSurvive(ts, prot);
    TieBreak(a, b, c);
    assert GroupCandidates(ts, prot) == Duplicates(ts, b);
    assert [key(a)][..0] == [];
    assert CandidatesOf([key(a)], ts, key, prot) == [] + GroupCandidates(ts, prot);
  }

  /** The same scenario for the key of line 75. */
  lemma DedupeTieBreak(a: Torrent, b: Torrent, c: Torrent, cfg: Config)
    requires IsMovie(a) && IsMovie(b) && IsMovie(c)
    requires BaseName(a.name) == BaseName(b.name) == BaseName(c.name)
    requires !Protected(a, cfg) && !Protected(b, cfg) && !Protected(c, cfg)
    requires a.totalSize < b.totalSize && b.totalSize == c.totalSize
    requires a.hash != b.hash && b.hash != c.hash && a.hash != c.hash
    ensures DedupeCandidates([a, b, c], cfg)
              == [Candidate(a, DuplicateReason(b)), Candidate(c, DuplicateReason(b))]
  {
    TieBreakScenario(a, b, c, MovieKey, ProtectedUnder(cfg));
  }

  // ---------------------------------------------------------------------
  // The dedupe loops
  // ---------------------------------------------------------------------

  /** One round of the grouping loop (lines 73-76): a movie is appended to the
      list of its key, a new key being added at the end of the key order. */
  method FileTorrent(ts: seq<Torrent>, key: Torrent -> string, i: nat,
                     order: seq<string>, groups: map<string, seq<Torrent>>)
    returns (order': seq<string>, groups': map<string, seq<Torrent>>)
    requires i < |ts|
    requires order == Keys(ts[..i], key)
    requires forall k :: k in groups <==> k in order
    requires forall k :: k in groups ==> groups[k] == Group(ts[..i], key, k)
    requires forall k :: k !in groups ==> Group(ts[..i], key, k) == []
    ensures order' == Keys(ts[..i + 1], key)
    ensures forall k :: k in groups' <==> k in order'
    ensures forall k :: k in groups' ==> groups'[k] == Group(ts[..i + 1], key, k)
    ensures forall k :: k !in groups' ==> Group(ts[..i + 1], key, k) == []
  {
    var t := ts[i];
    var next := ts[..i + 1];
    assert next[..i] == ts[..i] && next[i] == t;
    KeysStep(next, key);
    GroupStep(next, key);
    order', groups' := order, groups;
    if IsMovie(t) {
      var baseName := key(t);
      if baseName in groups {
        groups' := groups[baseName := groups[baseName] + [t]];
      } else {
        groups' := groups[baseName := [t]];
        order' := order + [baseName];
      }
    }
    forall k | k in groups' ensures groups'[k] == Group(ts[..i + 1], key, k) {
      if IsMovie(t) && k == key(t) {
        assert groups'[k] == (if k in groups then groups[k] else []) + [t];
      } else {
        assert groups'[k] == groups[k];
      }
    }
  }

  /** The grouping loop of qbit_cleanup.py lines 69-76 (the key itself is
      computed at line 75; `key` stands for that expression): a dict of lists
      filled in snapshot order, whose key order is `order`. Every key of a
      movie maps to its group and no other key is present. */
  method GroupMovies(ts: seq<Torrent>, key: Torrent -> string)
    returns (order: seq<string>, groups: map<string, seq<Torrent>>)
    ensures order == Keys(ts, key)
    ensures forall k :: k in groups <==> k in order
    ensures forall k :: k in groups ==> groups[k] == Group(ts, key, k)
    ensures forall k :: k !in groups ==> Group(ts, key, k) == []
  {
    order, groups := [], map[];
    for i := 0 to |ts|
      invariant order == Keys(ts[..i], key)
      invariant forall k :: k in groups <==> k in order
      invariant forall k :: k in groups ==> groups[k] == Group(ts[..i], key, k)
      invariant forall k :: k !in groups ==> Group(ts[..i], key, k) == []
    {
      order, groups := FileTorrent(ts, key, i, order, groups);
    }
    assert ts[..|ts|] == ts;
  }

  /** Lines 83-94: the members of one group that are not protected. */
  method FilterGroup(group: seq<Torrent>, cfg: Config) returns (filtered: seq<Torrent>)
    ensures filtered == Survivors(group, ProtectedUnder(cfg))
  {
    filtered := [];
    for j := 0 to |group|
      invariant filtered == Survivors(group[..j], ProtectedUnder(cfg))
    {
      var t := group[j];
      assert group[..j + 1][..j] == group[..j];
      var tags := ParseTags(t.tags);
      var nameLower := Lower(t.name);
      if cfg.crossSeedTag in tags {
        continue;
      }
      if HasExcludedTag(tags, cfg) {
        continue;
      }
      if NameHasExclusion(nameLower, cfg) {
        continue;
      }
      filtered := filtered + [t];
    }
    assert group[..|group|] == group;
  }

  /** The marking loop of qbit_cleanup.py lines 100-110 for one filtered
      group: every member whose hash differs from the keeper's is marked as
      its duplicate, in order, and its hash is passed to the delete call
      unless this is a dry run. */
  method MarkDuplicates(filtered: seq<Torrent>, largest: Torrent, dryRun: bool)
    returns (marked: seq<Candidate>, hashes: seq<string>)
    ensures marked == Duplicates(filtered, largest)
    ensures hashes == if dryRun then [] else HashesOf(marked)
  {
    marked, hashes := [], [];
    for j := 0 to |filtered|
      invariant marked == Duplicates(filtered[..j], largest)
      invariant hashes == if dryRun then [] else HashesOf(marked)
    {
      assert filtered[..j + 1][..j] == filtered[..j];
      DuplicatesStep(filtered[..j + 1], largest);
      var t := filtered[j];
      if t.hash == largest.hash {
        continue;
      }
      var reasonText := "duplicate of " + largest.name;
      HashesOfAppend(marked, Candidate(t, reasonText));
      marked := marked + [Candidate(t, reasonText)];
      if !dryRun {
        hashes := hashes + [t.hash];
      }
    }
    assert filtered[..|filtered|] == filtered;
  }

  /** The body of the group loop, qbit_cleanup.py lines 79-110: a group of
      one is skipped, the rest is filtered, and when two or more survive every
      survivor other than the first largest is marked. */
  method ProcessGroup(group: seq<Torrent>, cfg: Config, dryRun: bool)
    returns (marked: seq<Candidate>, hashes: seq<string>)
    ensures marked == GroupCandidates(group, ProtectedUnder(cfg))
    ensures hashes == if dryRun then [] else HashesOf(marked)
  {
    if |group| <= 1 {
      return [], [];
    }
    var filtered := FilterGroup(group, cfg);
    if |filtered| <= 1 {
      return [], [];
    }
    var largest := filtered[KeeperIndex(filtered)];
    marked, hashes := MarkDuplicates(filtered, largest, dryRun);
  }

  /** One round of the group loop: the group with key `order[n]` is processed
      and what it marks is added to the candidates, the delete trace and the
      count, carrying the progress on the first `n` groups over to `n + 1`. */
  method AddGroup(ts: seq<Torrent>, key: Torrent -> string, cfg: Config, dryRun: bool,
                  order: seq<string>, n: nat, group: seq<Torrent>,
                  candidates: seq<Candidate>, deleted: seq<string>, totalRemoved: nat)
    returns (candidates': seq<Candidate>, deleted': seq<string>, totalRemoved': nat)
    requires n < |order|
    requires group == Group(ts, key, order[n])
    requires candidates == CandidatesOf(order[..n], ts, key, ProtectedUnder(cfg))
    requires dryRun ==> deleted == []
    requires !dryRun ==> deleted == HashesOf(candidates)
    requires totalRemoved == |candidates|
    ensures candidates' == CandidatesOf(order[..n + 1], ts, key, ProtectedUnder(cfg))
    ensures dryRun ==> deleted' == []
    ensures !dryRun ==> deleted' == HashesOf(candidates')
    ensures totalRemoved' == |candidates'|
  {
    var marked, hashes := ProcessGroup(group, cfg, dryRun);
    CandidatesOfNext(order, n, ts, key, ProtectedUnder(cfg));
    HashesOfConcat(candidates, marked);
    candidates' := candidates + marked;
    deleted' := deleted + hashes;
    totalRemoved' := totalRemoved + |marked|;
  }

  /** The dedupe loops of qbit_cleanup.py lines 69-110 for the grouping key
      `key`. `candidates` are the torrents marked with their reasons, `deleted`
      the hashes passed to the client's delete call and `totalRemoved` the
      reported count, which includes dry-run candidates. */
  method DedupeBy(ts: seq<Torrent>, key: Torrent -> string, cfg: Config, dryRun: bool)
    returns (candidates: seq<Candidate>, deleted: seq<string>, totalRemoved: nat)
    ensures candidates == CandidatesOf(Keys(ts, key), ts, key, ProtectedUnder(cfg))
    ensures deleted == if dryRun then [] else HashesOf(candidates)
    ensures totalRemoved == |candidates|
  {
    var order, groups := GroupMovies(ts, key);
    candidates, deleted, totalRemoved := [], [], 0;
    for n := 0 to |order|
      invariant candidates == CandidatesOf(order[..n], ts, key, ProtectedUnder(cfg))
      invariant dryRun ==> deleted == []
      invariant !dryRun ==> deleted == HashesOf(candidates)
      invariant totalRemoved == |candidates|
    {
      candidates, deleted, totalRemoved :=
        AddGroup(ts, key, cfg, dryRun, order, n, groups[order[n]], candidates, deleted, totalRemoved);
    }
    assert order[..|order|] == order;
  }

  /** The whole dedupe mode, grouping by the key of line 75. */
  method DedupeSnapshot(ts: seq<Torrent>, cfg: Config, dryRun: bool)
    returns (candidates: seq<Candidate>, deleted: seq<string>, totalRemoved: nat)
    ensures candidates == DedupeCandidates(ts, cfg)
    ensures deleted == if dryRun then [] else HashesOf(candidates)
    ensures totalRemoved == |candidates|
  {
    candidates, deleted, totalRemoved := DedupeBy(ts, MovieKey, cfg, dryRun);
  }
}
