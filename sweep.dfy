/** The aged and autobrr modes: every torrent of the snapshot is judged on its
    own, the mode decides which of the two rules may fire, and a delete is
    issued for each torrent to remove unless the run is a dry run. */
module Sweep {
  import opened Text
  import opened Torrents

  const AutobrrReason := "stalled & category 'autobrr'"

  /** The aged rule's reason, rendered from the configured thresholds. */
  function AgedReason(cfg: Config): string {
    "> " + DecimalString(cfg.daysThreshold) + " days old & <= "
    + DecimalString(cfg.sizeThresholdGB) + "GB (no excluded tags)"
  }

  /** A torrent in the autobrr category whose state starts with "stalled". */
  predicate RemoveDueToAutobrr(t: Torrent) {
    IsStalled(t) && HasCategory(t, "autobrr")
  }

  /** An old, small torrent with no excluded tag and no excluded name part. */
  predicate RemoveDueToAgeSize(t: Torrent, now: int, cfg: Config) {
    && IsOld(t, now, cfg)
    && IsSmall(t, cfg)
    && !HasExcludedTag(ParseTags(t.tags), cfg)
    && !NameHasExclusion(Lower(t.name), cfg)
  }

  /** The verdict on one torrent: whether to remove it and why. */
  datatype Decision = Decision(hash: string, remove: bool, reasons: seq<string>)

  /** The reasons joined as they are reported. */
  function ReasonText(d: Decision): string {
    Join(d.reasons, " and ")
  }

  /** How the sweep judges one torrent; ClassifyRule states the verdict. */
  function Classify(t: Torrent, mode: Mode, now: int, cfg: Config): (d: Decision)
    ensures d.hash == t.hash
  {
    var reasons := (if mode == Autobrr && RemoveDueToAutobrr(t) then [AutobrrReason] else [])
                   + (if mode == Aged && RemoveDueToAgeSize(t, now, cfg) then [AgedReason(cfg)] else []);
    Decision(t.hash, reasons != [], reasons)
  }

  /** The verdicts on the snapshot, in order. */
  function Decisions(ts: seq<Torrent>, mode: Mode, now: int, cfg: Config): (ds: seq<Decision>)
    ensures |ds| == |ts|
    decreases |ts|
  {
    if ts == [] then []
    else Decisions(ts[..|ts| - 1], mode, now, cfg) + [Classify(ts[|ts| - 1], mode, now, cfg)]
  }

  /** Verdict `i` is the verdict on torrent `i`. */
  lemma {:induction false} DecisionsIndex(ts: seq<Torrent>, mode: Mode, now: int, cfg: Config)
    ensures forall i :: 0 <= i < |ts| ==> Decisions(ts, mode, now, cfg)[i] == Classify(ts[i], mode, now, cfg)
    decreases |ts|
  {
    if ts != [] {
      var init := ts[..|ts| - 1];
      DecisionsIndex(init, mode, now, cfg);
      forall i | 0 <= i < |init|
        ensures Decisions(ts, mode, now, cfg)[i] == Classify(ts[i], mode, now, cfg)
      {
        assert init[i] == ts[i];
      }
    }
  }

  lemma DecisionsStep(ts: seq<Torrent>, i: nat, mode: Mode, now: int, cfg: Config)
    requires i < |ts|
    ensures Decisions(ts[..i + 1], mode, now, cfg) ==
              Decisions(ts[..i], mode, now, cfg) + [Classify(ts[i], mode, now, cfg)]
  {
    assert ts[..i + 1][..i] == ts[..i];
  }

  /** The hashes of the verdicts that remove, in order. */
  function RemovedHashes(ds: seq<Decision>): (hs: seq<string>)
    ensures |hs| <= |ds|
    decreases |ds|
  {
    if ds == [] then []
    else
      var d := ds[|ds| - 1];
      RemovedHashes(ds[..|ds| - 1]) + (if d.remove then [d.hash] else [])
  }

  /** A hash is listed exactly when some removing verdict carries it. */
  lemma {:induction false} RemovedHashesExactly(ds: seq<Decision>, h: string)
    ensures h in RemovedHashes(ds) <==> exists i :: 0 <= i < |ds| && ds[i].hash == h && ds[i].remove
    decreases |ds|
  {
    if ds != [] {
      var init := ds[..|ds| - 1];
      RemovedHashesExactly(init, h);
      if h in RemovedHashes(init) {
        var i :| 0 <= i < |init| && init[i].hash == h && init[i].remove;
        assert ds[i] == init[i];
      }
      if exists i :: 0 <= i < |ds| && ds[i].hash == h && ds[i].remove {
        var i :| 0 <= i < |ds| && ds[i].hash == h && ds[i].remove;
        if i < |init| {
          assert init[i] == ds[i];
        }
      }
    }
  }

  /** Verdicts with pairwise different hashes list each removed hash once. */
  lemma {:induction false} RemovedHashesDistinct(ds: seq<Decision>)
    requires forall a, b :: 0 <= a < b < |ds| ==> ds[a].hash != ds[b].hash
    ensures forall a, b :: 0 <= a < b < |RemovedHashes(ds)| ==> RemovedHashes(ds)[a] != RemovedHashes(ds)[b]
    decreases |ds|
  {
    if ds != [] {
      var init := ds[..|ds| - 1];
      var d := ds[|ds| - 1];
      RemovedHashesDistinct(init);
      var hs := RemovedHashes(init);
      forall h | h in hs ensures h != d.hash {
        RemovedHashesExactly(init, h);
        var i :| 0 <= i < |init| && init[i].hash == h && init[i].remove;
        assert init[i] == ds[i];
      }
      var all := RemovedHashes(ds);
      forall a, b | 0 <= a < b < |all| ensures all[a] != all[b] {
        assert all[a] == hs[a];
        if b < |hs| {
          assert all[b] == hs[b];
        } else {
          assert hs[a] in hs;
        }
      }
    }
  }

  /** The hashes a real run deletes, in snapshot order; ToDeleteExactly
      states which they are. */
  function ToDelete(ts: seq<Torrent>, mode: Mode, now: int, cfg: Config): (hs: seq<string>)
    ensures |hs| <= |ts|
  {
    RemovedHashes(Decisions(ts, mode, now, cfg))
  }

  lemma RemovedHashesStep(ds: seq<Decision>, d: Decision)
    ensures RemovedHashes(ds + [d]) == RemovedHashes(ds) + (if d.remove then [d.hash] else [])
  {
    assert (ds + [d])[..|ds|] == ds;
  }

  /** The body of the aged/autobrr loop for one torrent: the flags, then the
      reasons appended for the rule of the selected mode. */
  method Judge(t: Torrent, mode: Mode, now: int, cfg: Config) returns (shouldRemove: bool, reasons: seq<string>)
    ensures Decision(t.hash, shouldRemove, reasons) == Classify(t, mode, now, cfg)
  {
    var tags := ParseTags(t.tags);
    var category := Lower(t.category);
    var nameLower := Lower(t.name);

    var isStalled := StartsWith(t.state, "stalled");
    var hasAutobrrCategory := category == "autobrr";
    var hasExcludedTag := HasExcludedTag(tags, cfg);
    var nameHasExclusion := NameHasExclusion(nameLower, cfg);

    var ageSeconds := now - t.addedOn;
    var isOld := ageSeconds >= AgeThresholdSec(cfg);
    var isSmall := t.totalSize <= SizeThresholdBytes(cfg);

    var removeDueToAutobrr := isStalled && hasAutobrrCategory;
    var removeDueToAgeSize := isOld && isSmall && !hasExcludedTag && !nameHasExclusion;

    shouldRemove := false;
    reasons := [];
    if mode == Autobrr && removeDueToAutobrr {
      reasons := reasons + [AutobrrReason];
      shouldRemove := true;
    }
    if mode == Aged && removeDueToAgeSize {
      reasons := reasons + [AgedReason(cfg)];
      shouldRemove := true;
    }
  }

  /** The loop body for torrent `i`: judge it, record the verdict, and issue
      the delete when it is to go and the run is real. The progress made on
      the first `i` torrents carries over to the first `i + 1`. */
  method Visit(ts: seq<Torrent>, i: nat, mode: Mode, dryRun: bool, now: int, cfg: Config,
               decisions: seq<Decision>, deleted: seq<string>, totalDeleted: nat)
    returns (decisions': seq<Decision>, deleted': seq<string>, totalDeleted': nat)
    requires i < |ts|
    requires decisions == Decisions(ts[..i], mode, now, cfg)
    requires dryRun ==> deleted == []
    requires !dryRun ==> deleted == RemovedHashes(decisions)
    requires totalDeleted == |deleted|
    ensures decisions' == Decisions(ts[..i + 1], mode, now, cfg)
    ensures dryRun ==> deleted' == []
    ensures !dryRun ==> deleted' == RemovedHashes(decisions')
    ensures totalDeleted' == |deleted'|
  {
    var t := ts[i];
    var shouldRemove, reasons := Judge(t, mode, now, cfg);
    var d := Decision(t.hash, shouldRemove, reasons);
    DecisionsStep(ts, i, mode, now, cfg);
    RemovedHashesStep(decisions, d);
    decisions', deleted', totalDeleted' := decisions + [d], deleted, totalDeleted;
    if shouldRemove && !dryRun {
      deleted' := deleted + [t.hash];
      totalDeleted' := totalDeleted + 1;
    }
  }

  /** One pass of the aged/autobrr loop over the snapshot. `decisions` is the
      per-torrent verdict (the same whether or not the run is dry), `deleted`
      the hashes passed to the client's delete call, `totalDeleted` the
      counter of real deletes, and `reportNoMatch` whether the "no matching
      torrents" notice is given. */
  method SweepSnapshot(ts: seq<Torrent>, mode: Mode, dryRun: bool, now: int, cfg: Config)
    returns (decisions: seq<Decision>, deleted: seq<string>, totalDeleted: nat, reportNoMatch: bool)
    ensures decisions == Decisions(ts, mode, now, cfg)
    ensures deleted == if dryRun then [] else ToDelete(ts, mode, now, cfg)
    ensures totalDeleted == |deleted|
    ensures reportNoMatch <==> totalDeleted == 0 && !dryRun
  {
    decisions, deleted, totalDeleted := [], [], 0;
    for i := 0 to |ts|
      invariant decisions == Decisions(ts[..i], mode, now, cfg)
      invariant dryRun ==> deleted == []
      invariant !dryRun ==> deleted == RemovedHashes(decisions)
      invariant totalDeleted == |deleted|
    {
      decisions, deleted, totalDeleted := Visit(ts, i, mode, dryRun, now, cfg, decisions, deleted, totalDeleted);
    }
    assert ts[..|ts|] == ts;
    reportNoMatch := totalDeleted == 0 && !dryRun;
  }

  // ---------------------------------------------------------------------
  // Properties of the rules
  // ---------------------------------------------------------------------

  /** Only the rule of the selected mode can fire, so there is at most one
      reason, and a torrent is removed exactly when a reason was recorded. */
  lemma ClassifyRule(t: Torrent, mode: Mode, now: int, cfg: Config)
    ensures Classify(t, mode, now, cfg).remove <==> Classify(t, mode, now, cfg).reasons != []
    ensures Classify(t, mode, now, cfg).remove <==>
              (mode == Autobrr && RemoveDueToAutobrr(t)) || (mode == Aged && RemoveDueToAgeSize(t, now, cfg))
    ensures Classify(t, mode, now, cfg).remove ==>
              Classify(t, mode, now, cfg).reasons == [if mode == Autobrr then AutobrrReason else AgedReason(cfg)]
  {
  }

  /** Autobrr mode removes exactly the stalled torrents of the autobrr
      category; the state prefix is compared case-sensitively. */
  lemma AutobrrRule(t: Torrent, now: int, cfg: Config)
    ensures Classify(t, Autobrr, now, cfg).remove <==>
              StartsWith(t.state, "stalled") && Lower(t.category) == "autobrr"
  {
  }

  /** Autobrr mode looks at nothing but state and category: age, size, tags,
      name, the clock and the configuration make no difference. */
  lemma AutobrrIgnoresOthers(t: Torrent, u: Torrent, now: int, now': int, cfg: Config, cfg': Config)
    requires t.state == u.state && t.category == u.category
    ensures Classify(t, Autobrr, now, cfg).remove == Classify(u, Autobrr, now', cfg').remove
  {
  }

  /** Aged mode under the shipped configuration: at least 15 days old, at most
      5 GiB, no "movies" or "tv" tag, and neither "nsw" nor "ebook" in the
      lower-cased name. State and category play no part. */
  lemma AgedRule(t: Torrent, now: int)
    ensures Classify(t, Aged, now, SourceConfig).remove <==>
              && now - t.addedOn >= 15 * 86400
              && t.totalSize <= 5 * 1024 * 1024 * 1024
              && "movies" !in ParseTags(t.tags) && "tv" !in ParseTags(t.tags)
              && !Contains(Lower(t.name), "nsw") && !Contains(Lower(t.name), "ebook")
  {
    SourceExclusions(ParseTags(t.tags), Lower(t.name));
  }

  /** A torrent the aged rule removes now is removed at any later time. */
  lemma AgedMonotone(t: Torrent, now: int, later: int, cfg: Config)
    requires now <= later
    requires Classify(t, Aged, now, cfg).remove
    ensures Classify(t, Aged, later, cfg).remove
  {
  }

  /** An excluded tag protects a torrent from the aged rule whatever its age and size. */
  lemma ExcludedTagProtects(t: Torrent, now: int, cfg: Config, tag: string)
    requires tag in ParseTags(t.tags) && tag in cfg.excludedTags
    ensures !Classify(t, Aged, now, cfg).remove
  {
    var tags := ParseTags(t.tags);
    var i :| 0 <= i < |tags| && tags[i] == tag;
    assert tags[i] in cfg.excludedTags;
  }

  /** Each mode fires only its own rule: the sweep never removes anything in
      dedupe mode, and aged mode never removes for the autobrr reason. */
  lemma ModesAreExclusive(t: Torrent, now: int, cfg: Config)
    ensures !Classify(t, Dedupe, now, cfg).remove
    ensures Classify(t, Aged, now, cfg).reasons != [AutobrrReason]
    ensures Classify(t, Autobrr, now, cfg).reasons != [AgedReason(cfg)]
  {
    ClassifyRule(t, Aged, now, cfg);
    ClassifyRule(t, Autobrr, now, cfg);
    assert AgedReason(cfg)[0] == '>' != AutobrrReason[0];
  }

  /** The reported reason of a removed torrent is the single reason of its mode. */
  lemma ReasonTextOfRemoved(t: Torrent, mode: Mode, now: int, cfg: Config)
    requires Classify(t, mode, now, cfg).remove
    ensures ReasonText(Classify(t, mode, now, cfg)) ==
              if mode == Autobrr then AutobrrReason else AgedReason(cfg)
  {
  }

  /** With the shipped thresholds the aged reason speaks of "> 15 days", while
      the rule itself accepts exactly 15 days. */
  lemma AgedReasonShipped()
    ensures AgedReason(SourceConfig) == "> " + "15" + " days old & <= " + "5" + "GB (no excluded tags)"
  {
    ShippedDigits();
  }

  lemma ShippedDigits()
    ensures DecimalString(15) == "15" && DecimalString(5) == "5"
  {
    assert DecimalString(1) == "1";
  }

  /** The real run deletes exactly the torrents the rule of the mode selects. */
  lemma ToDeleteExactly(ts: seq<Torrent>, mode: Mode, now: int, cfg: Config, h: string)
    ensures h in ToDelete(ts, mode, now, cfg) <==>
              exists i :: 0 <= i < |ts| && ts[i].hash == h && Classify(ts[i], mode, now, cfg).remove
  {
    var ds := Decisions(ts, mode, now, cfg);
    DecisionsIndex(ts, mode, now, cfg);
    RemovedHashesExactly(ds, h);
    if h in ToDelete(ts, mode, now, cfg) {
      var i :| 0 <= i < |ds| && ds[i].hash == h && ds[i].remove;
      assert ds[i] == Classify(ts[i], mode, now, cfg);
    }
    if exists i :: 0 <= i < |ts| && ts[i].hash == h && Classify(ts[i], mode, now, cfg).remove {
      var i :| 0 <= i < |ts| && ts[i].hash == h && Classify(ts[i], mode, now, cfg).remove;
      assert ds[i] == Classify(ts[i], mode, now, cfg);
    }
  }

  /** With unique hashes no torrent is deleted twice. */
  lemma ToDeleteDistinct(ts: seq<Torrent>, mode: Mode, now: int, cfg: Config)
    requires UniqueHashes(ts)
    ensures forall a, b :: 0 <= a < b < |ToDelete(ts, mode, now, cfg)| ==>
              ToDelete(ts, mode, now, cfg)[a] != ToDelete(ts, mode, now, cfg)[b]
  {
    var ds := Decisions(ts, mode, now, cfg);
    DecisionsIndex(ts, mode, now, cfg);
    forall a, b | 0 <= a < b < |ds| ensures ds[a].hash != ds[b].hash {
      assert ds[a] == Classify(ts[a], mode, now, cfg);
      assert ds[b] == Classify(ts[b], mode, now, cfg);
    }
    RemovedHashesDistinct(ds);
  }

  /** A two-torrent snapshot deletes the first and then the second torrent,
      each if its own verdict removes it. */
  lemma ToDeletePair(a: Torrent, b: Torrent, mode: Mode, now: int, cfg: Config)
    ensures ToDelete([a, b], mode, now, cfg) ==
              (if Classify(a, mode, now, cfg).remove then [a.hash] else [])
              + (if Classify(b, mode, now, cfg).remove then [b.hash] else [])
  {
    var da, db := Classify(a, mode, now, cfg), Classify(b, mode, now, cfg);
    assert [a, b][..1] == [a];
    assert [a][..0] == [];
    assert Decisions([a], mode, now, cfg) == [da];
    assert Decisions([a, b], mode, now, cfg) == [da, db];
    RemovedHashesStep([], da);
    RemovedHashesStep([da], db);
    assert [] + [da] == [da];
    assert [da] + [db] == [da, db];
  }

  /** The autobrr scenario: of two autobrr torrents, only the stalled one goes. */
  lemma AutobrrScenario(stalled: Torrent, active: Torrent, now: int, cfg: Config)
    requires stalled.state == "stalledDL" && active.state == "uploading"
    requires stalled.category == "autobrr" && active.category == "autobrr"
    ensures ToDelete([stalled, active], Autobrr, now, cfg) == [stalled.hash]
  {
    ToDeletePair(stalled, active, Autobrr, now, cfg);
    AutobrrRule(stalled, now, cfg);
    AutobrrRule(active, now, cfg);
    LowerOfLowered("autobrr");
    assert StartsWith(stalled.state, "stalled") by {
      assert stalled.state[..7] == "stalled";
    }
    assert !StartsWith(active.state, "stalled") by {
      assert active.state[..7] != "stalled" by {
        assert active.state[0] == 'u';
      }
    }
  }
}
