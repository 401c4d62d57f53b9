/** One run of the script over a snapshot: dedupe mode runs the dedupe
    loops, aged and autobrr mode run the sweep. The snapshot, the clock,
    the mode, the dry-run flag and the configuration are inputs; the deletes
    the client would receive are the `deleted` trace. */
module Cleanup {
  import opened Torrents
  import opened Sweep
  import opened Dedupe

  /** `deleted` lists the hashes passed to the delete call, in order, and
      `count` is the total the run reports: candidates (dry or not) in dedupe
      mode, real deletes otherwise. */
  method Run(ts: seq<Torrent>, mode: Mode, dryRun: bool, now: int, cfg: Config)
    returns (deleted: seq<string>, count: nat)
    ensures dryRun ==> deleted == []
    ensures !dryRun ==> count == |deleted|
    ensures mode != Dedupe && dryRun ==> count == 0
    ensures mode == Dedupe ==> count == |DedupeCandidates(ts, cfg)|
    ensures mode == Dedupe ==> deleted == if dryRun then [] else HashesOf(DedupeCandidates(ts, cfg))
    ensures mode != Dedupe ==> deleted == if dryRun then [] else ToDelete(ts, mode, now, cfg)
    ensures mode == Dedupe ==> forall h :: h in deleted ==>
              exists i :: 0 <= i < |ts| && ts[i].hash == h && IsMovie(ts[i]) && !Protected(ts[i], cfg)
    ensures mode != Dedupe ==> forall h :: h in deleted <==>
              !dryRun && exists i :: 0 <= i < |ts| && ts[i].hash == h && Classify(ts[i], mode, now, cfg).remove
  {
    if mode == Dedupe {
      var candidates, totalRemoved;
      candidates, deleted, totalRemoved := DedupeSnapshot(ts, cfg, dryRun);
      count := totalRemoved;
      forall h | h in deleted
        ensures exists i :: 0 <= i < |ts| && ts[i].hash == h && IsMovie(ts[i]) && !Protected(ts[i], cfg)
      {
        DedupeDeletesOnly(ts, cfg, h);
      }
    } else {
      var decisions, reportNoMatch;
      decisions, deleted, count, reportNoMatch := SweepSnapshot(ts, mode, dryRun, now, cfg);
      forall h
        ensures h in deleted <==>
                !dryRun && exists i :: 0 <= i < |ts| && ts[i].hash == h && Classify(ts[i], mode, now, cfg).remove
      {
        ToDeleteExactly(ts, mode, now, cfg, h);
      }
    }
  }
}
