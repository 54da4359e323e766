/**
 * The access-point registry that `scan_wifi` fills from captured frames
 * (hackwifi.py:192-206). A frame arrives here already decoded: a beacon
 * carries the SSID, the transmitter address (BSSID) and the channel byte; any
 * other frame is ignored.
 */
module Registry {
  import opened Wrappers

  /** The channel is `ord` of a one-byte information element. */
  type Channel = c: int | 0 <= c < 256

  datatype AccessPoint = AccessPoint(ssid: string, bssid: string, channel: Channel)

  datatype Frame = Beacon(ssid: string, bssid: string, channel: Channel) | NonBeacon

  /** Some entry of `aps` has this BSSID (the `any(...)` at hackwifi.py:201). */
  predicate Known(aps: seq<AccessPoint>, bssid: string) {
    exists i :: 0 <= i < |aps| && aps[i].bssid == bssid
  }

  /** At most one entry per BSSID. */
  ghost predicate UniqueBssids(aps: seq<AccessPoint>) {
    forall i, j :: 0 <= i < j < |aps| ==> aps[i].bssid != aps[j].bssid
  }

  /** The registry entry a beacon would create. */
  function EntryOf(f: Frame): AccessPoint
    requires f.Beacon?
  {
    AccessPoint(f.ssid, f.bssid, f.channel)
  }

  /** One call of the packet handler. */
  function Observe(aps: seq<AccessPoint>, f: Frame): (r: seq<AccessPoint>)
    ensures UniqueBssids(aps) ==> UniqueBssids(r)
    ensures |aps| <= |r| <= |aps| + 1 && r[..|aps|] == aps
  {
    match f
    case NonBeacon => aps
    case Beacon(_, bssid, _) =>
      if Known(aps, bssid) then aps else aps + [EntryOf(f)]
  }

  /** The registry after the handler has seen `frames` in order, starting from `aps`. */
  function Ingest(aps: seq<AccessPoint>, frames: seq<Frame>): (r: seq<AccessPoint>)
    ensures |aps| <= |r| <= |aps| + |frames|
  {
    if frames == [] then aps
    else Observe(Ingest(aps, frames[..|frames| - 1]), frames[|frames| - 1])
  }

  /** The registry of one scan: it starts empty (hackwifi.py:192). */
  function ScanResult(frames: seq<Frame>): seq<AccessPoint> {
    Ingest([], frames)
  }

  /** The first entry with this BSSID. */
  function Lookup(aps: seq<AccessPoint>, bssid: string): Option<AccessPoint> {
    if aps == [] then None
    else if aps[0].bssid == bssid then Some(aps[0])
    else Lookup(aps[1..], bssid)
  }

  /** Reference definition: the entry made from the first beacon with this BSSID. */
  function FirstBeacon(frames: seq<Frame>, bssid: string): Option<AccessPoint> {
    if frames == [] then None
    else if frames[0].Beacon? && frames[0].bssid == bssid then Some(EntryOf(frames[0]))
    else FirstBeacon(frames[1..], bssid)
  }

  function Bssids(aps: seq<AccessPoint>): set<string> {
    set i | 0 <= i < |aps| :: aps[i].bssid
  }

  function BeaconBssids(frames: seq<Frame>): set<string> {
    set i | 0 <= i < |frames| && frames[i].Beacon? :: frames[i].bssid
  }

  /** Feeding `fs` then `gs` is feeding `fs + gs`. */
  lemma {:induction false} IngestConcat(aps: seq<AccessPoint>, fs: seq<Frame>, gs: seq<Frame>)
    ensures Ingest(aps, fs + gs) == Ingest(Ingest(aps, fs), gs)
    decreases |gs|
  {
    if gs == [] {
      assert fs + gs == fs;
    } else {
      var n := |gs| - 1;
      assert (fs + gs)[..|fs + gs| - 1] == fs + gs[..n];
      assert (fs + gs)[|fs + gs| - 1] == gs[n];
      IngestConcat(aps, fs, gs[..n]);
    }
  }

  /** Any sequence of frames keeps at most one entry per BSSID. */
  lemma {:induction false} IngestKeepsUnique(aps: seq<AccessPoint>, frames: seq<Frame>)
    requires UniqueBssids(aps)
    ensures UniqueBssids(Ingest(aps, frames))
    decreases |frames|
  {
    if frames != [] {
      IngestKeepsUnique(aps, frames[..|frames| - 1]);
    }
  }

  /** Entries are only ever appended: earlier entries never change (nothing is lost). */
  lemma {:induction false} IngestExtends(aps: seq<AccessPoint>, frames: seq<Frame>)
    ensures |aps| <= |Ingest(aps, frames)| && Ingest(aps, frames)[..|aps|] == aps
    decreases |frames|
  {
    if frames != [] {
      var before := Ingest(aps, frames[..|frames| - 1]);
      IngestExtends(aps, frames[..|frames| - 1]);
      assert Ingest(aps, frames)[..|before|] == before;
      assert Ingest(aps, frames)[..|aps|] == Ingest(aps, frames)[..|before|][..|aps|];
    }
  }

  lemma BeaconBssidsSnoc(frames: seq<Frame>)
    requires frames != []
    ensures var f := frames[|frames| - 1];
      BeaconBssids(frames) == BeaconBssids(frames[..|frames| - 1]) + (if f.Beacon? then {f.bssid} else {})
  {
    var n := |frames| - 1;
    var f := frames[n];
    forall b | b in BeaconBssids(frames)
      ensures b in BeaconBssids(frames[..n]) + (if f.Beacon? then {f.bssid} else {})
    {
      var i :| 0 <= i < |frames| && frames[i].Beacon? && frames[i].bssid == b;
      if i < n { assert frames[..n][i] == frames[i]; }
    }
    forall b | b in BeaconBssids(frames[..n]) ensures b in BeaconBssids(frames) {
      var i :| 0 <= i < n && frames[..n][i].Beacon? && frames[..n][i].bssid == b;
      assert frames[i] == frames[..n][i];
    }
  }

  lemma BssidsSnoc(aps: seq<AccessPoint>, e: AccessPoint)
    ensures Bssids(aps + [e]) == Bssids(aps) + {e.bssid}
  {
    var after := aps + [e];
    forall b | b in Bssids(after) ensures b in Bssids(aps) + {e.bssid} {
      var i :| 0 <= i < |after| && after[i].bssid == b;
      if i < |aps| { assert after[i] == aps[i]; }
    }
    forall b | b in Bssids(aps) ensures b in Bssids(after) {
      var i :| 0 <= i < |aps| && aps[i].bssid == b;
      assert after[i] == aps[i];
    }
    assert after[|aps|].bssid == e.bssid;
  }

  /** The registry holds exactly the BSSIDs it started with plus those of the beacons seen. */
  lemma {:induction false} IngestBssids(aps: seq<AccessPoint>, frames: seq<Frame>)
    ensures Bssids(Ingest(aps, frames)) == Bssids(aps) + BeaconBssids(frames)
    decreases |frames|
  {
    if frames != [] {
      var n := |frames| - 1;
      var before := Ingest(aps, frames[..n]);
      IngestBssids(aps, frames[..n]);
      BeaconBssidsSnoc(frames);
      var f := frames[n];
      if f.Beacon? {
        if Known(before, f.bssid) {
          var i :| 0 <= i < |before| && before[i].bssid == f.bssid;
          assert f.bssid in Bssids(before);
        } else {
          BssidsSnoc(before, EntryOf(f));
        }
      }
    }
  }

  /** With unique BSSIDs, the number of entries is the number of distinct BSSIDs. */
  lemma {:induction false} UniqueCount(aps: seq<AccessPoint>)
    requires UniqueBssids(aps)
    ensures |Bssids(aps)| == |aps|
    decreases |aps|
  {
    if aps != [] {
      var n := |aps| - 1;
      var init := aps[..n];
      assert UniqueBssids(init) by {
        forall i, j | 0 <= i < j < |init| ensures init[i].bssid != init[j].bssid {
          assert init[i] == aps[i] && init[j] == aps[j];
        }
      }
      UniqueCount(init);
      assert Bssids(aps) == Bssids(init) + {aps[n].bssid} by {
        forall b | b in Bssids(aps) ensures b in Bssids(init) + {aps[n].bssid} {
          var i :| 0 <= i < |aps| && aps[i].bssid == b;
          if i < n { assert init[i] == aps[i]; }
        }
        forall b | b in Bssids(init) ensures b in Bssids(aps) {
          var i :| 0 <= i < n && init[i].bssid == b;
          assert aps[i] == init[i];
        }
      }
      assert aps[n].bssid !in Bssids(init) by {
        forall i | 0 <= i < n ensures init[i].bssid != aps[n].bssid {
          assert init[i] == aps[i];
        }
      }
    }
  }

  /**
   * After any scan the registry has exactly one entry for each distinct BSSID
   * that was beaconed, and no other entry.
   */
  lemma OneEntryPerBssid(frames: seq<Frame>)
    ensures UniqueBssids(ScanResult(frames))
    ensures Bssids(ScanResult(frames)) == BeaconBssids(frames)
    ensures |ScanResult(frames)| == |BeaconBssids(frames)|
  {
    IngestKeepsUnique([], frames);
    IngestBssids([], frames);
    UniqueCount(ScanResult(frames));
  }

  lemma {:induction false} KnownIffLookup(aps: seq<AccessPoint>, bssid: string)
    ensures Known(aps, bssid) <==> Lookup(aps, bssid).Some?
    ensures Lookup(aps, bssid).Some? ==> Lookup(aps, bssid).value.bssid == bssid
    decreases |aps|
  {
    if aps != [] && aps[0].bssid != bssid {
      KnownIffLookup(aps[1..], bssid);
      if Known(aps, bssid) {
        var i :| 0 <= i < |aps| && aps[i].bssid == bssid;
        assert aps[1..][i - 1] == aps[i];
      }
      if Known(aps[1..], bssid) {
        var i :| 0 <= i < |aps| - 1 && aps[1..][i].bssid == bssid;
        assert aps[i + 1] == aps[1..][i];
      }
    }
  }

  lemma {:induction false} LookupAppend(aps: seq<AccessPoint>, x: AccessPoint, bssid: string)
    ensures Lookup(aps + [x], bssid) ==
      if Lookup(aps, bssid).Some? then Lookup(aps, bssid)
      else if x.bssid == bssid then Some(x) else None
    decreases |aps|
  {
    if aps != [] {
      assert (aps + [x])[1..] == aps[1..] + [x];
      LookupAppend(aps[1..], x, bssid);
    } else {
      assert (aps + [x])[1..] == [];
    }
  }

  lemma {:induction false} FirstBeaconAppend(fs: seq<Frame>, f: Frame, bssid: string)
    ensures FirstBeacon(fs + [f], bssid) ==
      if FirstBeacon(fs, bssid).Some? then FirstBeacon(fs, bssid)
      else if f.Beacon? && f.bssid == bssid then Some(EntryOf(f)) else None
    decreases |fs|
  {
    if fs != [] {
      assert (fs + [f])[1..] == fs[1..] + [f];
      FirstBeaconAppend(fs[1..], f, bssid);
    } else {
      assert (fs + [f])[1..] == [];
    }
  }

  /**
   * First write wins: the entry registered for a BSSID is the one already
   * present, or else the one built from the first beacon carrying it; later
   * beacons with other SSIDs or channels never replace it.
   */
  lemma {:induction false} IngestFirstWriteWins(aps: seq<AccessPoint>, frames: seq<Frame>, bssid: string)
    ensures Lookup(Ingest(aps, frames), bssid) ==
      if Known(aps, bssid) then Lookup(aps, bssid) else FirstBeacon(frames, bssid)
    decreases |frames|
  {
    KnownIffLookup(aps, bssid);
    if frames == [] {
    } else {
      var n := |frames| - 1;
      var before := Ingest(aps, frames[..n]);
      var f := frames[n];
      IngestFirstWriteWins(aps, frames[..n], bssid);
      assert frames == frames[..n] + [f];
      FirstBeaconAppend(frames[..n], f, bssid);
      KnownIffLookup(before, bssid);
      if f.Beacon? && !Known(before, f.bssid) {
        LookupAppend(before, EntryOf(f), bssid);
        if f.bssid == bssid {
          assert Lookup(before, bssid).None?;
        } else {
          KnownIffLookup(before, f.bssid);
        }
      }
    }
  }

  /** For one scan: looking a BSSID up gives the entry of its first beacon, or nothing. */
  lemma ScanFirstWriteWins(frames: seq<Frame>, bssid: string)
    ensures Lookup(ScanResult(frames), bssid) == FirstBeacon(frames, bssid)
  {
    IngestFirstWriteWins([], frames, bssid);
  }

  /** Frames whose beacons are all known leave the registry as it is. */
  lemma {:induction false} IngestKnownUnchanged(aps: seq<AccessPoint>, frames: seq<Frame>)
    requires forall i :: 0 <= i < |frames| && frames[i].Beacon? ==> Known(aps, frames[i].bssid)
    ensures Ingest(aps, frames) == aps
    decreases |frames|
  {
    if frames != [] {
      IngestKnownUnchanged(aps, frames[..|frames| - 1]);
    }
  }

  /** Observing the same frames a second time changes nothing. */
  lemma IngestIdempotent(aps: seq<AccessPoint>, frames: seq<Frame>)
    ensures Ingest(aps, frames + frames) == Ingest(aps, frames)
  {
    var r := Ingest(aps, frames);
    IngestConcat(aps, frames, frames);
    IngestBssids(aps, frames);
    forall i | 0 <= i < |frames| && frames[i].Beacon? ensures Known(r, frames[i].bssid) {
      assert frames[i].bssid in BeaconBssids(frames);
      assert frames[i].bssid in Bssids(r);
    }
    IngestKnownUnchanged(r, frames);
  }

  /**
   * The duplicate-beacon case: "Home" on channel 6, then the same BSSID as
   * "Home2" on channel 11, leaves the single entry of the first beacon.
   */
  lemma DuplicateBeaconScenario()
    ensures ScanResult([Beacon("Home", "AA:BB:CC:DD:EE:01", 6), Beacon("Home2", "AA:BB:CC:DD:EE:01", 11)])
         == [AccessPoint("Home", "AA:BB:CC:DD:EE:01", 6)]
  {
    var f1 := Beacon("Home", "AA:BB:CC:DD:EE:01", 6);
    var f2 := Beacon("Home2", "AA:BB:CC:DD:EE:01", 11);
    var one := ScanResult([f1]);
    assert [f1, f2][..1] == [f1];
    assert [f1][..0] == [];
    assert one == Observe(Ingest([], []), f1);
    assert !Known([], f1.bssid);
    assert one == [EntryOf(f1)];
    assert Known(one, f2.bssid) by { assert one[0].bssid == f2.bssid; }
  }
}
