/** Disk space of a TeX Live sync (`estimate_peak`, `capacity_allows` and the loop that fills
    the staging directory in deploy/texlive-mirror/texlive_mirror.py).  Sizes are bytes of
    file contents; nobody else writes to the disk meanwhile. */
module Capacity {
  import opened Wrappers

  datatype Metrics = Metrics(managed: nat, free: int, osFree: int, inodesFree: int)

  datatype Limits = Limits(syncPeak: nat, hard: nat, osFreeMin: nat, headroom: nat, tempMilli: nat)

  const MIB := 1024 * 1024
  const GIB := 1024 * MIB

  /** What `Config.load` guarantees: limits in whole GiB, above two smaller ones of the
      collection, headroom in whole MiB, and at least one full extra copy in percent. */
  predicate ValidLimits(l: Limits) {
    && 3 * GIB <= l.syncPeak < l.hard && l.syncPeak % GIB == 0 && l.hard % GIB == 0
    && GIB <= l.osFreeMin && l.osFreeMin % GIB == 0
    && MIB <= l.headroom && l.headroom % MIB == 0
    && 1000 <= l.tempMilli && l.tempMilli % 10 == 0
  }

  /** `present`: the staging directory has the file already, as it has the verified metadata;
      `indexed`: a file of the latest snapshot has this checksum and size; `intact`: it still
      hashes to that checksum. */
  datatype Item = Item(size: nat, present: bool, indexed: bool, intact: bool) {
    predicate IsFetched() { !present && !(indexed && intact) }
    predicate IsDamaged() { !present && indexed && !intact }
  }

  /** Bytes of the files no snapshot has yet. */
  function NewBytes(items: seq<Item>): nat {
    if items == [] then 0 else
      var n := |items| - 1;
      NewBytes(items[..n]) + if items[n].indexed then 0 else items[n].size
  }

  /** Bytes of indexed files that have to be downloaded all the same. */
  function DamagedBytes(items: seq<Item>): nat {
    if items == [] then 0 else
      var n := |items| - 1;
      DamagedBytes(items[..n]) + if items[n].IsDamaged() then items[n].size else 0
  }

  /** Bytes the loop over the files downloads. */
  function FetchedBytes(items: seq<Item>): nat {
    if items == [] then 0 else
      var n := |items| - 1;
      FetchedBytes(items[..n]) + if items[n].IsFetched() then items[n].size else 0
  }

  lemma {:induction false} PrefixBytes(items: seq<Item>, n: nat)
    requires n <= |items|
    ensures FetchedBytes(items[..n]) <= FetchedBytes(items)
    decreases |items|
  {
    if n < |items| {
      PrefixBytes(items[..|items| - 1], n);
      assert items[..|items| - 1][..n] == items[..n];
    } else {
      assert items[..n] == items;
    }
  }

  /** Only new and damaged files are downloaded, and of these only files not yet present. */
  lemma {:induction false} FetchedAtMost(items: seq<Item>)
    ensures FetchedBytes(items) <= NewBytes(items) + DamagedBytes(items)
    ensures (forall i :: 0 <= i < |items| ==> !items[i].present) ==>
              FetchedBytes(items) == NewBytes(items) + DamagedBytes(items)
    decreases |items|
  {
    if items != [] { FetchedAtMost(items[..|items| - 1]); }
  }

  function Temporary(l: Limits, bytes: nat): nat {
    (bytes * l.tempMilli + 999) / 1000
  }

  /** The spare room is at least as large as everything to be downloaded. */
  lemma TemporaryCovers(l: Limits, bytes: nat)
    requires 1000 <= l.tempMilli
    ensures bytes <= Temporary(l, bytes)
  {
    assert bytes * 1000 <= bytes * l.tempMilli;
  }

  /** The peak `estimate_peak` arrives at. */
  function Peak(l: Limits, m: Metrics, items: seq<Item>): nat {
    m.managed + NewBytes(items) + Temporary(l, NewBytes(items)) + l.headroom
  }

  method EstimatePeak(l: Limits, m: Metrics, items: seq<Item>) returns (peak: nat, newBytes: nat)
    ensures newBytes == NewBytes(items) && peak == Peak(l, m, items)
  {
    newBytes := 0;
    for i := 0 to |items|
      invariant newBytes == NewBytes(items[..i])
    {
      assert items[..i + 1][..i] == items[..i];
      if !items[i].indexed { newBytes := newBytes + items[i].size; }
    }
    assert items[..|items|] == items;
    peak := m.managed + newBytes + Temporary(l, newBytes) + l.headroom;
  }

  predicate CapacityAllows(l: Limits, m: Metrics, peak: nat, files: nat) {
    && peak <= l.syncPeak
    && m.free - (peak - m.managed) >= l.osFreeMin
    && m.osFree >= l.osFreeMin
    && m.inodesFree > files * 2 + 100
  }

  /** The disk with so many more managed bytes. */
  function Filled(m: Metrics, bytes: nat): Metrics {
    m.(managed := m.managed + bytes, free := m.free - bytes)
  }

  predicate WithinLimits(l: Limits, m: Metrics) {
    m.managed <= l.syncPeak < l.hard && m.free >= l.osFreeMin
  }

  /** The loop over the files: present ones are skipped, indexed intact ones become links, the
      others are downloaded. `trace` is the disk after each file. */
  method FillStage(m: Metrics, items: seq<Item>) returns (disk: Metrics, ghost trace: seq<Metrics>)
    ensures disk == Filled(m, FetchedBytes(items))
    ensures |trace| == |items| + 1 && trace[|items|] == disk
    ensures forall i :: 0 <= i <= |items| ==> trace[i] == Filled(m, FetchedBytes(items[..i]))
  {
    disk := m;
    trace := [m];
    for i := 0 to |items|
      invariant |trace| == i + 1 && disk == Filled(m, FetchedBytes(items[..i]))
      invariant forall k :: 0 <= k <= i ==> trace[k] == Filled(m, FetchedBytes(items[..k]))
    {
      var item := items[i];
      assert items[..i + 1][..i] == items[..i] && items[..i + 1][i] == item;
      if !item.present && !(item.indexed && item.intact) {
        disk := disk.(managed := disk.managed + item.size, free := disk.free - item.size);
      }
      trace := trace + [disk];
    }
    assert items[..|items|] == items;
  }

  /** An accepted estimate leaves room for every new file twice and for the headroom. */
  lemma AcceptedEstimateLeavesRoom(l: Limits, m: Metrics, items: seq<Item>, files: nat)
    requires ValidLimits(l) && CapacityAllows(l, m, Peak(l, m, items), files)
    ensures m.managed + 2 * NewBytes(items) + l.headroom <= l.syncPeak
    ensures m.free >= l.osFreeMin + 2 * NewBytes(items) + l.headroom
  {
    TemporaryCovers(l, NewBytes(items));
  }

  /** When an estimate is accepted, without rounding: the managed bytes, the new ones, their
      temporary share in thousandths and the headroom fit below the peak and above the free
      minimum, and for every file there are more than two inodes and a hundred spare ones. */
  lemma AcceptedExactlyWhen(l: Limits, m: Metrics, items: seq<Item>, files: nat)
    ensures var news := NewBytes(items);
            CapacityAllows(l, m, Peak(l, m, items), files) <==>
            && 1000 * (m.managed + news + l.headroom) + news * l.tempMilli <= 1000 * l.syncPeak
            && 1000 * (m.free - news - l.headroom) - news * l.tempMilli >= 1000 * l.osFreeMin
            && l.osFreeMin <= m.osFree && 2 * files + 100 < m.inodesFree
  {
  }

  /** The disk holds everything the loop downloads. */
  predicate Fits(l: Limits, m: Metrics, items: seq<Item>) {
    && m.managed + FetchedBytes(items) <= l.syncPeak
    && m.free - FetchedBytes(items) >= l.osFreeMin
  }

  lemma LimitsHold(l: Limits, m: Metrics, items: seq<Item>, i: nat)
    requires ValidLimits(l) && i <= |items| && Fits(l, m, items)
    ensures WithinLimits(l, Filled(m, FetchedBytes(items[..i])))
  {
    PrefixBytes(items, i);
  }

  /** After an accepted estimate the limits hold after every file exactly when the downloaded
      ones fit. Among these are the damaged indexed ones, which the estimate does not count. */
  method Fill(l: Limits, m: Metrics, items: seq<Item>, aliases: nat)
    returns (result: Option<Metrics>, ghost trace: seq<Metrics>)
    requires ValidLimits(l)
    ensures result == None <==> !CapacityAllows(l, m, Peak(l, m, items), |items| + aliases)
    ensures result.Some? ==> result.value == Filled(m, FetchedBytes(items))
    ensures result.Some? ==> |trace| == |items| + 1 && trace[|items|] == result.value
    ensures result.Some? ==>
              forall i :: 0 <= i <= |items| ==> trace[i] == Filled(m, FetchedBytes(items[..i]))
    ensures result.Some? ==>
              ((forall i :: 0 <= i <= |items| ==> WithinLimits(l, trace[i])) <==> Fits(l, m, items))
  {
    var peak, _ := EstimatePeak(l, m, items);
    if !CapacityAllows(l, m, peak, |items| + aliases) { return None, []; }
    var disk;
    disk, trace := FillStage(m, items);
    if Fits(l, m, items) {
      forall i | 0 <= i <= |items| ensures WithinLimits(l, trace[i]) { LimitsHold(l, m, items, i); }
    } else {
      assert !WithinLimits(l, trace[|items|]);
    }
    result := Some(disk);
  }

  /** Damaged files that fit into the spare room and the headroom do no harm. */
  lemma SpareRoomTakesDamage(l: Limits, m: Metrics, items: seq<Item>, files: nat)
    requires CapacityAllows(l, m, Peak(l, m, items), files)
    requires DamagedBytes(items) <= Temporary(l, NewBytes(items)) + l.headroom
    ensures Fits(l, m, items)
  {
    FetchedAtMost(items);
  }

  lemma {:induction false} NoDamage(items: seq<Item>)
    requires forall i :: 0 <= i < |items| && items[i].indexed ==> items[i].intact
    ensures DamagedBytes(items) == 0
    decreases |items|
  {
    if items != [] { NoDamage(items[..|items| - 1]); }
  }

  /** With intact indexed sources every accepted sync stays within the limits. */
  lemma IntactSources(l: Limits, m: Metrics, items: seq<Item>, files: nat)
    requires CapacityAllows(l, m, Peak(l, m, items), files)
    requires forall i :: 0 <= i < |items| && items[i].indexed ==> items[i].intact
    ensures Fits(l, m, items)
  {
    NoDamage(items);
    SpareRoomTakesDamage(l, m, items, files);
  }

  /** So does one whose damaged files are together no larger than its new ones. */
  lemma DamageNoLargerThanNews(l: Limits, m: Metrics, items: seq<Item>, files: nat)
    requires ValidLimits(l) && CapacityAllows(l, m, Peak(l, m, items), files)
    requires DamagedBytes(items) <= NewBytes(items) + l.headroom
    ensures Fits(l, m, items)
  {
    TemporaryCovers(l, NewBytes(items));
    SpareRoomTakesDamage(l, m, items, files);
  }

  /** Otherwise the limits can be exceeded: with the default configuration and 10 GiB in use,
      a sync is accepted that downloads one damaged file of 5.5 GiB again and ends above the
      hard limit. */
  lemma DamagedSourcesExceedLimits() returns (l: Limits, m: Metrics, items: seq<Item>)
    ensures l == Limits(14 * GIB, 15 * GIB, 3 * GIB, 256 * MIB, 1150) && ValidLimits(l)
    ensures CapacityAllows(l, m, Peak(l, m, items), |items|)
    ensures Filled(m, FetchedBytes(items)).managed > l.hard
  {
    l := Limits(14 * GIB, 15 * GIB, 3 * GIB, 256 * MIB, 1150);
    m := Metrics(10 * GIB, 40 * GIB, 40 * GIB, 1_000_000);
    items := [Item(5 * GIB + 512 * MIB, false, true, false)];
    assert items[..0] == [];
    assert NewBytes(items) == 0;
    assert Temporary(l, 0) == 0 by { assert 0 * l.tempMilli == 0; }
  }
}
