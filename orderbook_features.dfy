/**
 * Order-book imbalance of one snapshot: the volumes at the best `depth`
 * levels of each side, combined as (bid - ask) / (bid + ask), and 0 when the
 * two sides hold no volume at all.
 */
module OrderbookFeatures {
  import opened Common

  /** One `[price, volume]` row of a side of the book, best level first. */
  datatype Level = Level(price: real, volume: real)

  /** The snapshot dictionary; a side whose key is absent is `None`. */
  datatype Snapshot = Snapshot(bids: Option<seq<Level>>, asks: Option<seq<Level>>)

  /** The default of the `depth` argument. */
  const DefaultDepth: int := 5

  function Volumes(levels: seq<Level>): (v: seq<real>)
    ensures |v| == |levels|
    ensures forall i :: 0 <= i < |levels| ==> v[i] == levels[i].volume
  {
    seq(|levels|, i requires 0 <= i < |levels| => levels[i].volume)
  }

  /** `snapshot.get(side, [])[:depth]`: a missing side is empty, and a
      negative depth drops that many levels from the end. */
  function TopLevels(side: Option<seq<Level>>, depth: int): (top: seq<Level>)
    ensures side.None? ==> top == []
    ensures side.Some? ==> |top| == SliceBound(depth, |side.value|)
    ensures side.Some? ==> top == side.value[..|top|]
  {
    PySlice(side.GetOr([]), None, Some(depth))
  }

  ghost predicate NonNegativeVolumes(side: Option<seq<Level>>)
  {
    side.Some? ==> forall i :: 0 <= i < |side.value| ==> 0.0 <= side.value[i].volume
  }

  /** Summed volume of the kept levels of one side: 0 for a missing side,
      and never negative when no level has a negative volume. */
  function SideVolume(side: Option<seq<Level>>, depth: int): (v: real)
    ensures side.None? ==> v == 0.0
    ensures NonNegativeVolumes(side) ==> 0.0 <= v
  {
    var vols := Volumes(TopLevels(side, depth));
    SumNonNegative(vols);
    Sum(vols)
  }

  function OrderbookImbalance(snapshot: Snapshot, depth: int): (r: real)
    ensures var bid := SideVolume(snapshot.bids, depth);
            var ask := SideVolume(snapshot.asks, depth);
            && (bid + ask == 0.0 ==> r == 0.0)
            && (bid + ask != 0.0 ==> r * (bid + ask) == bid - ask)
    ensures NonNegativeVolumes(snapshot.bids) && NonNegativeVolumes(snapshot.asks) ==>
            var bid := SideVolume(snapshot.bids, depth);
            var ask := SideVolume(snapshot.asks, depth);
            && -1.0 <= r <= 1.0
            && (0.0 < r <==> ask < bid)
            && (r < 0.0 <==> bid < ask)
            && (r == 0.0 <==> bid == ask)
  {
    var bid := SideVolume(snapshot.bids, depth);
    var ask := SideVolume(snapshot.asks, depth);
    var total := bid + ask;
    BoundedRatio(bid, ask);
    if total == 0.0 then 0.0 else (bid - ask) / total
  }

  lemma BoundedRatio(bid: real, ask: real)
    ensures 0.0 <= bid && 0.0 <= ask && bid + ask != 0.0 ==>
            var r := (bid - ask) / (bid + ask);
            && -1.0 <= r <= 1.0
            && (0.0 < r <==> ask < bid)
            && (r < 0.0 <==> bid < ask)
  {
    if !(0.0 <= bid && 0.0 <= ask && bid + ask != 0.0) {
      return;
    }
    var total := bid + ask;
    var r := (bid - ask) / total;
    assert 0.0 < total;
    assert (1.0 - r) * total == 2.0 * ask;
    assert (r + 1.0) * total == 2.0 * bid;
  }

  /** Swapping the two sides of the book negates the imbalance. */
  lemma ImbalanceSwapSides(snapshot: Snapshot, depth: int)
    ensures OrderbookImbalance(Snapshot(snapshot.asks, snapshot.bids), depth)
         == -OrderbookImbalance(snapshot, depth)
  {
    var bid := SideVolume(snapshot.bids, depth);
    var ask := SideVolume(snapshot.asks, depth);
    var total := bid + ask;
    if total != 0.0 {
      var r := (bid - ask) / total;
      assert r * total == bid - ask;
      assert (-r) * total == ask - bid;
      assert ask + bid == total;
      assert (ask - bid) / total == -r;
    }
  }

  lemma {:induction false} VolumesPrefix(levels: seq<Level>, k: nat)
    requires k <= |levels|
    ensures Volumes(levels[..k]) == Volumes(levels)[..k]
  {
  }

  /** Prices never enter the result: two snapshots whose sides carry the same
      volumes, level by level, have the same imbalance. */
  lemma ImbalanceIgnoresPrices(s: Snapshot, t: Snapshot, depth: int)
    requires s.bids.None? <==> t.bids.None?
    requires s.asks.None? <==> t.asks.None?
    requires Volumes(s.bids.GetOr([])) == Volumes(t.bids.GetOr([]))
    requires Volumes(s.asks.GetOr([])) == Volumes(t.asks.GetOr([]))
    ensures OrderbookImbalance(s, depth) == OrderbookImbalance(t, depth)
  {
    SameVolumesSameSide(s.bids, t.bids, depth);
    SameVolumesSameSide(s.asks, t.asks, depth);
  }

  lemma SameVolumesSameSide(x: Option<seq<Level>>, y: Option<seq<Level>>, depth: int)
    requires x.None? <==> y.None?
    requires Volumes(x.GetOr([])) == Volumes(y.GetOr([]))
    ensures SideVolume(x, depth) == SideVolume(y, depth)
  {
    if x.Some? {
      var k := |TopLevels(x, depth)|;
      assert |x.value| == |Volumes(x.value)| == |y.value|;
      VolumesPrefix(x.value, k);
      VolumesPrefix(y.value, k);
    }
  }

  /** Levels below the first `depth` never enter the result. */
  lemma ImbalanceIgnoresDeeperLevels(s: Snapshot, t: Snapshot, depth: int)
    requires 0 <= depth
    requires s.bids.Some? && t.bids.Some? && s.asks.Some? && t.asks.Some?
    requires |s.bids.value| >= depth && |t.bids.value| >= depth
    requires |s.asks.value| >= depth && |t.asks.value| >= depth
    requires s.bids.value[..depth] == t.bids.value[..depth]
    requires s.asks.value[..depth] == t.asks.value[..depth]
    ensures OrderbookImbalance(s, depth) == OrderbookImbalance(t, depth)
  {
    assert TopLevels(s.bids, depth) == TopLevels(t.bids, depth);
    assert TopLevels(s.asks, depth) == TopLevels(t.asks, depth);
  }

  /** One bid level of volume 5 against one ask level of volume 3, at the
      default depth: (5 - 3) / 8. */
  lemma ImbalanceExample()
    ensures OrderbookImbalance(
              Snapshot(Some([Level(100.0, 5.0)]), Some([Level(101.0, 3.0)])), DefaultDepth) == 0.25
  {
    var s := Snapshot(Some([Level(100.0, 5.0)]), Some([Level(101.0, 3.0)]));
    assert TopLevels(s.bids, DefaultDepth) == [Level(100.0, 5.0)];
    assert TopLevels(s.asks, DefaultDepth) == [Level(101.0, 3.0)];
    assert Volumes([Level(100.0, 5.0)]) == [5.0];
    assert Volumes([Level(101.0, 3.0)]) == [3.0];
    assert Sum([5.0]) == Sum([]) + 5.0;
    assert Sum([3.0]) == Sum([]) + 3.0;
  }
}
