/** Byte ranges on devices, and how one hop through a partition or a loop device carries them. */
module ByteRanges {
  import opened Wrappers
  import opened BlockGraph
  import opened MachineInts

  /** `[start, end)`; an end of U64_MAX means to the end of the device. */
  datatype Range = Range(start: u64, end: u64) {
    ghost predicate Holds(x: int) {
      start <= x < end
    }
  }

  const WHOLE := Range(0, U64_MAX)

  predicate Overlaps(a: Range, b: Range) {
    a.start < b.end && b.start < a.end
  }

  /** Two ranges share a byte exactly when they overlap and neither is empty. An empty range
      strictly inside another one counts as overlapping although no byte is shared. */
  lemma OverlapIsSharedByte(a: Range, b: Range)
    ensures (exists x: int :: a.Holds(x) && b.Holds(x))
            <==> Overlaps(a, b) && a.start < a.end && b.start < b.end
  {
    if Overlaps(a, b) && a.start < a.end && b.start < b.end {
      var x := Max(a.start, b.start);
      assert a.Holds(x) && b.Holds(x);
    }
  }

  /** The window of the backing device that a loop device shows. */
  function LoopWindow(g: Graph, lo: Kname): Range {
    var offset := g.LoopOffset(lo);
    var limit := g.LoopSizeLimit(lo);
    Range(offset, if limit == 0 then U64_MAX else SatAdd(offset, limit))
  }

  /** A loop device shows the bytes from its offset on, up to its size limit if it has one. */
  lemma WindowHolds(g: Graph, lo: Kname, x: nat)
    requires x < U64_MAX
    ensures var offset, limit := g.LoopOffset(lo), g.LoopSizeLimit(lo);
            LoopWindow(g, lo).Holds(x) <==> offset <= x && (limit == 0 || x < offset + limit)
  {
  }

  /** The part of `range` inside the loop device's window, in the loop device's own offsets. */
  function OnLoop(range: Range, window: Range): Range {
    Range(Max(range.start, window.start) - window.start, SatSub(Min(range.end, window.end), window.start))
  }

  /** Byte y of the loop device is carried exactly when the byte it stands for, y + offset, is in the
      range on the backing device and inside the window. */
  lemma LoopHopExact(range: Range, window: Range, y: nat)
    ensures OnLoop(range, window).Holds(y) <==> range.Holds(y + window.start) && window.Holds(y + window.start)
  {
  }

  /** Where a partition lies on its disk, in bytes: `start` and `size` count sectors of 512. */
  function PartitionRange(g: Graph, p: Kname): Option<Range> {
    if g.Start(p).None? || g.Size(p).None? || g.Start(p).value * 512 > U64_MAX then None
    else
      var start := g.Start(p).value * 512;
      var bytes := if g.Size(p).value * 512 > U64_MAX then U64_MAX else g.Size(p).value * 512;
      Some(Range(start, SatAdd(start, bytes)))
  }

  /** A partition's extent is known when its start and size are, in sectors of 512 bytes, and it starts in u64. */
  predicate ExtentKnown(g: Graph, p: Kname) {
    g.Start(p).Some? && g.Size(p).Some? && g.Start(p).value * 512 <= U64_MAX
  }

  lemma ExtentHolds(g: Graph, p: Kname, x: nat)
    requires x < U64_MAX
    ensures PartitionRange(g, p).Some? <==> ExtentKnown(g, p)
    ensures ExtentKnown(g, p) ==>
              (PartitionRange(g, p).value.Holds(x)
               <==> g.Start(p).value * 512 <= x < (g.Start(p).value + g.Size(p).value) * 512)
  {
  }

  /** Where `range` on a partition lies on the partition's disk. */
  function OnDisk(range: Range, extent: Option<Range>): Range {
    match extent
    case Some(e) =>
      if range == WHOLE then e
      else Range(SatAdd(e.start, range.start), Min(SatAdd(e.start, range.end), e.end))
    case None => WHOLE
  }

  /** Byte x of the disk is carried exactly when it lies in the partition and its offset there is in
      the range; without a known extent every byte is carried. */
  lemma PartitionHopExact(range: Range, extent: Option<Range>, x: nat)
    requires x < U64_MAX
    ensures OnDisk(range, extent).Holds(x) <==>
            (extent.None? || (extent.value.Holds(x) && range.Holds(x - extent.value.start)))
  {
  }

  datatype Place = Place(node: Kname, range: Range)

  /** What a node is stored on: its slaves as a whole, or a partition's disk with the carried range. */
  function LowerOf(g: Graph, a: Place): seq<Place> {
    var slaves := g.Slaves(a.node);
    if slaves != [] then seq(|slaves|, i requires 0 <= i < |slaves| => Place(slaves[i], WHOLE))
    else match g.ParentDisk(a.node)
         case Some(disk) => [Place(disk, OnDisk(a.range, PartitionRange(g, a.node)))]
         case None => []
  }
}
