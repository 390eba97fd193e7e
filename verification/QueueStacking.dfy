/**
 Stacking of overlays that share a queue (`resolve_queue_positions` and `compute_position` in
 `services/overlays.rs`): heavier overlays come first, and each one is moved, on both axes, past
 the estimated sizes of those before it. Coordinates are unbounded integers here.
 */
module QueueStacking {
  import opened Options

  datatype OverlayType = Image | Text | Backdrop

  datatype Axis = Horizontal | Vertical

  datatype Overlay = Overlay(
    overlayType: OverlayType,
    hOffset: int,
    vOffset: int,
    weight: int,
    queue: Option<string>,
    scaleWidth: Option<nat>,
    scaleHeight: Option<nat>,
    backWidth: Option<nat>,
    backHeight: Option<nat>,
    textBytes: Option<nat>,
    fontSize: real)

  /** A float converted to an unsigned integer: towards zero, and never below it. */
  function Truncated(x: real): nat
  {
    if x < 0.0 then 0 else x.Floor
  }

  function OrElse(given: Option<nat>, default: nat): nat
  {
    if given.Some? then given.value else default
  }

  function EstimateHeight(o: Overlay): nat
  {
    match o.overlayType
    case Backdrop => OrElse(o.backHeight, 50)
    case Image => OrElse(o.scaleHeight, 50)
    case Text => Truncated(o.fontSize * 1.3)
  }

  function EstimateWidth(o: Overlay): nat
  {
    match o.overlayType
    case Backdrop => OrElse(o.backWidth, 100)
    case Image => OrElse(o.scaleWidth, 100)
    case Text => Truncated(o.fontSize) * OrElse(o.textBytes, 0) / 2
  }

  function Size(o: Overlay, axis: Axis): nat
  {
    match axis
    case Horizontal => EstimateWidth(o)
    case Vertical => EstimateHeight(o)
  }

  function Offset(o: Overlay, axis: Axis): int
  {
    match axis
    case Horizontal => o.hOffset
    case Vertical => o.vOffset
  }

  function MoveBy(o: Overlay, h: int, v: int): Overlay
  {
    o.(hOffset := o.hOffset + h, vOffset := o.vOffset + v)
  }

  // ---------------------------------------------------- where each one goes

  predicate InQueue(o: Overlay)
  {
    o.queue.Some? && o.queue.value != ""
  }

  predicate SameQueue(a: Overlay, b: Overlay)
  {
    InQueue(a) && InQueue(b) && a.queue == b.queue
  }

  /** Heavier, or as heavy and listed first. */
  predicate Before(s: seq<Overlay>, j: nat, i: nat)
    requires i < |s| && j < |s|
  {
    s[j].weight > s[i].weight || (s[j].weight == s[i].weight && j < i)
  }

  /** Overlay `j` stands before overlay `i` in their queue. */
  predicate Ahead(s: seq<Overlay>, j: nat, i: nat)
    requires i < |s| && j < |s|
  {
    SameQueue(s[j], s[i]) && Before(s, j, i)
  }

  /** The room taken by those of the first `n` overlays that stand before overlay `i`. */
  function RoomAhead(s: seq<Overlay>, i: nat, n: nat, spacing: nat, axis: Axis): nat
    requires i < |s| && n <= |s|
  {
    if n == 0 then 0
    else RoomAhead(s, i, n - 1, spacing, axis) + (if Ahead(s, n - 1, i) then Size(s[n - 1], axis) + spacing else 0)
  }

  function Shift(s: seq<Overlay>, i: nat, spacing: nat, axis: Axis): nat
    requires i < |s|
  {
    RoomAhead(s, i, |s|, spacing, axis)
  }

  function Placed(s: seq<Overlay>, i: nat, spacing: nat): Overlay
    requires i < |s|
  {
    if InQueue(s[i]) then MoveBy(s[i], Shift(s, i, spacing, Horizontal), Shift(s, i, spacing, Vertical)) else s[i]
  }

  /** If exactly `a` joins those ahead of it to make those ahead of `b`, so does its room. */
  lemma {:induction false} RoomStep(s: seq<Overlay>, a: nat, b: nat, n: nat, spacing: nat, axis: Axis)
    requires a < |s| && b < |s| && n <= |s|
    requires forall k: nat :: k < n ==> (Ahead(s, k, b) <==> Ahead(s, k, a) || k == a)
    ensures RoomAhead(s, b, n, spacing, axis)
         == RoomAhead(s, a, n, spacing, axis) + (if a < n then Size(s[a], axis) + spacing else 0)
  {
    if n > 0 {
      RoomStep(s, a, b, n - 1, spacing, axis);
      assert !Ahead(s, a, a);
    }
  }

  lemma {:induction false} NoRoom(s: seq<Overlay>, i: nat, n: nat, spacing: nat, axis: Axis)
    requires i < |s| && n <= |s|
    requires forall k: nat :: k < n ==> !Ahead(s, k, i)
    ensures RoomAhead(s, i, n, spacing, axis) == 0
  {
    if n > 0 {
      NoRoom(s, i, n - 1, spacing, axis);
    }
  }

  // --------------------------------------------------- the stable sorting

  predicate OfQueue(s: seq<Overlay>, q: string, i: nat)
  {
    i < |s| && InQueue(s[i]) && s[i].queue.value == q
  }

  ghost predicate InOrder(s: seq<Overlay>, q: string, list: seq<nat>)
  {
    && (forall p :: 0 <= p < |list| ==> OfQueue(s, q, list[p]))
    && (forall p, r :: 0 <= p < r < |list| ==> Before(s, list[p], list[r]))
  }

  lemma InOrderAppend(s: seq<Overlay>, q: string, list: seq<nat>, i: nat)
    requires InOrder(s, q, list) && OfQueue(s, q, i)
    requires forall p :: 0 <= p < |list| ==> Before(s, list[p], i)
    ensures InOrder(s, q, list + [i])
  {
  }

  /** Puts an overlay behind all that are at least as heavy. */
  function Insert(s: seq<Overlay>, list: seq<nat>, i: nat): (r: seq<nat>)
    requires i < |s| && forall p :: 0 <= p < |list| ==> list[p] < |s|
    ensures forall p :: 0 <= p < |r| ==> r[p] < |s|
    ensures forall j :: j in r <==> j == i || j in list
  {
    if list == [] then [i]
    else
      var last := |list| - 1;
      assert list == list[..last] + [list[last]];
      if s[list[last]].weight >= s[i].weight then list + [i]
      else Insert(s, list[..last], i) + [list[last]]
  }

  lemma InsertedBefore(s: seq<Overlay>, q: string, list: seq<nat>, i: nat, next: nat)
    requires InOrder(s, q, list) && OfQueue(s, q, i) && next < |s| && Before(s, i, next)
    requires forall p :: 0 <= p < |list| ==> Before(s, list[p], next)
    ensures forall p :: 0 <= p < |Insert(s, list, i)| ==> Before(s, Insert(s, list, i)[p], next)
  {
    var r := Insert(s, list, i);
    forall p | 0 <= p < |r| ensures Before(s, r[p], next) {
      assert r[p] in r;
    }
  }

  lemma {:induction false} InsertInOrder(s: seq<Overlay>, q: string, list: seq<nat>, i: nat)
    requires InOrder(s, q, list) && OfQueue(s, q, i)
    requires forall p :: 0 <= p < |list| ==> list[p] < i
    ensures InOrder(s, q, Insert(s, list, i))
    decreases |list|
  {
    if list != [] {
      var last := |list| - 1;
      var before := list[..last];
      assert list == before + [list[last]];
      assert forall p :: 0 <= p < last ==> Before(s, list[p], list[last]);
      if s[list[last]].weight >= s[i].weight {
        InOrderAppend(s, q, list, i);
      } else {
        InsertInOrder(s, q, before, i);
        InsertedBefore(s, q, before, i, list[last]);
        InOrderAppend(s, q, Insert(s, before, i), list[last]);
      }
    }
  }

  /** Positions sorted by falling weight, ties in place. */
  function SortByWeight(s: seq<Overlay>, members: seq<nat>): (r: seq<nat>)
    requires forall p :: 0 <= p < |members| ==> members[p] < |s|
    ensures forall p :: 0 <= p < |r| ==> r[p] < |s|
    ensures forall k :: k in r <==> k in members
    decreases |members|
  {
    if members == [] then []
    else
      var last := |members| - 1;
      assert members == members[..last] + [members[last]];
      Insert(s, SortByWeight(s, members[..last]), members[last])
  }

  lemma {:induction false} SortInOrder(s: seq<Overlay>, q: string, members: seq<nat>)
    requires forall p :: 0 <= p < |members| ==> members[p] < |s| && OfQueue(s, q, members[p])
    requires forall p, r :: 0 <= p < r < |members| ==> members[p] < members[r]
    ensures InOrder(s, q, SortByWeight(s, members))
    decreases |members|
  {
    if members != [] {
      var last := |members| - 1;
      assert members == members[..last] + [members[last]];
      SortInOrder(s, q, members[..last]);
      var sorted := SortByWeight(s, members[..last]);
      forall p | 0 <= p < |sorted| ensures sorted[p] < members[last] {
        assert sorted[p] in sorted;
      }
      InsertInOrder(s, q, SortByWeight(s, members[..last]), members[last]);
    }
  }

  /** The list holds the whole queue. */
  ghost predicate Whole(s: seq<Overlay>, q: string, list: seq<nat>)
  {
    forall k: nat :: OfQueue(s, q, k) ==> k in list
  }

  /** In a list of the whole queue, an overlay's predecessor is all that joins those ahead of it. */
  lemma AheadInOrder(s: seq<Overlay>, q: string, list: seq<nat>, p: nat, k: nat)
    requires InOrder(s, q, list) && Whole(s, q, list) && p < |list| && k < |s|
    ensures p == 0 ==> !Ahead(s, k, list[p])
    ensures p > 0 ==> (Ahead(s, k, list[p]) <==> Ahead(s, k, list[p - 1]) || k == list[p - 1])
  {
    assert list[p] in list && (p > 0 ==> list[p - 1] in list);
    if OfQueue(s, q, k) {
      var r :| 0 <= r < |list| && list[r] == k;
      assert r < p ==> Before(s, list[r], list[p]);
      assert r > p ==> Before(s, list[p], list[r]);
      if p > 0 {
        assert r < p - 1 ==> Before(s, list[r], list[p - 1]);
        assert r > p - 1 ==> Before(s, list[p - 1], list[r]);
      }
    }
  }

  lemma ConsecutiveInOrder(s: seq<Overlay>, q: string, list: seq<nat>, p: nat, spacing: nat, axis: Axis)
    requires InOrder(s, q, list) && Whole(s, q, list) && p < |list|
    ensures list[p] in list && (p > 0 ==> list[p - 1] in list)
    ensures p == 0 ==> Shift(s, list[p], spacing, axis) == 0
    ensures p > 0 ==>
              Shift(s, list[p], spacing, axis)
              == Shift(s, list[p - 1], spacing, axis) + Size(s[list[p - 1]], axis) + spacing
  {
    assert list[p] in list && (p > 0 ==> list[p - 1] in list);
    forall k: nat | k < |s|
      ensures p == 0 ==> !Ahead(s, k, list[p])
      ensures p > 0 ==> (Ahead(s, k, list[p]) <==> Ahead(s, k, list[p - 1]) || k == list[p - 1])
    {
      AheadInOrder(s, q, list, p, k);
    }
    if p == 0 {
      NoRoom(s, list[0], |s|, spacing, axis);
    } else {
      RoomStep(s, list[p - 1], list[p], |s|, spacing, axis);
    }
  }

  // ------------------------------------------------------------ the pass

  /** The list holds, in order of position, those of the first `n` overlays that are in the queue. */
  ghost predicate Members(s: seq<Overlay>, n: nat, q: string, list: seq<nat>)
    requires n <= |s|
  {
    && (forall p :: 0 <= p < |list| ==> list[p] < n && OfQueue(s, q, list[p]))
    && (forall i: nat :: i < n && OfQueue(s, q, i) ==> i in list)
    && (forall p, r :: 0 <= p < r < |list| ==> list[p] < list[r])
  }

  function Listed(queues: map<string, seq<nat>>, q: string): seq<nat>
  {
    if q in queues then queues[q] else []
  }

  /** The map lists the first `n` overlays by queue. */
  ghost predicate Grouped(s: seq<Overlay>, n: nat, queues: map<string, seq<nat>>)
    requires n <= |s|
  {
    forall q :: Members(s, n, q, Listed(queues, q))
  }

  lemma MembersStep(s: seq<Overlay>, n: nat, q: string, list: seq<nat>)
    requires n < |s| && Members(s, n, q, list)
    ensures Members(s, n + 1, q, if OfQueue(s, q, n) then list + [n] else list)
  {
  }

  lemma GroupedStep(s: seq<Overlay>, n: nat, queues: map<string, seq<nat>>)
    requires n < |s| && Grouped(s, n, queues)
    ensures Grouped(s, n + 1,
                    if InQueue(s[n]) then queues[s[n].queue.value := Listed(queues, s[n].queue.value) + [n]]
                    else queues)
  {
    var after := if InQueue(s[n]) then queues[s[n].queue.value := Listed(queues, s[n].queue.value) + [n]] else queues;
    forall q ensures Members(s, n + 1, q, Listed(after, q)) {
      MembersStep(s, n, q, Listed(queues, q));
    }
  }

  method GroupByQueue(overlays: array<Overlay>) returns (queues: map<string, seq<nat>>)
    ensures Grouped(overlays[..], overlays.Length, queues)
  {
    queues := map[];
    var i := 0;
    while i < overlays.Length
      invariant i <= overlays.Length
      invariant Grouped(overlays[..], i, queues)
    {
      GroupedStep(overlays[..], i, queues);
      if InQueue(overlays[i]) {
        var q := overlays[i].queue.value;
        queues := queues[q := Listed(queues, q) + [i]];
      }
      i := i + 1;
    }
  }

  /** The loop over one sorted queue. */
  method PlaceQueue(overlays: array<Overlay>, indices: seq<nat>, spacing: nat, ghost s: seq<Overlay>, ghost q: string)
    requires |s| == overlays.Length && InOrder(s, q, indices) && Whole(s, q, indices)
    requires forall p :: 0 <= p < |indices| ==> overlays[indices[p]] == s[indices[p]]
    modifies overlays
    ensures forall k :: 0 <= k < |s| ==> overlays[k] == if k in indices then Placed(s, k, spacing) else old(overlays[k])
  {
    var accumulatedV, accumulatedH := 0, 0;
    var pos := 0;
    assert forall p :: 0 <= p < |indices| ==> indices[p] in indices;
    while pos < |indices|
      invariant pos <= |indices|
      invariant pos > 0 ==> && accumulatedV == Shift(s, indices[pos - 1], spacing, Vertical)
                            && accumulatedH == Shift(s, indices[pos - 1], spacing, Horizontal)
      invariant pos == 0 ==> accumulatedV == accumulatedH == 0
      invariant forall p :: 0 <= p < pos ==> overlays[indices[p]] == Placed(s, indices[p], spacing)
      invariant forall p :: pos <= p < |indices| ==> overlays[indices[p]] == s[indices[p]]
      invariant forall k :: 0 <= k < |s| && k !in indices ==> overlays[k] == old(overlays[k])
    {
      ConsecutiveInOrder(s, q, indices, pos, spacing, Vertical);
      ConsecutiveInOrder(s, q, indices, pos, spacing, Horizontal);
      var idx := indices[pos];
      assert forall p :: 0 <= p < |indices| && p != pos ==> indices[p] != idx;
      if pos > 0 {
        var prev := indices[pos - 1];
        accumulatedV := accumulatedV + EstimateHeight(overlays[prev]) + spacing;
        accumulatedH := accumulatedH + EstimateWidth(overlays[prev]) + spacing;
        overlays[idx] := MoveBy(overlays[idx], accumulatedH, accumulatedV);
      }
      pos := pos + 1;
    }
  }

  /**
   Moves every overlay of a queue past the room taken by those ahead of it, whatever order the
   queues are met in, and leaves the others as they are.
   */
  method ResolveQueuePositions(overlays: array<Overlay>, spacing: nat)
    modifies overlays
    ensures forall i :: 0 <= i < overlays.Length ==> overlays[i] == Placed(old(overlays[..]), i, spacing)
  {
    var s := overlays[..];  // the sort reads weights and queue names, which the pass does not change
    var queues := GroupByQueue(overlays);
    var left := queues.Keys;
    forall i | 0 <= i < |s| && InQueue(s[i]) ensures s[i].queue.value in left {
      assert Members(s, |s|, s[i].queue.value, Listed(queues, s[i].queue.value));
      assert OfQueue(s, s[i].queue.value, i);
    }
    while left != {}
      invariant left <= queues.Keys
      invariant forall i :: 0 <= i < |s| ==>
                  overlays[i] == if InQueue(s[i]) && s[i].queue.value in left then s[i] else Placed(s, i, spacing)
    {
      var q :| q in left;
      left := left - {q};
      assert Members(s, |s|, q, Listed(queues, q));
      var indices := SortByWeight(s, queues[q]);
      SortInOrder(s, q, queues[q]);
      assert forall p :: 0 <= p < |indices| ==> indices[p] in indices;
      PlaceQueue(overlays, indices, spacing, s, q);
    }
  }

  // ------------------------------------------------- nothing overlaps

  lemma {:induction false} RoomAheadGrows(s: seq<Overlay>, i: nat, j: nat, n: nat, spacing: nat, axis: Axis)
    requires i < |s| && j < |s| && n <= |s| && Ahead(s, i, j)
    ensures RoomAhead(s, j, n, spacing, axis)
         >= RoomAhead(s, i, n, spacing, axis) + (if i < n then Size(s[i], axis) + spacing else 0)
  {
    if n > 0 {
      RoomAheadGrows(s, i, j, n - 1, spacing, axis);
    }
  }

  /** The stretch of an axis that an overlay is estimated to cover, measured from the offsets' origin. */
  predicate Disjoint(startA: int, sizeA: nat, startB: int, sizeB: nat)
  {
    startA + sizeA <= startB || startB + sizeB <= startA
  }

  /** Two overlays of a queue that start from equal offsets end up with disjoint spans on both axes. */
  lemma SpansDisjoint(s: seq<Overlay>, i: nat, j: nat, spacing: nat, axis: Axis)
    requires i < |s| && j < |s| && i != j && SameQueue(s[i], s[j])
    requires Offset(s[i], axis) == Offset(s[j], axis)
    ensures var a, b := Placed(s, i, spacing), Placed(s, j, spacing);
            Disjoint(Offset(a, axis), Size(a, axis), Offset(b, axis), Size(b, axis))
  {
    if Ahead(s, i, j) {
      RoomAheadGrows(s, i, j, |s|, spacing, axis);
    } else {
      RoomAheadGrows(s, j, i, |s|, spacing, axis);
    }
  }

  /** Directly ahead: nobody stands between the two. */
  ghost predicate JustAhead(s: seq<Overlay>, i: nat, j: nat)
    requires i < |s| && j < |s|
  {
    Ahead(s, i, j) && forall k: nat :: k < |s| && Ahead(s, k, j) && k != i ==> Ahead(s, k, i)
  }

  /** Neighbours in a queue are set apart by exactly the first one's size and the spacing. */
  lemma NeighboursAdjoin(s: seq<Overlay>, i: nat, j: nat, spacing: nat, axis: Axis)
    requires i < |s| && j < |s| && JustAhead(s, i, j)
    ensures Shift(s, j, spacing, axis) == Shift(s, i, spacing, axis) + Size(s[i], axis) + spacing
  {
    RoomStep(s, i, j, |s|, spacing, axis);
  }

  // ----------------------------------------------------- on the canvas

  /** Low is left or top, high is right or bottom. */
  datatype Align = Low | Center | High

  /** Where an overlay of the given size starts on one axis of the canvas. */
  function Position(align: Align, offset: int, size: nat, canvas: nat): int
  {
    match align
    case Low => offset
    case Center => canvas / 2 - size / 2 + offset
    case High => canvas - size - offset
  }

  /** Aligned to an edge, overlays of the estimated sizes are disjoint on the canvas as well. */
  lemma EdgeAlignedDisjoint(s: seq<Overlay>, i: nat, j: nat, spacing: nat, axis: Axis, align: Align, canvas: nat)
    requires i < |s| && j < |s| && i != j && SameQueue(s[i], s[j])
    requires Offset(s[i], axis) == Offset(s[j], axis) && align != Center
    ensures var a, b := Placed(s, i, spacing), Placed(s, j, spacing);
            var u, v := Size(a, axis), Size(b, axis);
            Disjoint(Position(align, Offset(a, axis), u, canvas), u, Position(align, Offset(b, axis), v, canvas), v)
  {
    SpansDisjoint(s, i, j, spacing, axis);
  }

  /**
   Centred overlays are drawn around the offset, not from it, so neighbours stay apart on an axis
   exactly when the second is not too much larger than the first for the spacing to make up.
   */
  lemma CenteredNeighbours(s: seq<Overlay>, i: nat, j: nat, spacing: nat, axis: Axis, canvas: nat)
    requires i < |s| && j < |s| && JustAhead(s, i, j)
    requires Offset(s[i], axis) == Offset(s[j], axis) && Size(s[i], axis) > 0 && Size(s[j], axis) > 0
    ensures var a, b := Placed(s, i, spacing), Placed(s, j, spacing);
            var u, v := Size(a, axis), Size(b, axis);
            Disjoint(Position(Center, Offset(a, axis), u, canvas), u, Position(Center, Offset(b, axis), v, canvas), v)
            <==> v / 2 <= u / 2 + spacing
  {
    NeighboursAdjoin(s, i, j, spacing, axis);
  }

  /** Two overlays are drawn apart when both are centred. */
  predicate CenteredApart(s: seq<Overlay>, i: nat, j: nat, spacing: nat, axis: Axis, canvas: nat)
    requires i < |s| && j < |s|
  {
    var a, b := Placed(s, i, spacing), Placed(s, j, spacing);
    var u, v := Size(a, axis), Size(b, axis);
    Disjoint(Position(Center, Offset(a, axis), u, canvas), u, Position(Center, Offset(b, axis), v, canvas), v)
  }

  /** Where a centred overlay starts, measured from the middle of the canvas and the common offset. */
  function CenteredStart(s: seq<Overlay>, i: nat, spacing: nat, axis: Axis): int
    requires i < |s|
  {
    Shift(s, i, spacing, axis) - Size(s[i], axis) / 2
  }

  /** The condition of `CenteredNeighbours`, for every overlay of the queue and the next one. */
  ghost predicate NeighboursFit(s: seq<Overlay>, list: seq<nat>, spacing: nat, axis: Axis)
    requires forall p :: 0 <= p < |list| ==> list[p] < |s|
  {
    forall k :: 0 < k < |list| ==> Size(s[list[k]], axis) / 2 <= Size(s[list[k - 1]], axis) / 2 + spacing
  }

  ghost predicate AllApart(s: seq<Overlay>, list: seq<nat>, spacing: nat, axis: Axis, canvas: nat)
    requires forall p :: 0 <= p < |list| ==> list[p] < |s|
  {
    forall p, r :: 0 <= p < r < |list| ==> CenteredApart(s, list[p], list[r], spacing, axis, canvas)
  }

  lemma {:induction false} CenteredChain(s: seq<Overlay>, q: string, list: seq<nat>, p: nat, r: nat, spacing: nat,
                                         axis: Axis)
    requires InOrder(s, q, list) && Whole(s, q, list) && p < r < |list|
    requires NeighboursFit(s, list, spacing, axis)
    ensures CenteredStart(s, list[p], spacing, axis) + Size(s[list[p]], axis)
            <= CenteredStart(s, list[r], spacing, axis)
    decreases r
  {
    ConsecutiveInOrder(s, q, list, r, spacing, axis);
    if p < r - 1 {
      CenteredChain(s, q, list, p, r - 1, spacing, axis);
    }
  }

  lemma CenteredDrawn(s: seq<Overlay>, i: nat, j: nat, spacing: nat, axis: Axis, canvas: nat)
    requires i < |s| && j < |s| && InQueue(s[i]) && InQueue(s[j]) && Offset(s[i], axis) == Offset(s[j], axis)
    ensures CenteredApart(s, i, j, spacing, axis, canvas)
       <==> Disjoint(CenteredStart(s, i, spacing, axis), Size(s[i], axis), CenteredStart(s, j, spacing, axis),
                     Size(s[j], axis))
  {
  }

  /** A whole centred queue is drawn without overlaps exactly when all its neighbours are. */
  lemma CenteredQueue(s: seq<Overlay>, q: string, list: seq<nat>, spacing: nat, axis: Axis, canvas: nat)
    requires InOrder(s, q, list) && Whole(s, q, list)
    requires forall p, r :: 0 <= p < r < |list| ==> Offset(s[list[p]], axis) == Offset(s[list[r]], axis)
    requires forall p :: 0 <= p < |list| ==> Size(s[list[p]], axis) > 0
    ensures AllApart(s, list, spacing, axis, canvas) <==> NeighboursFit(s, list, spacing, axis)
  {
    if NeighboursFit(s, list, spacing, axis) {
      forall p, r | 0 <= p < r < |list| ensures CenteredApart(s, list[p], list[r], spacing, axis, canvas) {
        CenteredChain(s, q, list, p, r, spacing, axis);
        CenteredDrawn(s, list[p], list[r], spacing, axis, canvas);
      }
    }
    if AllApart(s, list, spacing, axis, canvas) {
      forall k | 0 < k < |list| ensures Size(s[list[k]], axis) / 2 <= Size(s[list[k - 1]], axis) / 2 + spacing {
        ConsecutiveInOrder(s, q, list, k, spacing, axis);
        CenteredDrawn(s, list[k - 1], list[k], spacing, axis, canvas);
      }
    }
  }

  /** Two centred images of one queue, ten and a hundred pixels high, that overlap at the usual spacing. */
  lemma CenteredCanOverlap(canvas: nat)
    ensures var small := Overlay(Image, 0, 0, 2, Some("q"), Some(10), Some(10), None, None, None, 0.0);
            var large := small.(weight := 1, scaleHeight := Some(100));
            !CenteredApart([small, large], 0, 1, 8, Vertical, canvas)
  {
    var small := Overlay(Image, 0, 0, 2, Some("q"), Some(10), Some(10), None, None, None, 0.0);
    var large := small.(weight := 1, scaleHeight := Some(100));
    var s := [small, large];
    assert Ahead(s, 0, 1);
    CenteredNeighbours(s, 0, 1, 8, Vertical, canvas);
  }

  // ------------------------------------- both axes, and added to the offset

  lemma {:induction false} RoomWhenAhead(s: seq<Overlay>, i: nat, n: nat, spacing: nat, axis: Axis)
    requires i < |s| && n <= |s|
    ensures RoomAhead(s, i, n, spacing, axis) > 0
       <==> exists j: nat :: j < n && Ahead(s, j, i) && Size(s[j], axis) + spacing > 0
  {
    if n > 0 {
      RoomWhenAhead(s, i, n - 1, spacing, axis);
    }
  }

  /** On either axis an overlay moves exactly when something of a size, or any spacing, stands ahead of it. */
  lemma MovesOnAxis(s: seq<Overlay>, i: nat, spacing: nat, axis: Axis)
    requires i < |s|
    ensures Offset(Placed(s, i, spacing), axis) != Offset(s[i], axis)
       <==> exists j: nat :: j < |s| && Ahead(s, j, i) && Size(s[j], axis) + spacing > 0
  {
    RoomWhenAhead(s, i, |s|, spacing, axis);
  }

  lemma {:induction false} RoomIgnoresOffsets(s: seq<Overlay>, i: nat, h: int, v: int, n: nat, spacing: nat, axis: Axis)
    requires i < |s| && n <= |s|
    ensures RoomAhead(s[i := s[i].(hOffset := h, vOffset := v)], i, n, spacing, axis)
            == RoomAhead(s, i, n, spacing, axis)
  {
    if n > 0 {
      RoomIgnoresOffsets(s, i, h, v, n - 1, spacing, axis);
    }
  }

  /** The declared offset is added to and never overridden: a different one always gives a different position. */
  lemma DeclaredOffsetCounts(s: seq<Overlay>, i: nat, h: int, v: int, spacing: nat, axis: Axis)
    requires i < |s|
    ensures var declared := s[i].(hOffset := h, vOffset := v);
            Offset(Placed(s[i := declared], i, spacing), axis) == Offset(Placed(s, i, spacing), axis)
            <==> Offset(declared, axis) == Offset(s[i], axis)
  {
    RoomIgnoresOffsets(s, i, h, v, |s|, spacing, Horizontal);
    RoomIgnoresOffsets(s, i, h, v, |s|, spacing, Vertical);
  }

  /** Two images of one queue: the second moves right as well as down, from its declared offset of 5 and 7. */
  lemma SecondMovesBothWays()
    ensures var first := Overlay(Image, 5, 7, 2, Some("q"), None, None, None, None, None, 0.0);
            var second := first.(weight := 1);
            Placed([first, second], 1, 8) == second.(hOffset := 5 + 100 + 8, vOffset := 7 + 50 + 8)
  {
    var first := Overlay(Image, 5, 7, 2, Some("q"), None, None, None, None, None, 0.0);
    var s := [first, first.(weight := 1)];
    forall axis ensures Shift(s, 1, 8, axis) == Size(first, axis) + 8 {
      assert Ahead(s, 0, 1) && !Ahead(s, 1, 1);
      assert RoomAhead(s, 1, 1, 8, axis) == RoomAhead(s, 1, 0, 8, axis) + Size(first, axis) + 8;
      assert RoomAhead(s, 1, 2, 8, axis) == RoomAhead(s, 1, 1, 8, axis);
    }
  }

  // --------------------------------------------------- sizes and positions

  /** Estimated heights: the given one or fifty, and for text the font size times 1.3, cut. */
  lemma HeightMeans(o: Overlay)
    ensures o.overlayType == Backdrop ==> EstimateHeight(o) == if o.backHeight.Some? then o.backHeight.value else 50
    ensures o.overlayType == Image ==> EstimateHeight(o) == if o.scaleHeight.Some? then o.scaleHeight.value else 50
    ensures o.overlayType == Text && o.fontSize >= 0.0 ==>
              10.0 * EstimateHeight(o) as real <= 13.0 * o.fontSize < 10.0 * (EstimateHeight(o) + 1) as real
    ensures o.overlayType == Text && o.fontSize < 0.0 ==> EstimateHeight(o) == 0
  {
  }

  /** Estimated widths: the given one or a hundred, and for text half the cut font size for every byte. */
  lemma WidthMeans(o: Overlay)
    ensures o.overlayType == Backdrop ==> EstimateWidth(o) == if o.backWidth.Some? then o.backWidth.value else 100
    ensures o.overlayType == Image ==> EstimateWidth(o) == if o.scaleWidth.Some? then o.scaleWidth.value else 100
    ensures o.overlayType == Text && o.textBytes == None ==> EstimateWidth(o) == 0
    ensures o.overlayType == Text && o.textBytes.Some? && o.fontSize >= 0.0 ==>
              2 * EstimateWidth(o) <= o.fontSize.Floor * o.textBytes.value < 2 * (EstimateWidth(o) + 1)
  {
  }

  /** Who stands ahead: another member of the same named queue that is heavier, or as heavy and listed first. */
  lemma AheadMeans(s: seq<Overlay>, j: nat, i: nat)
    requires i < |s| && j < |s|
    ensures Ahead(s, j, i)
       <==> && s[i].queue.Some? && s[i].queue.value != "" && s[j].queue == s[i].queue
            && (s[j].weight > s[i].weight || (s[j].weight == s[i].weight && j < i))
  {
  }

  /** An overlay without a queue, or of the nameless one, stays where it is. */
  lemma UnqueuedStays(s: seq<Overlay>, i: nat, spacing: nat)
    requires i < |s| && (s[i].queue == None || s[i].queue == Some(""))
    ensures Placed(s, i, spacing) == s[i]
  {
  }

  /**
   Where overlays are drawn: the offset is the distance from the left or top edge, or from the right
   or bottom one; in the middle, the distances to both edges differ by twice the offset, up to rounding.
   */
  lemma PositionMeans(offset: int, size: nat, canvas: nat)
    ensures Position(Low, offset, size, canvas) == offset
    ensures canvas - (Position(High, offset, size, canvas) + size) == offset
    ensures var before := Position(Center, offset, size, canvas);
            var behind := canvas - (before + size);
            -1 <= before - behind - 2 * offset <= 1
  {
  }
}
