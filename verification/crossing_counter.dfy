/**
 * The line-crossing counter: a position history per identity, a direction
 * taken against the mean of the earlier positions, and a one-shot "counted"
 * latch per identity. The reference line is the middle row `height / 2`.
 * Moving up (towards row 0) across it is an exit, moving down an entry.
 */
module CrossingCounter {
  import opened Basics
  import opened Geometry

  datatype Kind = Up | Down

  /** Per-identity record: its id, every centroid seen so far, and the latch. */
  datatype Trackable = Trackable(id: nat, centroids: seq<Point>, counted: bool)

  /**
   * The counter's state: the records by id, the running totals, the lists of
   * totals reached at each exit (`moveOut`) and each entry (`moveIn`), and
   * `total`, the "people inside" list that the alert compares against its threshold.
   */
  datatype Counter = Counter(
    objects: map<nat, Trackable>,
    totalUp: nat,
    totalDown: nat,
    moveOut: seq<nat>,
    moveIn: seq<nat>,
    total: seq<int>)

  /** A crossing by `id`; `alert` is the threshold comparison made on an entry. */
  datatype Event = Event(id: nat, kind: Kind, alert: bool)

  datatype Outcome = Outcome(next: Counter, event: Option<Event>)

  /** The counter before the first frame. */
  function Start(): (st: Counter)
    ensures Inv(st) && st.objects == map[] && st.total == []
  {
    Counter(map[], 0, 0, [], [], [])
  }

  /** Left-to-right sum, as Python's `sum`. */
  function Sum(xs: seq<int>): int {
    if xs == [] then 0 else Sum(xs[..|xs| - 1]) + xs[|xs| - 1]
  }

  /** The sum of the recorded y coordinates. */
  function SumY(cs: seq<Point>): int {
    Sum(seq(|cs|, i requires 0 <= i < |cs| => cs[i].y))
  }

  /** The ids whose latch is set. */
  function Counted(objects: map<nat, Trackable>): set<nat> {
    set id | id in objects && objects[id].counted
  }

  /**
   * Below the mean of the earlier positions (direction < 0) and above the
   * line. With `n` earlier positions, `y - sum / n < 0` is `y * n < sum`.
   */
  predicate MovingUp(history: seq<Point>, y: int, height: nat) {
    y * |history| < SumY(history) && y < height / 2
  }

  /** Past the mean of the earlier positions (direction > 0) and below the line. */
  predicate MovingDown(history: seq<Point>, y: int, height: nat) {
    y * |history| > SumY(history) && y > height / 2
  }

  /**
   * The integer comparisons give the sign of `y - mean(history)` computed
   * exactly.
   */
  lemma DirectionSign(history: seq<Point>, y: int)
    requires |history| > 0
    ensures var direction := y as real - SumY(history) as real / |history| as real;
      && (direction < 0.0 <==> y * |history| < SumY(history))
      && (direction > 0.0 <==> y * |history| > SumY(history))
  {
    var n := |history| as real;
    var s := SumY(history) as real;
    var mean := s / n;
    assert mean * n == s;
    assert (y * |history|) as real == y as real * n;
    if y as real < mean {
      assert y as real * n < mean * n;
    } else if y as real > mean {
      assert y as real * n > mean * n;
    } else {
      assert y as real * n == mean * n;
    }
  }

  /**
   * The state's bookkeeping: records are filed under their own id and never
   * empty; the exit and entry lists hold `1, 2, ...` up to their totals; the
   * totals add up to the number of latched records; `total` is empty until
   * the first entry and a single value after it.
   */
  predicate Inv(st: Counter) {
    && (forall id :: id in st.objects ==> st.objects[id].id == id && |st.objects[id].centroids| > 0)
    && |st.moveOut| == st.totalUp
    && (forall k :: 0 <= k < |st.moveOut| ==> st.moveOut[k] == k + 1)
    && |st.moveIn| == st.totalDown
    && (forall k :: 0 <= k < |st.moveIn| ==> st.moveIn[k] == k + 1)
    && st.totalUp + st.totalDown == |Counted(st.objects)|
    && (st.totalDown == 0 <==> st.total == [])
    && (st.totalDown > 0 ==> |st.total| == 1)
  }

  /**
   * One `(id, centroid)` pair of a frame. A new id gets a record and no event.
   * A known id has its direction taken against the positions recorded so far,
   * then the centroid is appended; an unlatched record crossing upwards
   * counts an exit, otherwise one crossing downwards counts an entry.
   */
  function Observe(st: Counter, id: nat, c: Point, height: nat, threshold: int): (r: Outcome)
    ensures r.event.Some? ==> r.event.value.id == id
    ensures r.event.Some? <==>
      id in st.objects && !st.objects[id].counted
      && (MovingUp(st.objects[id].centroids, c.y, height) || MovingDown(st.objects[id].centroids, c.y, height))
    ensures r.event.Some? && r.event.value.kind == Up <==>
      id in st.objects && !st.objects[id].counted && MovingUp(st.objects[id].centroids, c.y, height)
    ensures id in r.next.objects
    ensures id in st.objects ==>
      && r.next.objects[id].centroids == st.objects[id].centroids + [c]
      && r.next.objects[id].counted == (st.objects[id].counted || r.event.Some?)
    ensures id !in st.objects ==> r.next.objects[id] == Trackable(id, [c], false)
    ensures forall other :: other != id ==>
      (other in r.next.objects <==> other in st.objects)
      && (other in st.objects ==> r.next.objects[other] == st.objects[other])
  {
    if id !in st.objects then
      Outcome(st.(objects := st.objects[id := Trackable(id, [c], false)]), None)
    else
      var rec := st.objects[id];
      var seen := rec.(centroids := rec.centroids + [c]);
      if rec.counted then
        Outcome(st.(objects := st.objects[id := seen]), None)
      else if MovingUp(rec.centroids, c.y, height) then
        var up := st.totalUp + 1;
        Outcome(st.(objects := st.objects[id := seen.(counted := true)],
                    totalUp := up, moveOut := st.moveOut + [up]),
                Some(Event(id, Up, false)))
      else if MovingDown(rec.centroids, c.y, height) then
        var down := st.totalDown + 1;
        var moveIn := st.moveIn + [down];
        Outcome(st.(objects := st.objects[id := seen.(counted := true)],
                    totalDown := down, moveIn := moveIn,
                    total := [|moveIn| - |st.moveOut|]),
                Some(Event(id, Down, Sum(st.total) >= threshold)))
      else
        Outcome(st.(objects := st.objects[id := seen]), None)
  }

  /**
   * How the totals move: an exit adds one to `totalUp` and appends the new
   * value to `moveOut`, leaving `total` as it was; an entry adds one to
   * `totalDown`, appends to `moveIn`, replaces `total` by the single value
   * entries minus exits, and raises the alert exactly when the sum of the
   * previous `total` reached the threshold; no event changes no total.
   */
  lemma ObserveTotals(st: Counter, id: nat, c: Point, height: nat, threshold: int)
    ensures var r := Observe(st, id, c, height, threshold);
      && (r.event.None? ==>
            r.next.totalUp == st.totalUp && r.next.totalDown == st.totalDown
            && r.next.moveOut == st.moveOut && r.next.moveIn == st.moveIn && r.next.total == st.total)
      && (r.event.Some? && r.event.value.kind == Up ==>
            r.next.totalUp == st.totalUp + 1 && r.next.moveOut == st.moveOut + [st.totalUp + 1]
            && r.next.totalDown == st.totalDown && r.next.moveIn == st.moveIn
            && r.next.total == st.total && !r.event.value.alert)
      && (r.event.Some? && r.event.value.kind == Down ==>
            r.next.totalDown == st.totalDown + 1 && r.next.moveIn == st.moveIn + [st.totalDown + 1]
            && r.next.totalUp == st.totalUp && r.next.moveOut == st.moveOut
            && r.next.total == [|r.next.moveIn| - |r.next.moveOut|]
            && r.event.value.alert == (Sum(st.total) >= threshold))
  {
  }

  /** Observing one pair keeps the bookkeeping consistent. */
  lemma ObserveKeepsInv(st: Counter, id: nat, c: Point, height: nat, threshold: int)
    requires Inv(st)
    ensures Inv(Observe(st, id, c, height, threshold).next)
  {
    var r := Observe(st, id, c, height, threshold);
    ObserveTotals(st, id, c, height, threshold);
    LatchCount(st.objects, r.next.objects, id, r.event.Some?);
  }

  /**
   * Replacing the record under `id` adds `id` to the latched ids when its
   * latch goes from clear to set, and changes nothing otherwise.
   */
  lemma LatchCount(before: map<nat, Trackable>, after: map<nat, Trackable>, id: nat, latches: bool)
    requires id in after
    requires forall other :: other != id ==>
      (other in after <==> other in before) && (other in before ==> after[other] == before[other])
    requires latches ==> id in before && !before[id].counted && after[id].counted
    requires !latches ==> (id in before && before[id].counted) == after[id].counted
    ensures |Counted(after)| == |Counted(before)| + (if latches then 1 else 0)
  {
    if latches {
      assert Counted(after) == Counted(before) + {id};
    } else {
      assert Counted(after) == Counted(before);
    }
  }

  /** Every pair of a frame, in the order the tracker returns them. */
  function ObserveAll(st: Counter, seen: seq<(nat, Point)>, height: nat, threshold: int): (r: (Counter, seq<Event>))
    decreases |seen|
  {
    if seen == [] then (st, [])
    else
      var o := Observe(st, seen[0].0, seen[0].1, height, threshold);
      var (last, events) := ObserveAll(o.next, seen[1..], height, threshold);
      (last, (if o.event.Some? then [o.event.value] else []) + events)
  }

  /** A sequence of observations keeps the bookkeeping consistent and never lowers a total. */
  lemma {:induction false} ObserveAllKeepsInv(st: Counter, seen: seq<(nat, Point)>, height: nat, threshold: int)
    requires Inv(st)
    ensures var (last, events) := ObserveAll(st, seen, height, threshold);
      && Inv(last)
      && st.totalUp <= last.totalUp && st.totalDown <= last.totalDown
      && last.totalUp + last.totalDown == st.totalUp + st.totalDown + |events|
    decreases |seen|
  {
    if seen != [] {
      var o := Observe(st, seen[0].0, seen[0].1, height, threshold);
      ObserveKeepsInv(st, seen[0].0, seen[0].1, height, threshold);
      ObserveTotals(st, seen[0].0, seen[0].1, height, threshold);
      ObserveAllKeepsInv(o.next, seen[1..], height, threshold);
    }
  }

  /** Whether `id`'s latch is set. */
  predicate Latched(st: Counter, id: nat) {
    id in st.objects && st.objects[id].counted
  }

  /** How many of the events concern `id`. */
  function EventsOf(events: seq<Event>, id: nat): nat {
    if events == [] then 0
    else (if events[0].id == id then 1 else 0) + EventsOf(events[1..], id)
  }

  /**
   * One-shot latch over any sequence of observations (any number of
   * frames): an id already counted gets no event, any other id gets at most
   * one, and an id that got one ends latched.
   */
  lemma {:induction false} AtMostOneEvent(st: Counter, seen: seq<(nat, Point)>, height: nat, threshold: int, id: nat)
    ensures var (last, events) := ObserveAll(st, seen, height, threshold);
      EventsOf(events, id) + (if Latched(st, id) then 1 else 0) <= (if Latched(last, id) then 1 else 0)
    decreases |seen|
  {
    if seen != [] {
      var o := Observe(st, seen[0].0, seen[0].1, height, threshold);
      var (last, events) := ObserveAll(o.next, seen[1..], height, threshold);
      AtMostOneEvent(o.next, seen[1..], height, threshold, id);
      var head := if o.event.Some? then [o.event.value] else [];
      assert EventsOf(head + events, id) == EventsOf(head, id) + EventsOf(events, id) by {
        if o.event.Some? {
          assert (head + events)[1..] == events;
        } else {
          assert head + events == events;
        }
      }
    }
  }

  /** After a sequence of observations, the records are those before plus one per observed id. */
  lemma {:induction false} ObserveAllRecords(st: Counter, seen: seq<(nat, Point)>, height: nat, threshold: int)
    ensures var (last, events) := ObserveAll(st, seen, height, threshold);
      && (forall id :: id in last.objects <==> id in st.objects || exists k :: 0 <= k < |seen| && seen[k].0 == id)
      && (forall e :: e in events ==> exists k :: 0 <= k < |seen| && seen[k].0 == e.id)
    decreases |seen|
  {
    if seen != [] {
      var o := Observe(st, seen[0].0, seen[0].1, height, threshold);
      ObserveAllRecords(o.next, seen[1..], height, threshold);
      var (last, events) := ObserveAll(o.next, seen[1..], height, threshold);
      forall id ensures id in last.objects <==> id in st.objects || exists k :: 0 <= k < |seen| && seen[k].0 == id {
        if exists k :: 0 <= k < |seen[1..]| && seen[1..][k].0 == id {
          var k :| 0 <= k < |seen[1..]| && seen[1..][k].0 == id;
          assert seen[k + 1].0 == id;
        }
        if exists k :: 0 <= k < |seen| && seen[k].0 == id {
          var k :| 0 <= k < |seen| && seen[k].0 == id;
          if k > 0 {
            assert seen[1..][k - 1].0 == id;
          }
        }
      }
      forall e | e in ObserveAll(st, seen, height, threshold).1
        ensures exists k :: 0 <= k < |seen| && seen[k].0 == e.id
      {
        if e !in events {
          assert e.id == seen[0].0;
        } else {
          var k :| 0 <= k < |seen[1..]| && seen[1..][k].0 == e.id;
          assert seen[k + 1].0 == e.id;
        }
      }
    }
  }
}
