/**
 * One frame of the counting loop: the tracker's update on the frame's boxes,
 * then the counter's observation of every identity the tracker returns, in
 * creation order.
 */
module Pipeline {
  import opened Basics
  import opened Geometry
  import opened Tracks
  import opened Matching
  import opened CentroidTracker
  import opened CrossingCounter

  /** The tracker's output as `(id, centroid)` pairs. */
  function Sightings(s: seq<Track>): (seen: seq<(nat, Point)>)
    ensures |seen| == |s|
    ensures forall k :: 0 <= k < |s| ==> seen[k] == (s[k].id, s[k].c)
  {
    seq(|s|, k requires 0 <= k < |s| => (s[k].id, s[k].c))
  }

  datatype FrameResult = FrameResult(tracker: Tracker, counter: Counter, events: seq<Event>)

  function Frame(cfg: Config, t: Tracker, st: Counter, boxes: seq<Box>, rowOrder: seq<nat>, colOrder: seq<nat>,
                 height: nat, threshold: int): (r: FrameResult)
    requires Valid(t) && Choices(t, boxes, rowOrder, colOrder)
    ensures Valid(r.tracker)
  {
    var t' := Update(cfg, t, boxes, rowOrder, colOrder);
    var (st', events) := ObserveAll(st, Sightings(t'.tracks), height, threshold);
    FrameResult(t', st', events)
  }

  /** Every counter record belongs to an id the tracker has handed out. */
  predicate Linked(t: Tracker, st: Counter) {
    forall id :: id in st.objects ==> id < t.nextId
  }

  /**
   * A frame keeps both components consistent and linked, and every crossing
   * it reports is by an identity the tracker returned in that frame.
   */
  lemma FrameKeepsInvariants(cfg: Config, t: Tracker, st: Counter, boxes: seq<Box>, rowOrder: seq<nat>,
                             colOrder: seq<nat>, height: nat, threshold: int)
    requires Valid(t) && Choices(t, boxes, rowOrder, colOrder)
    requires Inv(st) && Linked(t, st)
    ensures var r := Frame(cfg, t, st, boxes, rowOrder, colOrder, height, threshold);
      && Inv(r.counter) && Linked(r.tracker, r.counter)
      && (forall e :: e in r.events ==> Find(r.tracker.tracks, e.id).Some?)
  {
    var t' := Update(cfg, t, boxes, rowOrder, colOrder);
    var seen := Sightings(t'.tracks);
    ObserveAllKeepsInv(st, seen, height, threshold);
    ObserveAllRecords(st, seen, height, threshold);
    var (st', events) := ObserveAll(st, seen, height, threshold);
    forall id | id in st'.objects ensures id < t'.nextId {
      if id !in st.objects {
        var k :| 0 <= k < |seen| && seen[k].0 == id;
      }
    }
    forall e | e in events ensures Find(t'.tracks, e.id).Some? {
      var k :| 0 <= k < |seen| && seen[k].0 == e.id;
      FindAt(t'.tracks, k);
    }
  }

  /** A frame without boxes: every identity misses it. */
  function Idle(cfg: Config, t: Tracker): (r: Tracker)
    ensures r.nextId == t.nextId && |r.tracks| <= |t.tracks|
  {
    Tracker(t.nextId, Age(t.tracks, Unheld(|t.tracks|), cfg.maxDisappeared))
  }

  /** `Idle` is the tracker's update on an empty list of boxes, and keeps the tracker valid. */
  lemma IdleIsUpdate(cfg: Config, t: Tracker, rowOrder: seq<nat>, colOrder: seq<nat>)
    requires Valid(t)
    ensures Update(cfg, t, [], rowOrder, colOrder) == Idle(cfg, t)
    ensures Valid(Idle(cfg, t))
  {
  }

  /**
   * Looking an id up after an idle frame: an absent id stays absent, a
   * present one has gained a miss or, past `maxDisappeared`, is gone.
   */
  lemma IdleFind(cfg: Config, t: Tracker, id: nat)
    requires StrictIds(t.tracks)
    ensures StrictIds(Idle(cfg, t).tracks)
    ensures Find(Idle(cfg, t).tracks, id)
      == if Find(t.tracks, id).None? then None else Bump(Find(t.tracks, id).value, cfg.maxDisappeared)
  {
    var held := Unheld(|t.tracks|);
    if Find(t.tracks, id).Some? {
      var i := FindIndex(t.tracks, id);
      AgeFind(t.tracks, held, cfg.maxDisappeared, i);
    } else {
      AgeIds(t.tracks, held, cfg.maxDisappeared);
    }
  }

  /** `n` frames without boxes in a row. */
  function EmptyFrames(cfg: Config, t: Tracker, n: nat): (r: Tracker)
    ensures r.nextId == t.nextId
    decreases n
  {
    if n == 0 then t else EmptyFrames(cfg, Idle(cfg, t), n - 1)
  }

  /** A run of empty frames is a run of tracker updates, and keeps the tracker valid. */
  lemma {:induction false} EmptyFramesAreUpdates(cfg: Config, t: Tracker, n: nat)
    requires Valid(t) && n > 0
    ensures Valid(EmptyFrames(cfg, t, n))
    ensures EmptyFrames(cfg, t, n) == EmptyFrames(cfg, Update(cfg, t, [], [], []), n - 1)
    decreases n
  {
    IdleIsUpdate(cfg, t, [], []);
    if n > 1 {
      EmptyFramesAreUpdates(cfg, Idle(cfg, t), n - 1);
    }
  }

  /**
   * Survival: after `n` frames without boxes, an identity with `m` misses is
   * still there, with `m + n` misses, as long as that is at most `maxDisappeared`.
   */
  lemma {:induction false} EmptyFramesKeep(cfg: Config, t: Tracker, n: nat, o: Track)
    requires StrictIds(t.tracks) && Find(t.tracks, o.id) == Some(o)
    requires o.misses + n <= cfg.maxDisappeared
    ensures Find(EmptyFrames(cfg, t, n).tracks, o.id) == Some(Track(o.id, o.c, o.misses + n))
    decreases n
  {
    if n > 0 {
      var t1 := Idle(cfg, t);
      var o1 := Track(o.id, o.c, o.misses + 1);
      assert StrictIds(t1.tracks) && Find(t1.tracks, o.id) == Some(o1) by {
        IdleFind(cfg, t, o.id);
      }
      EmptyFramesKeep(cfg, t1, n - 1, o1);
    }
  }

  /**
   * Retirement: after `n` frames without boxes, an identity whose misses
   * would exceed `maxDisappeared` is gone.
   */
  lemma {:induction false} EmptyFramesRetire(cfg: Config, t: Tracker, n: nat, o: Track)
    requires StrictIds(t.tracks) && Find(t.tracks, o.id) == Some(o)
    requires n > 0 && o.misses + n > cfg.maxDisappeared
    ensures Find(EmptyFrames(cfg, t, n).tracks, o.id).None?
    decreases n
  {
    IdleFind(cfg, t, o.id);
    if o.misses + 1 > cfg.maxDisappeared {
      EmptyFramesAbsent(cfg, Idle(cfg, t), n - 1, o.id);
    } else {
      EmptyFramesRetire(cfg, Idle(cfg, t), n - 1, Track(o.id, o.c, o.misses + 1));
    }
  }

  /** An absent id stays absent through any run of empty frames. */
  lemma {:induction false} EmptyFramesAbsent(cfg: Config, t: Tracker, n: nat, id: nat)
    requires StrictIds(t.tracks) && Find(t.tracks, id).None?
    ensures Find(EmptyFrames(cfg, t, n).tracks, id).None?
    decreases n
  {
    if n > 0 {
      IdleFind(cfg, t, id);
      EmptyFramesAbsent(cfg, Idle(cfg, t), n - 1, id);
    }
  }

  /**
   * Identity stability: one identity and one box whose centroid is within
   * the radius; the identity keeps its id, takes the new centroid and
   * resets its misses, and no id is created.
   */
  lemma SingleObjectKeepsId(cfg: Config, t: Tracker, b: Box)
    requires Valid(t) && |t.tracks| == 1
    requires Within(Dist2(t.tracks[0].c, Centroid(b)), cfg.maxDistance)
    ensures Choices(t, [b], [0], [0])
    ensures var r := Update(cfg, t, [b], [0], [0]);
      r.nextId == t.nextId && r.tracks == [Track(t.tracks[0].id, Centroid(b), 0)]
  {
    var rows := Positions(t.tracks);
    var cols := Centroids([b]);
    assert 0 in [0];
    assert IsRowOrder([0], RowKeys(rows, cols));
    var a := Assignment(cfg, t, [b], [0]);
    assert ArgMin(rows[0], cols) == 0;
    assert a[0] == Some(0);
    UpdateIdentity(cfg, t, [b], [0], [0], 0);
    var r := Update(cfg, t, [b], [0], [0]);
    assert r == AgedTracker(Tracker(t.nextId, Rebind(t.tracks, cols, a)), Bound(a), cfg.maxDisappeared);
    var o := Find(r.tracks, t.tracks[0].id).value;
    assert |r.tracks| <= 1;
    assert o in r.tracks;
  }
}
