/**
 * The centroid tracker: stable integer identities for the boxes of a video,
 * one frame at a time. Identities are created for unmatched boxes, follow
 * their nearest box from frame to frame, and are retired after too many
 * consecutive frames without one.
 */
module CentroidTracker {
  import opened Basics
  import opened Geometry
  import opened Tracks
  import opened Matching

  /**
   * `maxDisappeared`: frames an identity may go unmatched before it is retired.
   * `maxDistance`: the matching radius in pixels, any number.
   */
  datatype Config = Config(maxDisappeared: int, maxDistance: real)

  /** The next id to hand out and the tracked identities in creation order. */
  datatype Tracker = Tracker(nextId: nat, tracks: seq<Track>)

  /** Ids are unique, in creation order, and all below the next id. */
  predicate Valid(t: Tracker) {
    StrictIds(t.tracks) && IdsBelow(t.tracks, t.nextId)
  }

  /** A freshly constructed tracker: nothing tracked, ids start at 0. */
  function Init(): (t: Tracker)
    ensures Valid(t) && t.tracks == [] && t.nextId == 0
  {
    Tracker(0, [])
  }

  /** The centroid of every box, in input order. */
  function Centroids(boxes: seq<Box>): (cs: seq<Point>)
    ensures |cs| == |boxes|
    ensures forall i :: 0 <= i < |boxes| ==> cs[i] == Centroid(boxes[i])
  {
    seq(|boxes|, i requires 0 <= i < |boxes| => Centroid(boxes[i]))
  }

  /** The current centroid of every tracked identity, in creation order. */
  function Positions(s: seq<Track>): (ps: seq<Point>)
    ensures |ps| == |s|
    ensures forall i :: 0 <= i < |s| ==> ps[i] == s[i].c
  {
    seq(|s|, i requires 0 <= i < |s| => s[i].c)
  }

  /**
   * The orders the source leaves to NumPy and to Python's set iteration:
   * `rowOrder` is an `argsort` of the rows' minimum distances, `colOrder` the
   * order in which unmatched columns are registered (any order of the columns).
   * They only matter when both boxes and identities are present.
   */
  predicate Choices(t: Tracker, boxes: seq<Box>, rowOrder: seq<nat>, colOrder: seq<nat>) {
    |boxes| > 0 && |t.tracks| > 0 ==>
      IsRowOrder(rowOrder, RowKeys(Positions(t.tracks), Centroids(boxes)))
      && IsPermutation(colOrder, |boxes|)
  }

  /** The greedy association of this frame: per identity, the box it is bound to. */
  function Assignment(cfg: Config, t: Tracker, boxes: seq<Box>, rowOrder: seq<nat>): (a: seq<Option<nat>>)
    requires |boxes| > 0 && |t.tracks| > 0
    requires IsPermutation(rowOrder, |t.tracks|)
    ensures |a| == |t.tracks|
    ensures forall i :: 0 <= i < |a| && a[i].Some? ==> a[i].value < |boxes|
  {
    Greedy(Positions(t.tracks), Centroids(boxes), rowOrder, cfg.maxDistance)
  }

  /** Bound identities take their box's centroid and lose their misses; the rest are untouched. */
  function Rebind(s: seq<Track>, cs: seq<Point>, a: seq<Option<nat>>): (r: seq<Track>)
    requires |a| == |s|
    requires forall i :: 0 <= i < |a| && a[i].Some? ==> a[i].value < |cs|
    ensures |r| == |s|
    ensures forall i :: 0 <= i < |s| ==> r[i].id == s[i].id
    ensures forall i :: 0 <= i < |s| && a[i].Some? ==> r[i] == Track(s[i].id, cs[a[i].value], 0)
    ensures forall i :: 0 <= i < |s| && a[i].None? ==> r[i] == s[i]
  {
    seq(|s|, i requires 0 <= i < |s| => if a[i].Some? then Track(s[i].id, cs[a[i].value], 0) else s[i])
  }

  /** The centroids of the listed columns, in that order. */
  function Pick(cs: seq<Point>, cols: seq<nat>): (r: seq<Point>)
    requires forall k :: 0 <= k < |cols| ==> cols[k] < |cs|
    ensures |r| == |cols|
    ensures forall k :: 0 <= k < |cols| ==> r[k] == cs[cols[k]]
  {
    seq(|cols|, k requires 0 <= k < |cols| => cs[cols[k]])
  }

  /** Which identities were bound this frame. */
  function Bound(a: seq<Option<nat>>): (held: seq<bool>)
    ensures |held| == |a|
    ensures forall i :: 0 <= i < |a| ==> (held[i] <==> a[i].Some?)
  {
    seq(|a|, i requires 0 <= i < |a| => a[i].Some?)
  }

  /**
   * One frame (`actualizar`). With no boxes every identity misses a frame.
   * With nothing tracked every centroid is registered in input order.
   * Otherwise identities are greedily bound to boxes; then, when identities
   * are at least as many as boxes, the unbound identities miss a frame, and
   * when boxes are more numerous, the unbound boxes are registered instead.
   */
  function Update(cfg: Config, t: Tracker, boxes: seq<Box>, rowOrder: seq<nat>, colOrder: seq<nat>): (r: Tracker)
    requires Valid(t)
    requires Choices(t, boxes, rowOrder, colOrder)
    ensures Valid(r)
    ensures t.nextId <= r.nextId
    ensures forall k :: 0 <= k < |r.tracks| ==>
      t.nextId <= r.tracks[k].id || Find(t.tracks, r.tracks[k].id).Some?
  {
    if |boxes| == 0 then AgedTracker(t, Unheld(|t.tracks|), cfg.maxDisappeared)
    else if |t.tracks| == 0 then Registered(t, t.tracks, Centroids(boxes))
    else Associate(cfg, t, boxes, rowOrder, colOrder)
  }

  /** The frame when both boxes and identities are present. */
  function Associate(cfg: Config, t: Tracker, boxes: seq<Box>, rowOrder: seq<nat>, colOrder: seq<nat>): (r: Tracker)
    requires Valid(t) && |boxes| > 0 && |t.tracks| > 0
    requires Choices(t, boxes, rowOrder, colOrder)
    ensures Valid(r)
    ensures t.nextId <= r.nextId
    ensures forall k :: 0 <= k < |r.tracks| ==>
      t.nextId <= r.tracks[k].id || Find(t.tracks, r.tracks[k].id).Some?
  {
    var cs := Centroids(boxes);
    var a := Assignment(cfg, t, boxes, rowOrder);
    var bound := Rebind(t.tracks, cs, a);
    if |t.tracks| >= |boxes| then
      AgedTracker(Tracker(t.nextId, bound), Bound(a), cfg.maxDisappeared)
    else
      var cols := NewColumns(colOrder, a, |boxes|);
      Registered(t, bound, Pick(cs, cols))
  }

  /** The unbound columns, in `colOrder`'s order: each column below `n` that no identity took, once. */
  function NewColumns(colOrder: seq<nat>, a: seq<Option<nat>>, n: nat): (cols: seq<nat>)
    requires IsPermutation(colOrder, n)
    ensures Distinct(cols)
    ensures forall j: nat :: j in cols <==> j < n && Some(j) !in a
    ensures forall k :: 0 <= k < |cols| ==> cols[k] < n
  {
    var cols := Unused(colOrder, a);
    UnusedKeepsDistinct(colOrder, a);
    assert forall k :: 0 <= k < |cols| ==> cols[k] < n by {
      forall k | 0 <= k < |cols| ensures cols[k] < n {
        assert cols[k] in cols;
      }
    }
    assert forall j: nat :: j in cols <==> j < n && Some(j) !in a by {
      forall j: nat ensures j in cols <==> j < n && Some(j) !in a {
        if j in cols {
          assert j in colOrder;
        }
      }
    }
    cols
  }

  /** `t` after its unheld identities miss a frame; no id is created. */
  function AgedTracker(t: Tracker, held: seq<bool>, maxDisappeared: int): (r: Tracker)
    requires Valid(t) && |held| == |t.tracks|
    ensures Valid(r) && r.nextId == t.nextId
    ensures forall k :: 0 <= k < |r.tracks| ==> Find(t.tracks, r.tracks[k].id).Some?
  {
    var r := Age(t.tracks, held, maxDisappeared);
    AgeIds(t.tracks, held, maxDisappeared);
    assert forall k :: 0 <= k < |r| ==> Find(t.tracks, r[k].id).Some? && r[k].id < t.nextId by {
      forall k | 0 <= k < |r| ensures Find(t.tracks, r[k].id).Some? && r[k].id < t.nextId {
        var i := FindIndex(t.tracks, r[k].id);
      }
    }
    Tracker(t.nextId, r)
  }

  /**
   * The records `s` (identities of `t`, possibly rebound) followed by fresh
   * registrations of `cs`, one after the other.
   */
  function Registered(t: Tracker, s: seq<Track>, cs: seq<Point>): (r: Tracker)
    requires Valid(t) && |s| == |t.tracks|
    requires forall i :: 0 <= i < |s| ==> s[i].id == t.tracks[i].id
    ensures Valid(r)
    ensures r.nextId == t.nextId + |cs|
    ensures r.tracks == s + Fresh(t.nextId, cs)
    ensures forall k :: 0 <= k < |r.tracks| ==>
      t.nextId <= r.tracks[k].id || Find(t.tracks, r.tracks[k].id).Some?
  {
    assert StrictIds(s) && IdsBelow(s, t.nextId);
    var (n, all) := RegisterAll(t.nextId, s, cs);
    FreshKeepsOrder(s, t.nextId, cs);
    assert forall k :: 0 <= k < |s| ==> Find(t.tracks, all[k].id).Some? by {
      forall k | 0 <= k < |s| ensures Find(t.tracks, all[k].id).Some? {
        FindAt(t.tracks, k);
      }
    }
    Tracker(n, all)
  }

  /**
   * A frame without boxes creates no id, ages every identity by one miss and
   * retires exactly those whose count now exceeds `maxDisappeared`.
   */
  lemma UpdateNoBoxes(cfg: Config, t: Tracker, rowOrder: seq<nat>, colOrder: seq<nat>)
    requires Valid(t)
    ensures var r := Update(cfg, t, [], rowOrder, colOrder);
      && r.nextId == t.nextId
      && (forall k :: 0 <= k < |r.tracks| ==> Find(t.tracks, r.tracks[k].id).Some?)
      && (forall i :: 0 <= i < |t.tracks| ==>
            Find(r.tracks, t.tracks[i].id) == Bump(t.tracks[i], cfg.maxDisappeared))
  {
    var held := Unheld(|t.tracks|);
    forall i | 0 <= i < |t.tracks|
      ensures Find(Age(t.tracks, held, cfg.maxDisappeared), t.tracks[i].id) == Bump(t.tracks[i], cfg.maxDisappeared)
    {
      AgeFind(t.tracks, held, cfg.maxDisappeared, i);
    }
  }

  /**
   * With nothing tracked, every box's centroid is registered in input order
   * under consecutive ids from `nextId`, with no misses.
   */
  lemma UpdateFirstFrame(cfg: Config, t: Tracker, boxes: seq<Box>, rowOrder: seq<nat>, colOrder: seq<nat>)
    requires Valid(t) && t.tracks == [] && |boxes| > 0
    ensures var r := Update(cfg, t, boxes, rowOrder, colOrder);
      && r.nextId == t.nextId + |boxes|
      && |r.tracks| == |boxes|
      && (forall i :: 0 <= i < |boxes| ==> r.tracks[i] == Track(t.nextId + i, Centroid(boxes[i]), 0))
  {
    RegisteredFromNothing(cfg, t, boxes, rowOrder, colOrder);
  }

  /** A frame onto an empty tracker yields exactly the fresh records of its centroids. */
  lemma RegisteredFromNothing(cfg: Config, t: Tracker, boxes: seq<Box>, rowOrder: seq<nat>, colOrder: seq<nat>)
    requires Valid(t) && t.tracks == [] && |boxes| > 0
    ensures Update(cfg, t, boxes, rowOrder, colOrder).tracks == Fresh(t.nextId, Centroids(boxes))
  {
    var added := Fresh(t.nextId, Centroids(boxes));
    assert Update(cfg, t, boxes, rowOrder, colOrder) == Registered(t, [], Centroids(boxes));
    assert [] + added == added;
  }

  /**
   * What happens to one existing identity in a frame with boxes: bound to a
   * box, it takes that box's centroid and its misses reset to 0; unbound, it
   * misses a frame (and may be retired) when identities are at least as many
   * as boxes, and is left exactly as it was otherwise.
   */
  lemma UpdateIdentity(cfg: Config, t: Tracker, boxes: seq<Box>, rowOrder: seq<nat>, colOrder: seq<nat>, i: nat)
    requires Valid(t) && Choices(t, boxes, rowOrder, colOrder)
    requires |boxes| > 0 && i < |t.tracks|
    ensures var a := Assignment(cfg, t, boxes, rowOrder);
      var o := t.tracks[i];
      Find(Update(cfg, t, boxes, rowOrder, colOrder).tracks, o.id)
        == if a[i].Some? then Some(Track(o.id, Centroid(boxes[a[i].value]), 0))
           else if |t.tracks| >= |boxes| then Bump(o, cfg.maxDisappeared)
           else Some(o)
  {
    var cs := Centroids(boxes);
    var a := Assignment(cfg, t, boxes, rowOrder);
    var bound := Rebind(t.tracks, cs, a);
    assert StrictIds(bound);
    if |t.tracks| >= |boxes| {
      AgeFind(bound, Bound(a), cfg.maxDisappeared, i);
    } else {
      var r := Update(cfg, t, boxes, rowOrder, colOrder);
      var cols := NewColumns(colOrder, a, |boxes|);
      assert r.tracks == bound + Fresh(t.nextId, Pick(cs, cols));
      FindAppend(bound, Fresh(t.nextId, Pick(cs, cols)), t.tracks[i].id);
      FindAt(bound, i);
    }
  }

  /**
   * Closest first: when two identities propose the same box and the first is
   * strictly nearer to it and within the radius, the second is not bound to
   * any box this frame, so it is aged or left as it was.
   */
  lemma NearerIdentityWins(cfg: Config, t: Tracker, boxes: seq<Box>, rowOrder: seq<nat>, colOrder: seq<nat>,
                           i: nat, j: nat)
    requires Valid(t) && Choices(t, boxes, rowOrder, colOrder)
    requires |boxes| > 0 && i < |t.tracks| && j < |t.tracks|
    requires ArgMin(t.tracks[i].c, Centroids(boxes)) == ArgMin(t.tracks[j].c, Centroids(boxes))
    requires var c := Centroid(boxes[ArgMin(t.tracks[i].c, Centroids(boxes))]);
      Dist2(t.tracks[i].c, c) < Dist2(t.tracks[j].c, c) && Within(Dist2(t.tracks[i].c, c), cfg.maxDistance)
    ensures Assignment(cfg, t, boxes, rowOrder)[j].None?
    ensures Find(Update(cfg, t, boxes, rowOrder, colOrder).tracks, t.tracks[j].id)
      == if |t.tracks| >= |boxes| then Bump(t.tracks[j], cfg.maxDisappeared) else Some(t.tracks[j])
  {
    var rows := Positions(t.tracks);
    var cs := Centroids(boxes);
    var key := RowKeys(rows, cs);
    assert rows[i] == t.tracks[i].c && rows[j] == t.tracks[j].c;
    assert key[i] < key[j];
    var p, q := SmallerKeyFirst(rowOrder, key, i, j);
    GreedyLaterLoses(rows, cs, rowOrder, cfg.maxDistance, p, q);
    UpdateIdentity(cfg, t, boxes, rowOrder, colOrder, j);
  }

  /**
   * When boxes outnumber identities, nothing is aged and exactly the unbound
   * boxes are registered, each once, under consecutive fresh ids.
   */
  lemma UpdateGrowth(cfg: Config, t: Tracker, boxes: seq<Box>, rowOrder: seq<nat>, colOrder: seq<nat>)
    requires Valid(t) && Choices(t, boxes, rowOrder, colOrder)
    requires 0 < |t.tracks| < |boxes|
    ensures var a := Assignment(cfg, t, boxes, rowOrder);
      var cols := NewColumns(colOrder, a, |boxes|);
      var r := Update(cfg, t, boxes, rowOrder, colOrder);
      && r.nextId == t.nextId + |cols|
      && |r.tracks| == |t.tracks| + |cols|
      && r.tracks[|t.tracks|..] == Fresh(t.nextId, Pick(Centroids(boxes), cols))
  {
    var a := Assignment(cfg, t, boxes, rowOrder);
    var cols := NewColumns(colOrder, a, |boxes|);
    var kept := Rebind(t.tracks, Centroids(boxes), a);
    GrowthShape(cfg, t, boxes, rowOrder, colOrder);
    assert (kept + Fresh(t.nextId, Pick(Centroids(boxes), cols)))[|kept|..] == Fresh(t.nextId, Pick(Centroids(boxes), cols));
  }

  /** A growth frame is the rebound identities followed by the fresh records of the unbound boxes. */
  lemma GrowthShape(cfg: Config, t: Tracker, boxes: seq<Box>, rowOrder: seq<nat>, colOrder: seq<nat>)
    requires Valid(t) && Choices(t, boxes, rowOrder, colOrder)
    requires 0 < |t.tracks| < |boxes|
    ensures var a := Assignment(cfg, t, boxes, rowOrder);
      var cols := NewColumns(colOrder, a, |boxes|);
      var r := Update(cfg, t, boxes, rowOrder, colOrder);
      && r.nextId == t.nextId + |cols|
      && r.tracks == Rebind(t.tracks, Centroids(boxes), a) + Fresh(t.nextId, Pick(Centroids(boxes), cols))
  {
    assert Update(cfg, t, boxes, rowOrder, colOrder) == Associate(cfg, t, boxes, rowOrder, colOrder);
  }

  /**
   * Growth and shrinking never happen in the same frame: if any id was
   * registered, every existing identity survives and none gained a miss.
   */
  lemma GrowthExcludesAgeing(cfg: Config, t: Tracker, boxes: seq<Box>, rowOrder: seq<nat>, colOrder: seq<nat>)
    requires Valid(t) && Choices(t, boxes, rowOrder, colOrder)
    ensures var r := Update(cfg, t, boxes, rowOrder, colOrder);
      r.nextId != t.nextId ==>
        forall i :: 0 <= i < |t.tracks| ==>
          Find(r.tracks, t.tracks[i].id).Some? && Find(r.tracks, t.tracks[i].id).value.misses <= t.tracks[i].misses
  {
    var r := Update(cfg, t, boxes, rowOrder, colOrder);
    if r.nextId != t.nextId {
      if |boxes| == 0 {
        UpdateNoBoxes(cfg, t, rowOrder, colOrder);
      } else if |t.tracks| > 0 {
        assert |t.tracks| < |boxes|;
        forall i | 0 <= i < |t.tracks|
          ensures Find(r.tracks, t.tracks[i].id).Some? && Find(r.tracks, t.tracks[i].id).value.misses <= t.tracks[i].misses
        {
          UpdateIdentity(cfg, t, boxes, rowOrder, colOrder, i);
        }
      }
    }
  }

  /**
   * When identities are at least as many as boxes, no id is registered: the
   * unbound boxes are dropped.
   */
  lemma ShrinkRegistersNothing(cfg: Config, t: Tracker, boxes: seq<Box>, rowOrder: seq<nat>, colOrder: seq<nat>)
    requires Valid(t) && Choices(t, boxes, rowOrder, colOrder)
    requires |t.tracks| >= |boxes|
    ensures var r := Update(cfg, t, boxes, rowOrder, colOrder);
      && r.nextId == t.nextId
      && forall k :: 0 <= k < |r.tracks| ==> Find(t.tracks, r.tracks[k].id).Some?
  {
  }

  /**
   * Ids are never reused: an id already handed out and no longer tracked
   * stays absent after any later frame.
   */
  lemma RetiredStaysRetired(cfg: Config, t: Tracker, boxes: seq<Box>, rowOrder: seq<nat>, colOrder: seq<nat>, id: nat)
    requires Valid(t) && Choices(t, boxes, rowOrder, colOrder)
    requires id < t.nextId && Find(t.tracks, id).None?
    ensures var r := Update(cfg, t, boxes, rowOrder, colOrder);
      id < r.nextId && Find(r.tracks, id).None?
  {
  }

  /**
   * A frame without boxes is the source's loop over the keys in creation
   * order: one more miss each, retiring those past `maxDisappeared`.
   */
  lemma UpdateNoBoxesIsLoop(cfg: Config, t: Tracker, rowOrder: seq<nat>, colOrder: seq<nat>)
    requires Valid(t)
    ensures Update(cfg, t, [], rowOrder, colOrder).tracks == MissAll(t.tracks, Ids(t.tracks), cfg.maxDisappeared)
  {
    var ids := Ids(t.tracks);
    var held := Unheld(|t.tracks|);
    forall i | 0 <= i < |t.tracks| ensures t.tracks[i].id in ids <==> !held[i] {
      assert ids[i] == t.tracks[i].id;
    }
    forall k | 0 <= k < |ids| ensures Find(t.tracks, ids[k]).Some? {
      FindAt(t.tracks, k);
    }
    AgeIsLoop(t.tracks, held, cfg.maxDisappeared, ids);
  }

  /**
   * When identities are at least as many as boxes, the unmatched identities
   * are aged by the source's loop over the unused rows, in any order: after
   * the matched ones are rebound, each listed id gains a miss and is retired
   * past `maxDisappeared`.
   */
  lemma UnmatchedAgeingIsLoop(cfg: Config, t: Tracker, boxes: seq<Box>, rowOrder: seq<nat>, colOrder: seq<nat>,
                              ids: seq<nat>)
    requires Valid(t) && Choices(t, boxes, rowOrder, colOrder)
    requires 0 < |boxes| <= |t.tracks|
    requires Distinct(ids)
    requires forall i :: 0 <= i < |t.tracks| ==>
      (t.tracks[i].id in ids <==> Assignment(cfg, t, boxes, rowOrder)[i].None?)
    requires forall k :: 0 <= k < |ids| ==> Find(t.tracks, ids[k]).Some?
    ensures Update(cfg, t, boxes, rowOrder, colOrder).tracks
      == MissAll(Rebind(t.tracks, Centroids(boxes), Assignment(cfg, t, boxes, rowOrder)), ids, cfg.maxDisappeared)
  {
    var a := Assignment(cfg, t, boxes, rowOrder);
    var bound := Rebind(t.tracks, Centroids(boxes), a);
    assert Update(cfg, t, boxes, rowOrder, colOrder).tracks == Age(bound, Bound(a), cfg.maxDisappeared);
    RebindAgeIsLoop(t.tracks, Centroids(boxes), a, cfg.maxDisappeared, ids);
  }

  /** Ageing the unbound records of a rebinding is missing each listed unbound id once. */
  lemma RebindAgeIsLoop(s: seq<Track>, cs: seq<Point>, a: seq<Option<nat>>, maxDisappeared: int, ids: seq<nat>)
    requires |a| == |s| && StrictIds(s)
    requires forall i :: 0 <= i < |a| && a[i].Some? ==> a[i].value < |cs|
    requires Distinct(ids)
    requires forall i :: 0 <= i < |s| ==> (s[i].id in ids <==> a[i].None?)
    requires forall k :: 0 <= k < |ids| ==> Find(s, ids[k]).Some?
    ensures Age(Rebind(s, cs, a), Bound(a), maxDisappeared) == MissAll(Rebind(s, cs, a), ids, maxDisappeared)
  {
    var bound := Rebind(s, cs, a);
    var held := Bound(a);
    assert StrictIds(bound) by {
      forall p, q | 0 <= p < q < |bound| ensures bound[p].id < bound[q].id {
        assert bound[p].id == s[p].id && bound[q].id == s[q].id;
      }
    }
    forall i | 0 <= i < |bound| ensures bound[i].id in ids <==> !held[i] {
      assert bound[i].id == s[i].id;
    }
    forall k | 0 <= k < |ids| ensures Find(bound, ids[k]).Some? {
      var i := FindIndex(s, ids[k]);
      FindAt(bound, i);
    }
    AgeIsLoop(bound, held, maxDisappeared, ids);
  }
}
