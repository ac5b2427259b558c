/**
 * The tracked identities of the centroid tracker: one record per identity,
 * kept in creation order, with the operations that create, retire and age
 * them. A single sequence of records stands for the two parallel ordered
 * dictionaries of the source (id -> centroid and id -> miss count), which
 * always hold the same keys in the same order.
 */
module Tracks {
  import opened Basics
  import opened Geometry

  /** One tracked identity: its id, last known centroid and consecutive misses. */
  datatype Track = Track(id: nat, c: Point, misses: nat)

  /** Ids strictly increase along the sequence (creation order, no duplicates). */
  predicate StrictIds(s: seq<Track>) {
    forall p, q :: 0 <= p < q < |s| ==> s[p].id < s[q].id
  }

  /** Every id in `s` is below `bound`. */
  predicate IdsBelow(s: seq<Track>, bound: nat) {
    forall i :: 0 <= i < |s| ==> s[i].id < bound
  }

  /** The record stored under `id`, if any. */
  function Find(s: seq<Track>, id: nat): (r: Option<Track>)
    ensures r.Some? ==> r.value.id == id
    ensures r.None? <==> forall i :: 0 <= i < |s| ==> s[i].id != id
  {
    if s == [] then None
    else if s[0].id == id then Some(s[0])
    else Find(s[1..], id)
  }

  /** A record that is found is one of the records, at some position. */
  lemma {:induction false} FindIndex(s: seq<Track>, id: nat) returns (i: nat)
    requires Find(s, id).Some?
    ensures i < |s| && s[i] == Find(s, id).value
  {
    if s[0].id == id {
      i := 0;
    } else {
      var j := FindIndex(s[1..], id);
      i := j + 1;
    }
  }

  /** With distinct ids, looking up a record's own id finds that record. */
  lemma {:induction false} FindAt(s: seq<Track>, i: nat)
    requires StrictIds(s) && i < |s|
    ensures Find(s, s[i].id) == Some(s[i])
  {
    if i > 0 {
      assert s[0].id < s[i].id;
      assert s[1..][i - 1] == s[i];
      FindAt(s[1..], i - 1);
    }
  }

  /** A lookup in a sequence with a first record tries that record first. */
  lemma FindCons(h: Track, rest: seq<Track>, id: nat)
    ensures Find([h] + rest, id) == if h.id == id then Some(h) else Find(rest, id)
  {
    assert ([h] + rest)[1..] == rest;
  }

  /** A lookup in a concatenation tries the left part first. */
  lemma {:induction false} FindAppend(s: seq<Track>, u: seq<Track>, id: nat)
    ensures Find(s + u, id) == if Find(s, id).Some? then Find(s, id) else Find(u, id)
  {
    if s != [] {
      assert (s + u)[1..] == s[1..] + u;
      FindAppend(s[1..], u, id);
    } else {
      assert s + u == u;
    }
  }

  /** The records a batch of registrations appends: ids `first`, `first + 1`, ... */
  function Fresh(first: nat, cs: seq<Point>): (r: seq<Track>)
    ensures |r| == |cs|
    ensures forall k :: 0 <= k < |r| ==> r[k] == Track(first + k, cs[k], 0)
  {
    seq(|cs|, k requires 0 <= k < |cs| => Track(first + k, cs[k], 0))
  }

  /**
   * Retiring an id (`eliminar_registro`): the record under `id` disappears and
   * every other record stays, in the same order.
   */
  function Deregister(s: seq<Track>, id: nat): (r: seq<Track>)
    ensures Find(r, id).None?
    ensures forall other :: other != id ==> Find(r, other) == Find(s, other)
    ensures Find(s, id).None? ==> r == s
    ensures forall k :: 0 <= k < |r| ==> r[k] in s
  {
    if s == [] then []
    else if s[0].id == id then Deregister(s[1..], id)
    else [s[0]] + Deregister(s[1..], id)
  }

  /** Retiring an id that is present keeps the others ordered and shortens the sequence by one. */
  lemma {:induction false} DeregisterShrinks(s: seq<Track>, id: nat)
    requires StrictIds(s) && Find(s, id).Some?
    ensures StrictIds(Deregister(s, id)) && |Deregister(s, id)| == |s| - 1
  {
    if s[0].id == id {
      DeregisterHead(s);
    } else {
      var tail := s[1..];
      assert StrictIds(tail);
      DeregisterShrinks(tail, id);
      var rest := Deregister(tail, id);
      assert Deregister(s, id) == [s[0]] + rest;
      TailAbove(s);
      ConsStrict(s[0], rest);
    }
  }

  /** In a strictly ordered sequence every later record has a larger id than the first. */
  lemma TailAbove(s: seq<Track>)
    requires StrictIds(s) && |s| > 0
    ensures forall x :: x in s[1..] ==> s[0].id < x.id
  {
    forall x | x in s[1..] ensures s[0].id < x.id {
      var j :| 0 <= j < |s[1..]| && s[1..][j] == x;
      assert s[j + 1] == x;
    }
  }

  /** Putting a record with a smaller id in front of an ordered sequence keeps it ordered. */
  lemma ConsStrict(h: Track, rest: seq<Track>)
    requires StrictIds(rest)
    requires forall k :: 0 <= k < |rest| ==> h.id < rest[k].id
    ensures StrictIds([h] + rest)
  {
    var r := [h] + rest;
    forall p, q | 0 <= p < q < |r| ensures r[p].id < r[q].id {
      assert r[q] == rest[q - 1];
      if p > 0 {
        assert r[p] == rest[p - 1];
      }
    }
  }

  /** Retiring the oldest id leaves exactly the younger records. */
  lemma DeregisterHead(s: seq<Track>)
    requires StrictIds(s) && |s| > 0
    ensures Deregister(s, s[0].id) == s[1..]
  {
    forall i | 0 <= i < |s[1..]| ensures s[1..][i].id != s[0].id {
      assert s[1..][i] == s[i + 1];
    }
  }

  /**
   * One more missed frame for a record: the count goes up by one, and the
   * record is retired (None) once the count exceeds `maxDisappeared`.
   */
  function Bump(o: Track, maxDisappeared: int): (r: Option<Track>)
    ensures r.None? <==> o.misses + 1 > maxDisappeared
    ensures r.Some? ==> r.value == Track(o.id, o.c, o.misses + 1)
  {
    if o.misses + 1 > maxDisappeared then None else Some(o.(misses := o.misses + 1))
  }

  /**
   * Ageing: every record not `held` misses one more frame and is retired past
   * the threshold; held records stay as they are. The source does this with a
   * loop of increments and `eliminar_registro` calls; each record is handled
   * independently, so the loop's order does not matter.
   */
  function Age(s: seq<Track>, held: seq<bool>, maxDisappeared: int): (r: seq<Track>)
    requires |held| == |s|
    ensures |r| <= |s|
    ensures StrictIds(s) ==> StrictIds(r)
    ensures StrictIds(s) && |s| > 0 ==> forall k :: 0 <= k < |r| ==> s[0].id <= r[k].id
  {
    if s == [] then []
    else
      var rest := Age(s[1..], held[1..], maxDisappeared);
      var head := if held[0] then Some(s[0]) else Bump(s[0], maxDisappeared);
      assert StrictIds(s) ==> forall k :: 0 <= k < |rest| ==> s[0].id < rest[k].id by {
        if StrictIds(s) && |rest| > 0 {
          assert s[1..][0] == s[1];
        }
      }
      if head.Some? then [head.value] + rest else rest
  }

  /** Ageing creates no id: every record it keeps is found under its id in the input. */
  lemma {:induction false} AgeIds(s: seq<Track>, held: seq<bool>, maxDisappeared: int)
    requires |held| == |s|
    ensures forall k :: 0 <= k < |Age(s, held, maxDisappeared)| ==> Find(s, Age(s, held, maxDisappeared)[k].id).Some?
  {
    if s != [] {
      var r := Age(s, held, maxDisappeared);
      var rest := Age(s[1..], held[1..], maxDisappeared);
      AgeIds(s[1..], held[1..], maxDisappeared);
      forall k | 0 <= k < |r| ensures Find(s, r[k].id).Some? {
        if |r| == |rest| + 1 {
          if k > 0 {
            assert r[k] == rest[k - 1];
          }
        } else {
          assert r[k] == rest[k];
        }
      }
    }
  }

  /** No record held: what a frame without boxes passes to `Age`. */
  function Unheld(n: nat): (held: seq<bool>)
    ensures |held| == n
    ensures forall k :: 0 <= k < n ==> !held[k]
  {
    if n == 0 then [] else [false] + Unheld(n - 1)
  }

  /** After ageing, each original id is found held, bumped, or retired. */
  lemma {:induction false} AgeFind(s: seq<Track>, held: seq<bool>, maxDisappeared: int, i: nat)
    requires |held| == |s| && StrictIds(s) && i < |s|
    ensures Find(Age(s, held, maxDisappeared), s[i].id)
         == (if held[i] then Some(s[i]) else Bump(s[i], maxDisappeared))
  {
    var rest := Age(s[1..], held[1..], maxDisappeared);
    var head := if held[0] then Some(s[0]) else Bump(s[0], maxDisappeared);
    assert Age(s, held, maxDisappeared) == if head.Some? then [head.value] + rest else rest;
    assert StrictIds(s[1..]);
    if head.Some? {
      FindCons(head.value, rest, s[i].id);
    }
    if i == 0 {
      if |rest| > 0 {
        assert s[1..][0] == s[1];
      }
    } else {
      assert s[1..][i - 1] == s[i];
      assert s[0].id < s[i].id;
      AgeFind(s[1..], held[1..], maxDisappeared, i - 1);
    }
  }

  /**
   * `registrar`: a new record for the centroid, with no misses, goes after
   * every existing one (an ordered dictionary appends a new key at the end).
   */
  function Register(nextId: nat, s: seq<Track>, c: Point): (r: seq<Track>)
    ensures |r| == |s| + 1 && r[..|s|] == s && r[|s|] == Track(nextId, c, 0)
    ensures StrictIds(s) && IdsBelow(s, nextId) ==> StrictIds(r) && IdsBelow(r, nextId + 1)
  {
    s + [Track(nextId, c, 0)]
  }

  /**
   * Looking ids up after `registrar`: an unused id now finds the new record,
   * and every other id finds what it found before.
   */
  lemma RegisterFind(nextId: nat, s: seq<Track>, c: Point)
    ensures IdsBelow(s, nextId) ==> Find(Register(nextId, s, c), nextId) == Some(Track(nextId, c, 0))
    ensures Find(s, nextId).None? ==> Find(Register(nextId, s, c), nextId) == Some(Track(nextId, c, 0))
    ensures forall id :: id != nextId ==> Find(Register(nextId, s, c), id) == Find(s, id)
  {
    forall id ensures Find(Register(nextId, s, c), id)
        == if Find(s, id).Some? then Find(s, id) else Find([Track(nextId, c, 0)], id) {
      FindAppend(s, [Track(nextId, c, 0)], id);
    }
  }

  /**
   * Registering a batch of centroids one after the other, in order: they get
   * consecutive ids starting at `nextId`, appended after the existing records.
   */
  function RegisterAll(nextId: nat, s: seq<Track>, cs: seq<Point>): (r: (nat, seq<Track>))
    ensures r.0 == nextId + |cs|
    ensures r.1 == s + Fresh(nextId, cs)
    decreases |cs|
  {
    if cs == [] then (nextId, s)
    else
      var s1 := Register(nextId, s, cs[0]);
      var r := RegisterAll(nextId + 1, s1, cs[1..]);
      assert r.1 == s + Fresh(nextId, cs) by {
        FreshCons(nextId, cs);
      }
      r
  }

  /** The first fresh record, then the rest under the following ids. */
  lemma FreshCons(nextId: nat, cs: seq<Point>)
    requires |cs| > 0
    ensures Fresh(nextId, cs) == [Track(nextId, cs[0], 0)] + Fresh(nextId + 1, cs[1..])
  {
    var r := [Track(nextId, cs[0], 0)] + Fresh(nextId + 1, cs[1..]);
    forall k | 0 <= k < |cs| ensures Fresh(nextId, cs)[k] == r[k] {
      if k > 0 {
        assert r[k] == Fresh(nextId + 1, cs[1..])[k - 1];
        assert cs[1..][k - 1] == cs[k];
      }
    }
  }

  /** Appending fresh records above every existing id keeps the ids ordered and bounded. */
  lemma {:induction false} FreshKeepsOrder(s: seq<Track>, nextId: nat, cs: seq<Point>)
    requires StrictIds(s) && IdsBelow(s, nextId)
    ensures StrictIds(s + Fresh(nextId, cs)) && IdsBelow(s + Fresh(nextId, cs), nextId + |cs|)
  {
    var r := s + Fresh(nextId, cs);
    forall p, q | 0 <= p < q < |r| ensures r[p].id < r[q].id {
      if q < |s| {
      } else if p < |s| {
        assert r[q].id == nextId + (q - |s|);
      } else {
        assert r[p].id == nextId + (p - |s|);
        assert r[q].id == nextId + (q - |s|);
      }
    }
  }

  /** The ids of `s` in order. */
  function Ids(s: seq<Track>): (ids: seq<nat>)
    ensures |ids| == |s|
    ensures forall k :: 0 <= k < |s| ==> ids[k] == s[k].id
  {
    seq(|s|, k requires 0 <= k < |s| => s[k].id)
  }

  /** `desaparecidos[id] += 1`: the record under `id` gains a miss, in place. */
  function Increment(s: seq<Track>, id: nat): (r: seq<Track>)
    ensures |r| == |s|
  {
    if s == [] then []
    else [if s[0].id == id then Track(id, s[0].c, s[0].misses + 1) else s[0]] + Increment(s[1..], id)
  }

  /** Looking ids up after `Increment`: only `id`'s record changes, by one miss. */
  lemma {:induction false} IncrementFind(s: seq<Track>, id: nat, x: nat)
    ensures Find(Increment(s, id), x)
      == if Find(s, x).None? then None
         else if x == id then Some(Track(x, Find(s, x).value.c, Find(s, x).value.misses + 1))
         else Find(s, x)
  {
    if s != [] {
      var head := if s[0].id == id then Track(id, s[0].c, s[0].misses + 1) else s[0];
      var rest := Increment(s[1..], id);
      assert Increment(s, id) == [head] + rest;
      FindCons(head, rest, x);
      if s[0].id == x {
        assert Find(s, x) == Some(s[0]);
      } else {
        assert Find(s, x) == Find(s[1..], x);
        IncrementFind(s[1..], id, x);
      }
    }
  }

  /**
   * One pass of the source's ageing loop for `id`: one more miss, then
   * `eliminar_registro` once the count exceeds `maxDisappeared`.
   */
  function Miss(s: seq<Track>, id: nat, maxDisappeared: int): (r: seq<Track>) {
    var bumped := Increment(s, id);
    if Find(bumped, id).Some? && Find(bumped, id).value.misses > maxDisappeared then Deregister(bumped, id)
    else bumped
  }

  /** `Increment` keeps every id in place. */
  lemma {:induction false} IncrementIds(s: seq<Track>, id: nat)
    ensures forall k :: 0 <= k < |s| ==> Increment(s, id)[k].id == s[k].id
  {
    if s != [] {
      IncrementIds(s[1..], id);
      var head := if s[0].id == id then Track(id, s[0].c, s[0].misses + 1) else s[0];
      var rest := Increment(s[1..], id);
      assert Increment(s, id) == [head] + rest;
      forall k | 0 < k < |s| ensures Increment(s, id)[k].id == s[k].id {
        assert Increment(s, id)[k] == rest[k - 1];
        assert s[1..][k - 1] == s[k];
      }
    }
  }

  /** `Increment` keeps the ids ordered. */
  lemma IncrementStrict(s: seq<Track>, id: nat)
    requires StrictIds(s)
    ensures StrictIds(Increment(s, id))
  {
    var bumped := Increment(s, id);
    IncrementIds(s, id);
    forall p, q | 0 <= p < q < |bumped| ensures bumped[p].id < bumped[q].id {
      assert bumped[p].id == s[p].id && bumped[q].id == s[q].id;
    }
  }

  /** One pass affects only `id`, exactly as `Bump` describes, and keeps ids ordered. */
  lemma MissFind(s: seq<Track>, id: nat, maxDisappeared: int, x: nat)
    requires StrictIds(s)
    ensures StrictIds(Miss(s, id, maxDisappeared))
    ensures Find(Miss(s, id, maxDisappeared), x)
      == if x == id && Find(s, x).Some? then Bump(Find(s, x).value, maxDisappeared) else Find(s, x)
  {
    var bumped := Increment(s, id);
    IncrementStrict(s, id);
    IncrementFind(s, id, x);
    IncrementFind(s, id, id);
    if Find(bumped, id).Some? && Find(bumped, id).value.misses > maxDisappeared {
      var r := Deregister(bumped, id);
      assert Miss(s, id, maxDisappeared) == r;
      DeregisterShrinks(bumped, id);
      if x != id {
        assert Find(r, x) == Find(bumped, x);
      }
    } else {
      assert Miss(s, id, maxDisappeared) == bumped;
    }
  }

  /** The source's ageing loop over `ids`, in that order. */
  function MissAll(s: seq<Track>, ids: seq<nat>, maxDisappeared: int): (r: seq<Track>)
    decreases |ids|
  {
    if ids == [] then s else MissAll(Miss(s, ids[0], maxDisappeared), ids[1..], maxDisappeared)
  }

  /** After the loop, each listed id has been bumped once (or retired) and every other id is untouched. */
  lemma {:induction false} MissAllFind(s: seq<Track>, ids: seq<nat>, maxDisappeared: int, x: nat)
    requires StrictIds(s) && Distinct(ids)
    ensures StrictIds(MissAll(s, ids, maxDisappeared))
    ensures Find(MissAll(s, ids, maxDisappeared), x)
      == if x in ids && Find(s, x).Some? then Bump(Find(s, x).value, maxDisappeared) else Find(s, x)
    decreases |ids|
  {
    if ids != [] {
      var s1 := Miss(s, ids[0], maxDisappeared);
      MissFind(s, ids[0], maxDisappeared, x);
      assert Distinct(ids[1..]);
      MissAllFind(s1, ids[1..], maxDisappeared, x);
      if x == ids[0] {
        assert x !in ids[1..] by {
          forall k | 0 <= k < |ids[1..]| ensures ids[1..][k] != x {
            assert ids[1..][k] == ids[k + 1];
          }
        }
      } else {
        assert x in ids[1..] <==> x in ids;
      }
    }
  }

  /**
   * The ageing loop walks a snapshot of the keys, so every key it reaches is
   * still present: neither `desaparecidos[id] += 1` nor `eliminar_registro(id)`
   * is ever applied to a missing id.
   */
  lemma LoopKeysPresent(s: seq<Track>, ids: seq<nat>, maxDisappeared: int, k: nat)
    requires StrictIds(s) && Distinct(ids) && k < |ids|
    requires forall j :: 0 <= j < |ids| ==> Find(s, ids[j]).Some?
    ensures Find(MissAll(s, ids[..k], maxDisappeared), ids[k]) == Find(s, ids[k])
    ensures Find(Increment(MissAll(s, ids[..k], maxDisappeared), ids[k]), ids[k]).Some?
  {
    var before := MissAll(s, ids[..k], maxDisappeared);
    assert Distinct(ids[..k]);
    MissAllFind(s, ids[..k], maxDisappeared, ids[k]);
    assert ids[k] !in ids[..k];
    IncrementFind(before, ids[k], ids[k]);
  }

  /** In an ordered sequence, no id at or below the first one is found in the rest, nor one below it at all. */
  lemma NotAboveHead(s: seq<Track>, x: nat)
    requires StrictIds(s) && |s| > 0 && x <= s[0].id
    ensures Find(s[1..], x).None?
    ensures x < s[0].id ==> Find(s, x).None?
  {
    forall k | 0 <= k < |s[1..]| ensures s[1..][k].id != x {
      assert s[1..][k] == s[k + 1];
    }
  }

  /** Two ordered sequences with the same lookups are the same sequence. */
  lemma {:induction false} LookupsDetermine(a: seq<Track>, b: seq<Track>)
    requires StrictIds(a) && StrictIds(b)
    requires forall x :: Find(a, x) == Find(b, x)
    ensures a == b
    decreases |a| + |b|
  {
    if a == [] {
      if b != [] {
        assert Find(a, b[0].id) != Find(b, b[0].id);
      }
    } else if b == [] {
      assert Find(a, a[0].id) != Find(b, a[0].id);
    } else {
      if a[0].id < b[0].id {
        NotAboveHead(b, a[0].id);
        assert false;
      } else if b[0].id < a[0].id {
        NotAboveHead(a, b[0].id);
        assert false;
      } else {
        assert a[0] == b[0] by {
          assert Find(a, a[0].id) == Find(b, a[0].id);
        }
        TailsAgree(a, b);
        LookupsDetermine(a[1..], b[1..]);
        assert a == [a[0]] + a[1..] && b == [b[0]] + b[1..];
      }
    }
  }

  /** Same first record and same lookups: the rests have the same lookups too. */
  lemma TailsAgree(a: seq<Track>, b: seq<Track>)
    requires StrictIds(a) && StrictIds(b) && |a| > 0 && |b| > 0 && a[0] == b[0]
    requires forall x :: Find(a, x) == Find(b, x)
    ensures StrictIds(a[1..]) && StrictIds(b[1..])
    ensures forall x :: Find(a[1..], x) == Find(b[1..], x)
  {
    forall x ensures Find(a[1..], x) == Find(b[1..], x) {
      if x == a[0].id {
        NotAboveHead(a, x);
        NotAboveHead(b, x);
      } else {
        assert Find(a, x) == Find(b, x);
      }
    }
  }

  /**
   * `Age` is the source's loop: bumping and retiring the unheld ids one at a
   * time, in any order without repeats, gives the same sequence.
   */
  lemma AgeIsLoop(s: seq<Track>, held: seq<bool>, maxDisappeared: int, ids: seq<nat>)
    requires |held| == |s| && StrictIds(s) && Distinct(ids)
    requires forall i :: 0 <= i < |s| ==> (s[i].id in ids <==> !held[i])
    requires forall k :: 0 <= k < |ids| ==> Find(s, ids[k]).Some?
    ensures MissAll(s, ids, maxDisappeared) == Age(s, held, maxDisappeared)
  {
    var aged := Age(s, held, maxDisappeared);
    var looped := MissAll(s, ids, maxDisappeared);
    MissAllFind(s, ids, maxDisappeared, 0);
    forall x ensures Find(looped, x) == Find(aged, x) {
      MissAllFind(s, ids, maxDisappeared, x);
      if Find(s, x).Some? {
        var i := FindIndex(s, x);
        AgeFind(s, held, maxDisappeared, i);
      } else {
        AgeIds(s, held, maxDisappeared);
      }
    }
    LookupsDetermine(looped, aged);
  }
}
