/**
 The session tally of the plicker reader: an insertion-ordered table from a
 student's name to the first and the most recent answer option seen for that
 student, bounded by the session's student count.

 This module holds the value-level rule (one detection result applied to a
 table, and a whole sequence of results applied in order), an independent
 reference description of what a sequence of results leaves behind, and the
 lemmas that connect the two.
 */
module Tally {

  /** One detection result as produced by the frame processor: the student's
      name and the answer option read off the card. */
  datatype Detection = Detection(name: string, code: string)

  /** The value stored per student: the option first seen and the latest one. */
  datatype Answer = Answer(first: string, last: string)

  /** An insertion-ordered dictionary: `keys` is the iteration order and
      `entries` the contents. Its length is `|keys|`. */
  datatype Table = Table(keys: seq<string>, entries: map<string, Answer>)

  /** The empty table a new session starts from. */
  const Empty: Table := Table([], map[])

  function Max(a: int, b: int): int { if a < b then b else a }

  predicate Distinct(s: seq<string>)
  {
    forall i, j :: 0 <= i < j < |s| ==> s[i] != s[j]
  }

  /** The key order lists every key of the dictionary exactly once. */
  predicate WellFormed(t: Table)
  {
    && Distinct(t.keys)
    && (forall n :: n in t.entries ==> n in t.keys)
    && (forall n :: n in t.keys ==> n in t.entries)
  }

  /** The first `k` elements of `s` (all of them if `s` is shorter, none if `k <= 0`). */
  function Take(s: seq<string>, k: int): (r: seq<string>)
    ensures |r| == if k <= 0 then 0 else if k < |s| then k else |s|
    ensures r <= s
  {
    if k <= 0 then [] else if k < |s| then s[..k] else s
  }

  // ---------------------------------------------------------------------
  // The aggregation rule
  // ---------------------------------------------------------------------

  /** Applies one detection result to the table, `capacity` being the
      session's student count. */
  function Admit(t: Table, capacity: int, d: Detection): (r: Table)
    ensures WellFormed(t) ==> WellFormed(r)
    // only the entry keyed by the result's name can change
    ensures forall n :: n != d.name ==>
              (n in r.entries <==> n in t.entries) &&
              (n in t.entries ==> r.entries[n] == t.entries[n])
    // a known name: only `last` moves, the order and the size stay
    ensures d.name in t.entries ==>
              r.keys == t.keys && d.name in r.entries &&
              r.entries[d.name] == Answer(t.entries[d.name].first, d.code)
    // a new name with room left: appended, first and last both the code
    ensures d.name !in t.entries && |t.keys| < capacity ==>
              r.keys == t.keys + [d.name] && d.name in r.entries &&
              r.entries[d.name] == Answer(d.code, d.code)
    // a new name when the table is full: dropped
    ensures d.name !in t.entries && |t.keys| >= capacity ==> r == t
  {
    if d.name in t.entries then
      Table(t.keys, t.entries[d.name := Answer(t.entries[d.name].first, d.code)])
    else if |t.keys| < capacity then
      Table(t.keys + [d.name], t.entries[d.name := Answer(d.code, d.code)])
    else
      t
  }

  /** Applies a sequence of detection results in order. */
  function AdmitAll(t: Table, capacity: int, ds: seq<Detection>): (r: Table)
    decreases |ds|
    ensures WellFormed(t) ==> WellFormed(r)
    // keys are only ever appended: earlier keys keep their places
    ensures t.keys <= r.keys
    // nobody is removed and a recorded `first` is never overwritten
    ensures forall n :: n in t.entries ==> n in r.entries && r.entries[n].first == t.entries[n].first
  {
    if ds == [] then t
    else Admit(AdmitAll(t, capacity, ds[..|ds| - 1]), capacity, ds[|ds| - 1])
  }

  // ---------------------------------------------------------------------
  // Reference description of the outcome of a sequence of results
  // ---------------------------------------------------------------------

  /** Some result in `ds` carries the name `n`. */
  predicate Occurs(ds: seq<Detection>, n: string)
  {
    exists i :: 0 <= i < |ds| && ds[i].name == n
  }

  /** The names of `ds` that are not in `known`, each once, in the order of
      their first appearance. */
  function FreshNames(ds: seq<Detection>, known: seq<string>): seq<string>
    decreases |ds|
  {
    if ds == [] then []
    else
      var f := FreshNames(ds[..|ds| - 1], known);
      var n := ds[|ds| - 1].name;
      if n in known || n in f then f else f + [n]
  }

  /** The code carried by the first result named `n`. */
  function FirstCode(ds: seq<Detection>, n: string): string
    requires Occurs(ds, n)
  {
    if ds[0].name == n then ds[0].code
    else
      assert forall i :: 1 <= i < |ds| ==> ds[i] == ds[1..][i - 1];
      FirstCode(ds[1..], n)
  }

  /** The code carried by the last result named `n`. */
  function LastCode(ds: seq<Detection>, n: string): string
    requires Occurs(ds, n)
  {
    var k := |ds| - 1;
    if ds[k].name == n then ds[k].code
    else
      assert forall i :: 0 <= i < k ==> ds[i] == ds[..k][i];
      LastCode(ds[..k], n)
  }

  // ---------------------------------------------------------------------
  // Lemmas
  // ---------------------------------------------------------------------

  lemma OccursPrefix(ds: seq<Detection>, d: Detection, n: string)
    ensures Occurs(ds + [d], n) <==> Occurs(ds, n) || d.name == n
  {
    var s := ds + [d];
    if Occurs(ds, n) {
      var i :| 0 <= i < |ds| && ds[i].name == n;
      assert s[i] == ds[i];
    }
    if d.name == n {
      assert s[|ds|] == d;
    }
    if Occurs(s, n) && d.name != n {
      var i :| 0 <= i < |s| && s[i].name == n;
      assert i < |ds| && ds[i] == s[i];
    }
  }

  /** Appending a result does not change the first code of a name that
      already occurred, and gives the appended code to a name that did not. */
  lemma {:induction false} FirstCodeAppend(ds: seq<Detection>, d: Detection, n: string)
    requires Occurs(ds, n) || d.name == n
    ensures Occurs(ds + [d], n)
    ensures FirstCode(ds + [d], n) == if Occurs(ds, n) then FirstCode(ds, n) else d.code
  {
    OccursPrefix(ds, d, n);
    var s := ds + [d];
    if ds == [] {
      assert s == [d];
    } else if ds[0].name == n {
      assert s[0] == ds[0];
    } else {
      assert s[0] == ds[0];
      assert s[1..] == ds[1..] + [d];
      assert Occurs(ds, n) ==> Occurs(ds[1..], n) by {
        if Occurs(ds, n) {
          var i :| 0 <= i < |ds| && ds[i].name == n;
          assert i >= 1 && ds[1..][i - 1] == ds[i];
        }
      }
      assert Occurs(ds[1..], n) ==> Occurs(ds, n) by {
        if Occurs(ds[1..], n) {
          var i :| 0 <= i < |ds[1..]| && ds[1..][i].name == n;
          assert ds[i + 1] == ds[1..][i];
        }
      }
      FirstCodeAppend(ds[1..], d, n);
    }
  }

  lemma {:induction false} FreshNamesContains(ds: seq<Detection>, known: seq<string>, n: string)
    ensures n in FreshNames(ds, known) <==> Occurs(ds, n) && n !in known
    decreases |ds|
  {
    if ds != [] {
      var k := |ds| - 1;
      assert ds == ds[..k] + [ds[k]];
      FreshNamesContains(ds[..k], known, n);
      OccursPrefix(ds[..k], ds[k], n);
    }
  }

  /** Applying results in two batches is applying them in one. */
  lemma {:induction false} AdmitAllConcat(t: Table, capacity: int, a: seq<Detection>, b: seq<Detection>)
    ensures AdmitAll(t, capacity, a + b) == AdmitAll(AdmitAll(t, capacity, a), capacity, b)
    decreases |b|
  {
    if b == [] {
      assert a + b == a;
    } else {
      var k := |b| - 1;
      assert (a + b)[..|a + b| - 1] == a + b[..k];
      assert (a + b)[|a + b| - 1] == b[k];
      AdmitAllConcat(t, capacity, a, b[..k]);
    }
  }

  /** Appending a name to `f` changes `Take(f, k)` only when `|f| < k`. */
  lemma TakeAppend(f: seq<string>, n: string, k: int)
    ensures |f| >= k ==> Take(f + [n], k) == Take(f, k)
    ensures |f| < k ==> Take(f + [n], k) == f + [n]
  {
    if 0 < k <= |f| {
      assert (f + [n])[..k] == f[..k];
    }
  }

  /** One result moves the key order from `base + Take(f, room)` to
      `base + Take(f', room)`, `f'` being `f` extended as `FreshNames` does. */
  lemma AdmitKeysStep(r0: Table, capacity: int, d: Detection, base: seq<string>, f: seq<string>)
    requires WellFormed(r0)
    requires r0.keys == base + Take(f, capacity - |base|)
    ensures Admit(r0, capacity, d).keys
            == base + Take(if d.name in base || d.name in f then f else f + [d.name], capacity - |base|)
  {
    var room := capacity - |base|;
    var tk := Take(f, room);
    if d.name in r0.entries {
      assert d.name in r0.keys;
      if d.name !in base {
        var i :| 0 <= i < |r0.keys| && r0.keys[i] == d.name;
        assert tk[i - |base|] == d.name;
        assert f[i - |base|] == d.name;
      }
    } else {
      assert d.name !in base && d.name !in tk;
      if |r0.keys| < capacity {
        assert tk == f;
      }
      TakeAppend(f, d.name, room);
    }
  }

  /** The key order after a sequence of results: the old keys, followed by
      the new names in the order they first appeared, cut off at the room
      that was left. */
  lemma {:induction false} AdmitAllKeys(t: Table, capacity: int, ds: seq<Detection>)
    requires WellFormed(t)
    ensures AdmitAll(t, capacity, ds).keys
            == t.keys + Take(FreshNames(ds, t.keys), capacity - |t.keys|)
    decreases |ds|
  {
    if ds != [] {
      var k := |ds| - 1;
      AdmitAllKeys(t, capacity, ds[..k]);
      AdmitKeysStep(AdmitAll(t, capacity, ds[..k]), capacity, ds[k], t.keys, FreshNames(ds[..k], t.keys));
    }
  }

  /** A name that occurred but is missing from the table was dropped because
      the table was full, and it stays full. */
  lemma {:induction false} AdmitAllDropped(t: Table, capacity: int, ds: seq<Detection>, n: string)
    requires Occurs(ds, n) && n !in AdmitAll(t, capacity, ds).entries
    ensures |AdmitAll(t, capacity, ds).keys| >= capacity
    decreases |ds|
  {
    var k := |ds| - 1;
    var d := ds[k];
    assert ds == ds[..k] + [d];
    OccursPrefix(ds[..k], d, n);
    var r0 := AdmitAll(t, capacity, ds[..k]);
    if Occurs(ds[..k], n) && n !in r0.entries {
      AdmitAllDropped(t, capacity, ds[..k], n);
    }
  }

  /** A name dropped for lack of room is never admitted later in the same
      session: no further results bring it in. */
  lemma DroppedStaysOut(t: Table, capacity: int, ds: seq<Detection>, ds': seq<Detection>, n: string)
    requires WellFormed(t)
    requires Occurs(ds, n) && n !in AdmitAll(t, capacity, ds).entries
    ensures n !in AdmitAll(AdmitAll(t, capacity, ds), capacity, ds').entries
  {
    var r := AdmitAll(t, capacity, ds);
    AdmitAllDropped(t, capacity, ds, n);
    AdmitAllKeys(r, capacity, ds');
  }

  /** What a sequence of results leaves in each entry: `first` is the code of
      the name's first result (or its old value), `last` the code of its last
      result (or its old value). */
  lemma {:induction false} AdmitAllEntries(t: Table, capacity: int, ds: seq<Detection>, n: string)
    requires n in AdmitAll(t, capacity, ds).entries
    ensures n !in t.entries ==> Occurs(ds, n)
    ensures AdmitAll(t, capacity, ds).entries[n].first
            == if n in t.entries then t.entries[n].first else FirstCode(ds, n)
    ensures AdmitAll(t, capacity, ds).entries[n].last
            == if Occurs(ds, n) then LastCode(ds, n) else t.entries[n].last
    decreases |ds|
  {
    if ds != [] {
      var k := |ds| - 1;
      var d := ds[k];
      assert ds == ds[..k] + [d];
      OccursPrefix(ds[..k], d, n);
      var r0 := AdmitAll(t, capacity, ds[..k]);
      if n in r0.entries {
        AdmitAllEntries(t, capacity, ds[..k], n);
        if n !in t.entries {
          FirstCodeAppend(ds[..k], d, n);
        }
      } else {
        // n was admitted by this very result
        assert n == d.name && |r0.keys| < capacity;
        if Occurs(ds[..k], n) {
          AdmitAllDropped(t, capacity, ds[..k], n);
        }
        FirstCodeAppend(ds[..k], d, n);
      }
    }
  }

  /** The dictionary's length is the length of its key order. */
  lemma {:induction false} KeysCountEntries(t: Table)
    requires WellFormed(t)
    ensures |t.keys| == |t.entries|
    decreases |t.keys|
  {
    if t.keys == [] {
      assert t.entries == map[];
    } else {
      var k := |t.keys| - 1;
      var x := t.keys[k];
      var front := t.keys[..k];
      assert t.keys == front + [x];
      var rest := Table(front, t.entries - {x});
      forall n | n in front
        ensures n in rest.entries
      {
        var i :| 0 <= i < k && front[i] == n;
        assert t.keys[i] == n && i < k;
      }
      forall n | n in rest.entries
        ensures n in front
      {
        assert n in t.keys && n != x;
      }
      assert Distinct(front);
      KeysCountEntries(rest);
      assert x in t.entries;
      assert t.entries.Keys == rest.entries.Keys + {x};
      assert |t.entries.Keys| == |rest.entries.Keys| + 1;
    }
  }

  /** Capacity bound: a sequence of results never grows the table beyond the
      larger of its old size and the student count. */
  lemma AdmitAllBound(t: Table, capacity: int, ds: seq<Detection>)
    requires WellFormed(t)
    ensures |AdmitAll(t, capacity, ds).keys| <= Max(|t.keys|, capacity)
  {
    AdmitAllKeys(t, capacity, ds);
  }

  /** From the empty table of a fresh session, the table never holds more
      than `max(capacity, 0)` students, and its keys are exactly the first
      distinct names to appear. */
  lemma SessionTally(capacity: int, ds: seq<Detection>)
    ensures WellFormed(AdmitAll(Empty, capacity, ds))
    ensures |AdmitAll(Empty, capacity, ds).keys| <= Max(capacity, 0)
    ensures AdmitAll(Empty, capacity, ds).keys == Take(FreshNames(ds, []), capacity)
  {
    AdmitAllKeys(Empty, capacity, ds);
    assert [] + Take(FreshNames(ds, []), capacity) == Take(FreshNames(ds, []), capacity);
  }

  /** A student is in the table after a session's results exactly when the
      name occurred and was among the first `capacity` distinct names; when
      no more than `capacity` distinct names occur, every one of them is in. */
  lemma SessionMembership(capacity: int, ds: seq<Detection>, n: string)
    ensures n in AdmitAll(Empty, capacity, ds).entries
            <==> n in Take(FreshNames(ds, []), capacity)
    ensures n in AdmitAll(Empty, capacity, ds).entries ==> Occurs(ds, n)
    ensures Occurs(ds, n) && |FreshNames(ds, [])| <= capacity ==>
              n in AdmitAll(Empty, capacity, ds).entries
  {
    SessionTally(capacity, ds);
    FreshNamesContains(ds, [], n);
  }
}
