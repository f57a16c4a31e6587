/**
 * Find-or-create with association, the pattern the background worker of
 * app.py applies to paragraphs (keyed by hash) and to variables (keyed by name
 * and pattern type): query the store for the first entity with the key, add a
 * new entity when there is none, then associate the entity with the document
 * unless it already is. Entity ids are positions in the store.
 */
module Registry {
  import opened Wrappers
  import opened Tally

  /** `query.filter_by(key=k).first()`: the first entity with key `k`, if any. */
  function FindFirst<E, K(==)>(s: seq<E>, key: E -> K, k: K): (r: Option<nat>)
    ensures r.Some? ==> r.value < |s| && key(s[r.value]) == k
                        && forall t :: 0 <= t < r.value ==> key(s[t]) != k
    ensures r.None? ==> forall t :: 0 <= t < |s| ==> key(s[t]) != k
  {
    if s == [] then None
    else if key(s[0]) == k then Some(0)
    else match FindFirst(s[1..], key, k)
      case Some(t) => Some(t + 1)
      case None => None
  }

  /** No two entities share a key. */
  predicate UniqueKeys<E, K(==)>(s: seq<E>, key: E -> K) {
    forall a, b :: 0 <= a < b < |s| ==> key(s[a]) != key(s[b])
  }

  /** An entity store and the ids associated with one document, in association order. */
  datatype Linked<E> = Linked(store: seq<E>, linked: seq<nat>)

  /** Every associated id names a stored entity, and none is associated twice. */
  predicate WellLinked<E>(st: Linked<E>) {
    Distinct(st.linked) && forall i :: 0 <= i < |st.linked| ==> st.linked[i] < |st.store|
  }

  /** The id `r`'s entity has after the lookup: the one found, or the next id when it is created. */
  function IdFor<R, E, K(==)>(store: seq<E>, make: R -> E, key: E -> K, r: R): nat {
    match FindFirst(store, key, key(make(r)))
    case Some(i) => i
    case None => |store|
  }

  /** One iteration: find or create the entity for `r`, then associate it unless it already is. */
  function LinkOne<R, E, K(==)>(st: Linked<E>, make: R -> E, key: E -> K, r: R): Linked<E> {
    var found := FindFirst(st.store, key, key(make(r)));
    var store := if found.Some? then st.store else st.store + [make(r)];
    var id := IdFor(st.store, make, key, r);
    Linked(store, if id in st.linked then st.linked else st.linked + [id])
  }

  /** The loop over `rs`. */
  function LinkAll<R, E, K(==)>(st: Linked<E>, make: R -> E, key: E -> K, rs: seq<R>): Linked<E> {
    if rs == [] then st else LinkOne(LinkAll(st, make, key, rs[..|rs| - 1]), make, key, rs[|rs| - 1])
  }

  /** Some associated entity has key `k`. */
  predicate Associated<E, K(==)>(st: Linked<E>, key: E -> K, k: K) {
    exists t :: 0 <= t < |st.linked| && st.linked[t] < |st.store| && key(st.store[st.linked[t]]) == k
  }

  /** One iteration keeps keys unique and associations well formed. */
  lemma LinkOneKeeps<R, E, K>(st: Linked<E>, make: R -> E, key: E -> K, r: R)
    requires UniqueKeys(st.store, key) && WellLinked(st)
    ensures UniqueKeys(LinkOne(st, make, key, r).store, key) && WellLinked(LinkOne(st, make, key, r))
  {
    var st' := LinkOne(st, make, key, r);
    if FindFirst(st.store, key, key(make(r))).None? {
      forall a, b | 0 <= a < b < |st'.store| ensures key(st'.store[a]) != key(st'.store[b]) {
        if b == |st.store| {
          assert st'.store[a] == st.store[a];
        }
      }
    }
  }

  /**
   * One iteration keeps every entity and association there was, and creates
   * an entity, the one made from `r`, exactly when no entity has its key.
   */
  lemma LinkOneExtends<R, E, K>(st: Linked<E>, make: R -> E, key: E -> K, r: R)
    ensures var st' := LinkOne(st, make, key, r);
            && |st.store| <= |st'.store| && st'.store[..|st.store|] == st.store
            && |st.linked| <= |st'.linked| && st'.linked[..|st.linked|] == st.linked
            && (|st'.store| > |st.store| <==> forall t :: 0 <= t < |st.store| ==> key(st.store[t]) != key(make(r)))
            && (|st'.store| > |st.store| ==> st'.store == st.store + [make(r)])
  {
    var st' := LinkOne(st, make, key, r);
    assert st'.store[..|st.store|] == st.store;
    assert st'.linked[..|st.linked|] == st.linked;
  }

  /** After one iteration the entity for `r` is associated, and so is anything newly associated. */
  lemma LinkOneAssociates<R, E, K>(st: Linked<E>, make: R -> E, key: E -> K, r: R)
    requires WellLinked(st)
    ensures var st' := LinkOne(st, make, key, r);
            && Associated(st', key, key(make(r)))
            && forall t :: |st.linked| <= t < |st'.linked| ==>
                 st'.linked[t] < |st'.store| && key(st'.store[st'.linked[t]]) == key(make(r))
  {
    var st' := LinkOne(st, make, key, r);
    var id := IdFor(st.store, make, key, r);
    assert id < |st'.store| && key(st'.store[id]) == key(make(r));
    if id in st.linked {
      var t :| 0 <= t < |st.linked| && st.linked[t] == id;
      assert st'.linked[t] == id;
    } else {
      assert st'.linked[|st.linked|] == id;
    }
  }

  /** The loop keeps keys unique and associations well formed. */
  lemma {:induction false} LinkAllKeeps<R, E, K>(st: Linked<E>, make: R -> E, key: E -> K, rs: seq<R>)
    requires UniqueKeys(st.store, key) && WellLinked(st)
    ensures UniqueKeys(LinkAll(st, make, key, rs).store, key) && WellLinked(LinkAll(st, make, key, rs))
  {
    if rs != [] {
      LinkAllKeeps(st, make, key, rs[..|rs| - 1]);
      LinkOneKeeps(LinkAll(st, make, key, rs[..|rs| - 1]), make, key, rs[|rs| - 1]);
    }
  }

  /** The loop only appends: the entities and associations there were stay as they were. */
  lemma {:induction false} LinkAllExtends<R, E, K>(st: Linked<E>, make: R -> E, key: E -> K, rs: seq<R>)
    requires UniqueKeys(st.store, key) && WellLinked(st)
    ensures var st' := LinkAll(st, make, key, rs);
            |st.store| <= |st'.store| && st'.store[..|st.store|] == st.store
            && |st.linked| <= |st'.linked| && st'.linked[..|st.linked|] == st.linked
  {
    if rs != [] {
      var mid := LinkAll(st, make, key, rs[..|rs| - 1]);
      LinkAllExtends(st, make, key, rs[..|rs| - 1]);
      LinkAllKeeps(st, make, key, rs[..|rs| - 1]);
      LinkOneExtends(mid, make, key, rs[|rs| - 1]);
      var st' := LinkOne(mid, make, key, rs[|rs| - 1]);
      assert st'.store[..|st.store|] == st'.store[..|mid.store|][..|st.store|];
      assert st'.linked[..|st.linked|] == st'.linked[..|mid.linked|][..|st.linked|];
    }
  }

  /** An association survives appending entities and associations. */
  lemma AssociatedExtends<E, K>(a: Linked<E>, b: Linked<E>, key: E -> K, k: K)
    requires Associated(a, key, k)
    requires |a.store| <= |b.store| && b.store[..|a.store|] == a.store
    requires |a.linked| <= |b.linked| && b.linked[..|a.linked|] == a.linked
    ensures Associated(b, key, k)
  {
    var t :| 0 <= t < |a.linked| && a.linked[t] < |a.store| && key(a.store[a.linked[t]]) == k;
    assert b.linked[t] == a.linked[t] && b.store[a.linked[t]] == a.store[a.linked[t]];
  }

  /** After the loop, the entity of every item is associated. */
  lemma {:induction false} LinkAllCovers<R, E, K>(st: Linked<E>, make: R -> E, key: E -> K, rs: seq<R>, j: nat)
    requires UniqueKeys(st.store, key) && WellLinked(st) && j < |rs|
    ensures Associated(LinkAll(st, make, key, rs), key, key(make(rs[j])))
  {
    var n := |rs| - 1;
    var mid := LinkAll(st, make, key, rs[..n]);
    assert LinkAll(st, make, key, rs) == LinkOne(mid, make, key, rs[n]);
    LinkAllKeeps(st, make, key, rs[..n]);
    if j < n {
      LinkOneExtends(mid, make, key, rs[n]);
      LinkAllCovers(st, make, key, rs[..n], j);
      assert rs[..n][j] == rs[j];
      AssociatedExtends(mid, LinkOne(mid, make, key, rs[n]), key, key(make(rs[j])));
    } else {
      LinkOneAssociates(mid, make, key, rs[n]);
    }
  }

  /** After the loop, every association was there before or is the entity of one of the items. */
  lemma {:induction false} LinkAllOnly<R, E, K>(st: Linked<E>, make: R -> E, key: E -> K, rs: seq<R>, t: nat)
    requires UniqueKeys(st.store, key) && WellLinked(st)
    requires |st.linked| <= t < |LinkAll(st, make, key, rs).linked|
    ensures var st' := LinkAll(st, make, key, rs);
            st'.linked[t] < |st'.store| && exists j :: 0 <= j < |rs| && key(st'.store[st'.linked[t]]) == key(make(rs[j]))
  {
    var n := |rs| - 1;
    var mid := LinkAll(st, make, key, rs[..n]);
    var st' := LinkOne(mid, make, key, rs[n]);
    LinkAllKeeps(st, make, key, rs[..n]);
    LinkOneExtends(mid, make, key, rs[n]);
    LinkOneAssociates(mid, make, key, rs[n]);
    LinkOneKeeps(mid, make, key, rs[n]);
    if t < |mid.linked| {
      LinkAllOnly(st, make, key, rs[..n], t);
      var j :| 0 <= j < n && key(mid.store[mid.linked[t]]) == key(make(rs[..n][j]));
      assert st'.linked[t] == mid.linked[t] && st'.store[mid.linked[t]] == mid.store[mid.linked[t]];
      assert rs[..n][j] == rs[j];
    } else {
      assert key(st'.store[st'.linked[t]]) == key(make(rs[n]));
    }
  }

  /** The loop creates an entity only for an item whose key no earlier entity has. */
  lemma {:induction false} LinkAllCreates<R, E, K>(st: Linked<E>, make: R -> E, key: E -> K, rs: seq<R>, i: nat)
    requires UniqueKeys(st.store, key) && WellLinked(st)
    requires |st.store| <= i < |LinkAll(st, make, key, rs).store|
    ensures var s' := LinkAll(st, make, key, rs).store;
            (exists j :: 0 <= j < |rs| && s'[i] == make(rs[j]))
            && forall t :: 0 <= t < i ==> key(s'[t]) != key(s'[i])
  {
    var n := |rs| - 1;
    var mid := LinkAll(st, make, key, rs[..n]);
    var st' := LinkOne(mid, make, key, rs[n]);
    LinkAllKeeps(st, make, key, rs[..n]);
    LinkOneExtends(mid, make, key, rs[n]);
    if i < |mid.store| {
      LinkAllCreates(st, make, key, rs[..n], i);
      var j :| 0 <= j < n && mid.store[i] == make(rs[..n][j]);
      assert st'.store[i] == mid.store[i] && rs[..n][j] == rs[j];
    } else {
      assert st'.store[i] == make(rs[n]);
    }
    LinkAllKeeps(st, make, key, rs);
  }
}
