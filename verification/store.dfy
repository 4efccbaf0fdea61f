/**
 The in-memory resource store: a map from identifier to record, starting
 empty, with an insert that stamps the record with its key and a snapshot
 of all values. The mutex that guards the map is not modelled; every
 operation here is one atomic step on an immutable map.
 */
module Store {

  /** A resource record: its `Id` field and the kind-specific remaining fields. */
  datatype Record<F> = Record(id: string, fields: F)

  type Store<F> = map<string, Record<F>>

  /** Every record is stored under its own `Id`. */
  predicate WellKeyed<F>(s: Store<F>)
  {
    forall k :: k in s ==> s[k].id == k
  }

  /** The store a freshly constructed handler starts with. */
  function NewStore<F>(): (s: Store<F>)
    ensures |s| == 0
    ensures forall k :: k !in s
    ensures WellKeyed(s)
  {
    map[]
  }

  /**
   Overwrite the record's `Id` with `id` and store it under `id`. An entry
   already at `id` is replaced; every other entry is kept.
   */
  function Insert<F>(s: Store<F>, rec: Record<F>, id: string): (s': Store<F>)
    ensures s'.Keys == s.Keys + {id}
    ensures s'[id].id == id && s'[id].fields == rec.fields
    ensures forall k :: k in s && k != id ==> s'[k] == s[k]
    ensures |s'| == if id in s then |s| else |s| + 1
    ensures WellKeyed(s) ==> WellKeyed(s')
  {
    s[id := rec.(id := id)]
  }

  ghost predicate Distinct<T>(xs: seq<T>)
  {
    forall i, j :: 0 <= i < j < |xs| ==> xs[i] != xs[j]
  }

  /**
   `rs` lists the entries of `s` in the key order `ks`: one element per
   entry, every key exactly once.
   */
  ghost predicate ListsEntries<F>(s: Store<F>, rs: seq<Record<F>>, ks: seq<string>)
  {
    && |rs| == |ks| == |s|
    && Distinct(ks)
    && (forall k :: k in s <==> k in ks)
    && (forall i :: 0 <= i < |ks| ==> ks[i] in s && rs[i] == s[ks[i]])
  }

  /** `rs` lists the entries of `s` in some key order. */
  ghost predicate IsSnapshot<F>(s: Store<F>, rs: seq<Record<F>>)
  {
    exists ks :: ListsEntries(s, rs, ks)
  }

  /**
   Copy every value of the store into a fresh sequence. Go visits map
   entries in an unspecified order; the loop picks the next key by choice.
   */
  method Snapshot<F>(s: Store<F>) returns (rs: seq<Record<F>>, ghost ks: seq<string>)
    ensures |rs| == |s|
    ensures forall k :: k in s ==> s[k] in rs
    ensures ListsEntries(s, rs, ks)
  {
    rs, ks := [], [];
    var remaining := s.Keys;
    while remaining != {}
      invariant remaining <= s.Keys
      invariant |rs| == |ks|
      invariant |ks| + |remaining| == |s|
      invariant Distinct(ks)
      invariant forall i :: 0 <= i < |ks| ==> ks[i] !in remaining
      invariant forall k :: k in s <==> k in remaining || k in ks
      invariant forall i :: 0 <= i < |ks| ==> ks[i] in s && rs[i] == s[ks[i]]
      decreases remaining
    {
      var k :| k in remaining;
      rs, ks := rs + [s[k]], ks + [k];
      remaining := remaining - {k};
    }
    ListedEntriesAreValues(s, rs, ks);
  }

  /** A listing in key order holds exactly the values of the store. */
  lemma ListedEntriesAreValues<F>(s: Store<F>, rs: seq<Record<F>>, ks: seq<string>)
    requires ListsEntries(s, rs, ks)
    ensures forall k :: k in s ==> s[k] in rs
  {
    forall k | k in s
      ensures s[k] in rs
    {
      var i :| 0 <= i < |ks| && ks[i] == k;
      assert rs[i] == s[k];
    }
  }

  lemma {:induction false} DistinctMultiplicity<T>(xs: seq<T>, v: T)
    requires Distinct(xs)
    ensures multiset(xs)[v] == if v in xs then 1 else 0
    decreases |xs|
  {
    if |xs| > 0 {
      assert xs == [xs[0]] + xs[1..];
      assert Distinct(xs[1..]);
      assert xs[0] !in xs[1..];
      DistinctMultiplicity(xs[1..], v);
    }
  }

  /**
   On a well-keyed store a snapshot holds each value of the map exactly
   once: as multisets, the listed elements are the map's values.
   */
  lemma SnapshotIsValues<F>(s: Store<F>, rs: seq<Record<F>>)
    requires WellKeyed(s)
    requires IsSnapshot(s, rs)
    ensures multiset(rs) == multiset(s.Values)
  {
    var ks :| ListsEntries(s, rs, ks);
    assert Distinct(rs) by {
      forall i, j | 0 <= i < j < |rs|
        ensures rs[i] != rs[j]
      {
        assert rs[i].id == ks[i] && rs[j].id == ks[j];
      }
    }
    forall v
      ensures multiset(rs)[v] == multiset(s.Values)[v]
    {
      DistinctMultiplicity(rs, v);
      if v in s.Values {
        var k :| k in s && s[k] == v;
        var i :| 0 <= i < |ks| && ks[i] == k;
        assert rs[i] == v;
      }
      if v in rs {
        var i :| 0 <= i < |rs| && rs[i] == v;
        assert s[ks[i]] == v;
      }
    }
  }
}
