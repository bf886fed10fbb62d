/** The reference-counted membership map: each value (an address, a subnet
    string, a URL, a domain, a decision digest) maps to the collection of record
    ids that currently claim it. One generic map stands for the string-keyed map
    and for its uint32- and uint64-keyed siblings, which have the same shape. */
module RefCount {
  import opened Ints

  /** The collection of record ids claiming one value, taken as a set: adding an
      id already present, or removing one that is absent, changes nothing. */
  type Ids = set<int32>

  type Refs<K> = map<K, Ids>

  /** The ids claiming `s`; none when `s` is not a key. */
  function Claimers<K>(m: Refs<K>, s: K): Ids {
    if s in m then m[s] else {}
  }

  /** The invariant every operation keeps: a key is present only while some id
      claims it. */
  predicate AllNonEmpty<K>(m: Refs<K>) {
    forall k | k in m :: m[k] != {}
  }

  /** The map after `id` claims `s`. */
  function Inserted<K>(m: Refs<K>, s: K, id: int32): Refs<K> {
    m[s := Claimers(m, s) + {id}]
  }

  /** Whether releasing `id`'s claim on `s` releases the last one. */
  predicate LastRef<K>(m: Refs<K>, s: K, id: int32) {
    s in m && m[s] - {id} == {}
  }

  /** The map after `id` releases its claim on `s`; the key goes with its last id. */
  function Removed<K>(m: Refs<K>, s: K, id: int32): Refs<K> {
    if s !in m then m
    else if LastRef(m, s, id) then m - {s}
    else m[s := m[s] - {id}]
  }

  /** The reference definition: the relation of (value, id) claims the map holds. */
  ghost function Claims<K>(m: Refs<K>): set<(K, int32)> {
    set k, id | k in m && id in m[k] :: (k, id)
  }

  /** A claim makes exactly one (value, id) pair more. */
  lemma InsertedClaims<K>(m: Refs<K>, s: K, id: int32)
    ensures Claims(Inserted(m, s, id)) == Claims(m) + {(s, id)}
  {
    var r := Inserted(m, s, id);
    forall p | p in Claims(r) ensures p in Claims(m) + {(s, id)} {
      var (k, i) := p;
      if k != s { assert i in m[k]; }
    }
    forall p | p in Claims(m) + {(s, id)} ensures p in Claims(r) {
      var (k, i) := p;
      assert k in r && i in r[k];
    }
  }

  /** A release makes exactly one (value, id) pair fewer. */
  lemma RemovedClaims<K>(m: Refs<K>, s: K, id: int32)
    ensures Claims(Removed(m, s, id)) == Claims(m) - {(s, id)}
  {
    var r := Removed(m, s, id);
    forall p | p in Claims(r) ensures p in Claims(m) - {(s, id)} {
      var (k, i) := p;
      assert k in m && i in m[k];
    }
    forall p | p in Claims(m) - {(s, id)} ensures p in Claims(r) {
      var (k, i) := p;
      assert k in r && i in r[k];
    }
  }

  /** Under the invariant a value is a key exactly when some id claims it. */
  lemma KeyIffClaimed<K>(m: Refs<K>, k: K)
    requires AllNonEmpty(m)
    ensures k in m <==> exists id :: (k, id) in Claims(m)
  {
    if k in m {
      var id :| id in m[k];
      assert (k, id) in Claims(m);
    }
  }

  /** Under the invariant the claim relation determines the map: two maps with
      the same claims are equal. */
  lemma ClaimsDetermine<K>(m1: Refs<K>, m2: Refs<K>)
    requires AllNonEmpty(m1) && AllNonEmpty(m2)
    requires Claims(m1) == Claims(m2)
    ensures m1 == m2
  {
    forall k ensures k in m1 <==> k in m2 {
      KeyIffClaimed(m1, k);
      KeyIffClaimed(m2, k);
    }
    forall k | k in m1 ensures m1[k] == m2[k] {
      forall i ensures i in m1[k] <==> i in m2[k] {
        assert i in m1[k] <==> (k, i) in Claims(m1);
        assert i in m2[k] <==> (k, i) in Claims(m2);
      }
    }
  }

  /** Claiming keeps the invariant. */
  lemma InsertedKeepsNonEmpty<K>(m: Refs<K>, s: K, id: int32)
    requires AllNonEmpty(m)
    ensures AllNonEmpty(Inserted(m, s, id))
    ensures s in Inserted(m, s, id) && id in Inserted(m, s, id)[s]
  {
  }

  /** Releasing keeps the invariant. */
  lemma RemovedKeepsNonEmpty<K>(m: Refs<K>, s: K, id: int32)
    requires AllNonEmpty(m)
    ensures AllNonEmpty(Removed(m, s, id))
    ensures s in Removed(m, s, id) <==> s in m && !LastRef(m, s, id)
  {
  }

  /** Two distinct ids on one fresh value: the first claim is the first
      reference, the second is not; the first release keeps the value, the
      second removes it and restores the map. */
  lemma TwoClaimers<K>(m: Refs<K>, s: K, a: int32, b: int32)
    requires s !in m && a != b
    ensures var m1 := Inserted(m, s, a);
            var m2 := Inserted(m1, s, b);
            var m3 := Removed(m2, s, a);
            && s in m1
            && !LastRef(m2, s, a) && s in m3 && m3[s] == {b}
            && LastRef(m3, s, b) && Removed(m3, s, b) == m
  {
    var m3 := Removed(Inserted(Inserted(m, s, a), s, b), s, a);
    assert m3[s] == {b};
    assert Removed(m3, s, b) == m3 - {s};
  }

  /** A value's reference-counted collection of claiming ids, updated in place. */
  class RefMap<K(==)> {
    var refs: Refs<K>

    ghost predicate Valid()
      reads this
    {
      AllNonEmpty(refs)
    }

    constructor ()
      ensures Valid() && refs == map[]
    {
      refs := map[];
    }

    /** Records `id` against `s`; true exactly when `s` was not a key before. */
    method Add(s: K, id: int32) returns (first: bool)
      modifies this
      ensures first <==> s !in old(refs)
      ensures refs == Inserted(old(refs), s, id)
      ensures s in refs && refs[s] == Claimers(old(refs), s) + {id}
      ensures forall k | k != s :: k in refs <==> k in old(refs)
      ensures forall k | k != s && k in refs :: refs[k] == old(refs)[k]
      ensures old(Valid()) ==> Valid()
    {
      first := false;
      var v: Ids;
      if s in refs {
        v := refs[s];
      } else {
        v := {};
        first := true;
      }
      refs := refs[s := v + {id}];
    }

    /** Removes `id` from `s`'s collection; erases the key and answers true
        exactly when that leaves the collection empty. An absent key is left
        alone and answers false. */
    method Delete(s: K, id: int32) returns (last: bool)
      modifies this
      ensures last <==> s in old(refs) && old(refs)[s] - {id} == {}
      ensures refs == Removed(old(refs), s, id)
      ensures s !in old(refs) ==> refs == old(refs)
      ensures last ==> s !in refs
      ensures !last && s in old(refs) ==> s in refs && refs[s] == old(refs)[s] - {id} && refs[s] != {}
      ensures forall k | k != s :: k in refs <==> k in old(refs)
      ensures forall k | k != s && k in refs :: refs[k] == old(refs)[k]
      ensures old(Valid()) ==> Valid()
    {
      last := false;
      if s in refs {
        var v := refs[s] - {id};
        if |v| == 0 {
          refs := refs - {s};
          last := true;
          return;
        }
        refs := refs[s := v];
      }
    }
  }

  /** The reference-counting behaviour through the class: two ids on one value,
      released one after the other. */
  method SharedValue<K(==)>(s: K, a: int32, b: int32)
    returns (first1: bool, first2: bool, last1: bool, last2: bool, keptAfterOne: bool)
    requires a != b
    ensures first1 && !first2 && !last1 && last2 && keptAfterOne
  {
    var r := new RefMap<K>();
    first1 := r.Add(s, a);
    first2 := r.Add(s, b);
    last1 := r.Delete(s, a);
    keptAfterOne := s in r.refs;
    last2 := r.Delete(s, b);
  }

  /** The string-keyed existence map built by `NewStringSet`, as the set of
      strings it holds. The size is only a capacity hint: whatever it is, no
      string is present yet. */
  function NewStringSet(size: int): (r: set<string>)
    ensures forall v: string :: v !in r
  {
    {}
  }
}
