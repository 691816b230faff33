/** Two indexes over the same members: which score each member has, and which members have each score. */
module Indexes {

  /** The two say the same, and no bucket is empty. */
  ghost predicate Agree<K(!new), S(!new)>(members: map<K, S>, index: map<S, set<K>>) {
    && (forall s :: s in index ==> index[s] != {})
    && (forall s, m :: s in index && m in index[s] ==> m in members && members[m] == s)
    && (forall m :: m in members ==> members[m] in index && m in index[members[m]])
  }

  lemma InBucket<K(!new), S(!new)>(members: map<K, S>, index: map<S, set<K>>, s: S, m: K)
    requires Agree(members, index)
    ensures s in index && m in index[s] <==> m in members && members[m] == s
  {
  }

  /** Agreement leaves the index no freedom. */
  lemma AgreeDetermines<K(!new), S(!new)>(members: map<K, S>, a: map<S, set<K>>, b: map<S, set<K>>)
    requires Agree(members, a) && Agree(members, b)
    ensures a == b
  {
    SubIndex(members, a, b);
    SubIndex(members, b, a);
  }

  lemma SubIndex<K(!new), S(!new)>(members: map<K, S>, a: map<S, set<K>>, b: map<S, set<K>>)
    requires Agree(members, a) && Agree(members, b)
    ensures forall s :: s in a ==> s in b && a[s] == b[s]
  {
    forall s | s in a ensures s in b && a[s] == b[s] {
      var w :| w in a[s];
      InBucket(members, a, s, w);
      InBucket(members, b, s, w);
      forall m ensures m in a[s] <==> m in b[s] {
        InBucket(members, a, s, m);
        InBucket(members, b, s, m);
      }
    }
  }

  /** The members with a given score, none if the index has no such bucket. */
  function BucketOf<K, S>(index: map<S, set<K>>, s: S): set<K> {
    if s in index then index[s] else {}
  }

  lemma OneBucketEach<K(!new), S(!new)>(members: map<K, S>, index: map<S, set<K>>, m: K, s: S, t: S)
    requires Agree(members, index) && m in BucketOf(index, s) && m in BucketOf(index, t)
    ensures s == t
  {
    InBucket(members, index, s, m);
    InBucket(members, index, t, m);
  }

  /** The index without a member that has the score; its bucket goes with the last one. */
  function RemoveFromBucket<K, S>(index: map<S, set<K>>, s: S, m: K): map<S, set<K>>
    requires s in index
  {
    if index[s] == {m} then map t | t in index && t != s :: index[t] else index[s := index[s] - {m}]
  }

  lemma AgreeRemove<K(!new), S(!new)>(members: map<K, S>, index: map<S, set<K>>, m: K)
    requires Agree(members, index) && m in members
    ensures Agree(map x | x in members && x != m :: members[x], RemoveFromBucket(index, members[m], m))
  {
    var others, left := map x | x in members && x != m :: members[x], RemoveFromBucket(index, members[m], m);
    forall s | s in left ensures left[s] != {} {
      if s == members[m] {
        assert index[s] == {m} || exists x :: x in index[s] && x != m;
        var x :| x in index[s] && x != m;
        assert x in left[s];
      }
    }
    forall x | x in others ensures others[x] in left && x in left[others[x]] {
      InBucket(members, index, others[x], x);
      assert index[others[x]] == {m} ==> x == m;
    }
  }

  function AddToBucket<K, S>(index: map<S, set<K>>, s: S, m: K): map<S, set<K>> {
    index[s := BucketOf(index, s) + {m}]
  }

  lemma AgreeAdd<K(!new), S(!new)>(members: map<K, S>, index: map<S, set<K>>, m: K, s: S)
    requires Agree(members, index) && m !in members
    ensures Agree(members[m := s], AddToBucket(index, s, m))
  {
  }
}
