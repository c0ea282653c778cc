/** What the arrays of a khash table mean: marks, keys and values as plain sequences.

    A live bucket holds an entry.  The table is searchable when every entry lies on its own probe path
    with no empty bucket before it; the lemmas say what one write to a bucket does to the map the
    entries form. */
module KhashTheory {
  import opened Probing
  import opened PackedFlags

  ghost predicate Shaped<K, V>(marks: seq<Mark>, keys: seq<K>, vals: seq<V>) {
    |marks| <= |keys| && |keys| == |vals|
  }

  ghost predicate Distinct<K>(marks: seq<Mark>, keys: seq<K>)
    requires |marks| <= |keys|
  {
    forall i, j :: 0 <= i < |marks| && 0 <= j < |marks| && marks[i].Live? && marks[j].Live? && keys[i] == keys[j]
      ==> i == j
  }

  /** Bucket i is live and holds key k. */
  ghost predicate Holds<K>(marks: seq<Mark>, keys: seq<K>, k: K, i: int) {
    0 <= i < |marks| && i < |keys| && marks[i].Live? && keys[i] == k
  }

  ghost function LiveKeys<K>(marks: seq<Mark>, keys: seq<K>): (s: set<K>)
    requires |marks| <= |keys|
    ensures forall k :: k in s ==> exists i :: Holds(marks, keys, k, i)
  {
    var s := set i | 0 <= i < |marks| && marks[i].Live? :: keys[i];
    assert forall k :: k in s ==> exists i :: Holds(marks, keys, k, i) by {
      forall k | k in s ensures exists i :: Holds(marks, keys, k, i) {
        var i :| 0 <= i < |marks| && marks[i].Live? && keys[i] == k;
        assert Holds(marks, keys, k, i);
      }
    }
    s
  }

  ghost function Where<K>(marks: seq<Mark>, keys: seq<K>, k: K): (i: int)
    requires exists i :: Holds(marks, keys, k, i)
    ensures Holds(marks, keys, k, i)
  {
    var i :| Holds(marks, keys, k, i);
    i
  }

  /** The map that the live buckets form. */
  ghost function Contents<K, V>(marks: seq<Mark>, keys: seq<K>, vals: seq<V>): (m: map<K, V>)
    requires Shaped(marks, keys, vals)
    ensures m.Keys == LiveKeys(marks, keys)
  {
    map k | k in LiveKeys(marks, keys) :: vals[Where(marks, keys, k)]
  }

  /** A live bucket holds its entry. */
  lemma EntryOf<K, V>(marks: seq<Mark>, keys: seq<K>, vals: seq<V>, i: nat)
    requires Shaped(marks, keys, vals) && Distinct(marks, keys)
    requires i < |marks| && marks[i].Live?
    ensures keys[i] in Contents(marks, keys, vals) && Contents(marks, keys, vals)[keys[i]] == vals[i]
  {
    assert keys[i] in LiveKeys(marks, keys);
  }

  /** An entry has its live bucket. */
  lemma BucketOf<K, V>(marks: seq<Mark>, keys: seq<K>, vals: seq<V>, k: K) returns (i: int)
    requires Shaped(marks, keys, vals) && k in Contents(marks, keys, vals)
    ensures Holds(marks, keys, k, i)
  {
    assert k in LiveKeys(marks, keys);
    i := Where(marks, keys, k);
  }

  ghost predicate Filled(m: Mark) {
    m.Live? || m.Deleted?
  }

  /** Steps before d all meet filled buckets. */
  ghost predicate FilledBefore(marks: seq<Mark>, h: nat, d: nat)
    requires |marks| > 0
  {
    forall e: nat :: e < d ==> Filled(marks[Probe(h, e, |marks|)])
  }

  /** Bucket i is step d of the path of h, and no bucket before it is empty. */
  ghost predicate OnPathAt(marks: seq<Mark>, h: nat, i: nat, d: nat)
    requires |marks| > 0
  {
    d < |marks| && Probe(h, d, |marks|) == i && FilledBefore(marks, h, d)
  }

  ghost predicate OnPath(marks: seq<Mark>, h: nat, i: nat)
    requires |marks| > 0
  {
    exists d: nat :: OnPathAt(marks, h, i, d)
  }

  ghost predicate Searchable<K>(hash: K -> nat, marks: seq<Mark>, keys: seq<K>)
    requires 0 < |marks| <= |keys|
  {
    forall i :: 0 <= i < |marks| && marks[i].Live? ==> OnPath(marks, hash(keys[i]), i)
  }

  ghost function LiveSet(marks: seq<Mark>): (s: set<nat>)
    ensures forall i: int :: i in s <==> 0 <= i < |marks| && marks[i].Live?
  {
    set i: nat | i < |marks| && marks[i].Live?
  }

  ghost function FilledSet(marks: seq<Mark>): (s: set<nat>)
    ensures forall i: int :: i in s <==> 0 <= i < |marks| && Filled(marks[i])
  {
    set i: nat | i < |marks| && Filled(marks[i])
  }

  lemma {:induction false} ImageSize<K>(s: set<nat>, keys: seq<K>)
    requires forall i :: i in s ==> i < |keys|
    requires forall i, j :: i in s && j in s && keys[i] == keys[j] ==> i == j
    ensures |set i | i in s :: keys[i]| == |s|
    decreases |s|
  {
    var image := set i | i in s :: keys[i];
    if s == {} {
      assert image == {};
    } else {
      var x :| x in s;
      var t := s - {x};
      ImageSize(t, keys);
      assert image == (set i | i in t :: keys[i]) + {keys[x]};
    }
  }

  /** The map has as many entries as there are live buckets. */
  lemma ContentsSize<K, V>(marks: seq<Mark>, keys: seq<K>, vals: seq<V>)
    requires Shaped(marks, keys, vals) && Distinct(marks, keys)
    ensures |Contents(marks, keys, vals)| == |LiveSet(marks)|
  {
    var m := Contents(marks, keys, vals);
    ImageSize(LiveSet(marks), keys);
    assert m.Keys == set i | i in LiveSet(marks) :: keys[i];
    assert |m| == |m.Keys|;
  }

  /** With fewer filled buckets than buckets, every path meets an empty bucket within |marks| steps. */
  lemma EmptyOnPath(marks: seq<Mark>, h: nat) returns (d: nat)
    requires PowerOfTwo(|marks|) && |FilledSet(marks)| < |marks|
    ensures d < |marks| && !Filled(marks[Probe(h, d, |marks|)])
  {
    var n := |marks|;
    if forall b: nat :: b < n ==> b in FilledSet(marks) {
      AllBelow(FilledSet(marks), n);
    }
    var b: nat :| b < n && b !in FilledSet(marks);
    ProbesCoverTable(h, n, b);
    d :| d < n && Probe(h, d, n) == b;
  }

  lemma {:induction false} AllBelow(s: set<nat>, n: nat)
    requires forall b: nat :: b < n ==> b in s
    ensures |s| >= n
    decreases n
  {
    if n > 0 {
      AllBelow(s - {n - 1}, n - 1);
    }
  }

  /** The bucket of step e was looked at and passed over. */
  ghost predicate Passed<K>(marks: seq<Mark>, keys: seq<K>, key: K, b: nat)
    requires |marks| <= |keys| && b < |marks|
  {
    marks[b].Deleted? || (marks[b].Live? && keys[b] != key)
  }

  /** A search for key ends after this many steps, where key lives or at the first empty bucket. */
  ghost predicate StopsAt<K>(marks: seq<Mark>, keys: seq<K>, key: K, h: nat, step: nat)
    requires 0 < |marks| <= |keys|
  {
    && step < |marks|
    && (forall e: nat :: e < step ==> Passed(marks, keys, key, Probe(h, e, |marks|)))
    && (marks[Probe(h, step, |marks|)].Empty? ||
        (marks[Probe(h, step, |marks|)].Live? && keys[Probe(h, step, |marks|)] == key))
  }

  ghost predicate NoTombstone(marks: seq<Mark>, h: nat, from: nat, to: nat)
    requires |marks| > 0
  {
    forall e: nat :: from <= e < to ==> !marks[Probe(h, e, |marks|)].Deleted?
  }

  ghost predicate TombstoneAt(marks: seq<Mark>, h: nat, step: nat, site: nat, s: nat)
    requires |marks| > 0
  {
    && s < step && Probe(h, s, |marks|) == site && marks[Probe(h, s, |marks|)].Deleted?
    && NoTombstone(marks, h, s + 1, step)
  }

  /** Bucket site is the last tombstone among the first step buckets of the path, or |marks| if there is none. */
  ghost predicate LastTombstone(marks: seq<Mark>, h: nat, step: nat, site: nat)
    requires |marks| > 0
  {
    if site == |marks| then NoTombstone(marks, h, 0, step) else exists s: nat :: TombstoneAt(marks, h, step, site, s)
  }

  lemma TombstoneStep(marks: seq<Mark>, h: nat, step: nat, site: nat)
    requires |marks| > 0 && LastTombstone(marks, h, step, site)
    ensures LastTombstone(marks, h, step + 1,
                          if marks[Probe(h, step, |marks|)].Deleted? then Probe(h, step, |marks|) else site)
  {
    var b := Probe(h, step, |marks|);
    if marks[b].Deleted? {
      assert TombstoneAt(marks, h, step + 1, b, step);
    } else if site != |marks| {
      var s: nat :| TombstoneAt(marks, h, step, site, s);
      assert TombstoneAt(marks, h, step + 1, site, s);
    }
  }

  /** The bucket that a search ending after step steps leaves for key. */
  ghost predicate Leaves<K>(marks: seq<Mark>, keys: seq<K>, key: K, h: nat, x: nat, step: nat, site: nat)
    requires 0 < |marks| <= |keys|
  {
    && StopsAt(marks, keys, key, h, step) && LastTombstone(marks, h, step, site)
    && x == if marks[Probe(h, step, |marks|)].Empty? && site != |marks| then site else Probe(h, step, |marks|)
  }

  /** Bucket x is where key lives, else the last tombstone before the first empty bucket of its path, else
      that empty bucket. */
  ghost predicate SlotFor<K>(marks: seq<Mark>, keys: seq<K>, key: K, h: nat, x: nat)
    requires 0 < |marks| <= |keys|
  {
    exists step: nat, site: nat :: Leaves(marks, keys, key, h, x, step, site)
  }

  /** A search that ends at an empty bucket proves that the key is absent. */
  lemma AbsentAtEmpty<K, V>(hash: K -> nat, marks: seq<Mark>, keys: seq<K>, vals: seq<V>, key: K, d: nat)
    requires Shaped(marks, keys, vals) && |marks| > 0 && Distinct(marks, keys) && Searchable(hash, marks, keys)
    requires forall e: nat :: e < d ==> Passed(marks, keys, key, Probe(hash(key), e, |marks|))
    requires !Filled(marks[Probe(hash(key), d, |marks|)])
    ensures key !in Contents(marks, keys, vals)
  {
    forall i | 0 <= i < |marks| && marks[i].Live? ensures keys[i] != key {
      var d': nat :| OnPathAt(marks, hash(keys[i]), i, d');
    }
  }

  /** A search that passes over the whole path proves that the key is absent. */
  lemma AbsentAfterCycle<K, V>(hash: K -> nat, marks: seq<Mark>, keys: seq<K>, vals: seq<V>, key: K)
    requires Shaped(marks, keys, vals) && PowerOfTwo(|marks|) && Distinct(marks, keys)
    requires forall e: nat :: e < |marks| ==> Passed(marks, keys, key, Probe(hash(key), e, |marks|))
    ensures key !in Contents(marks, keys, vals)
  {
    forall i | 0 <= i < |marks| && marks[i].Live? ensures keys[i] != key {
      ProbesCoverTable(hash(key), |marks|, i);
      var e: nat :| e < |marks| && Probe(hash(key), e, |marks|) == i;
      assert Passed(marks, keys, key, Probe(hash(key), e, |marks|));
    }
  }

  /** The map is determined by what every live bucket holds. */
  lemma ContentsIs<K, V>(marks: seq<Mark>, keys: seq<K>, vals: seq<V>, m: map<K, V>)
    requires Shaped(marks, keys, vals) && Distinct(marks, keys)
    requires forall i :: 0 <= i < |marks| && marks[i].Live? ==> keys[i] in m && m[keys[i]] == vals[i]
    requires forall k :: k in m ==> exists i :: Holds(marks, keys, k, i)
    ensures Contents(marks, keys, vals) == m
  {
    var c := Contents(marks, keys, vals);
    forall k | k in c ensures k in m && m[k] == c[k] {
      var i := BucketOf(marks, keys, vals, k);
      EntryOf(marks, keys, vals, i);
    }
    forall k | k in m ensures k in c {
      var i :| Holds(marks, keys, k, i);
      EntryOf(marks, keys, vals, i);
    }
  }

  /** Writing an absent key into a free bucket on its path adds exactly that entry. */
  lemma InsertEntry<K, V>(hash: K -> nat, marks: seq<Mark>, keys: seq<K>, vals: seq<V>, key: K, x: nat, val: V)
    requires Shaped(marks, keys, vals) && |marks| > 0 && Distinct(marks, keys) && Searchable(hash, marks, keys)
    requires x < |marks| && !marks[x].Live? && OnPath(marks, hash(key), x)
    requires key !in Contents(marks, keys, vals)
    ensures var marks', keys', vals' := marks[x := Live], keys[x := key], vals[x := val];
            && Distinct(marks', keys') && Searchable(hash, marks', keys')
            && Contents(marks', keys', vals') == Contents(marks, keys, vals)[key := val]
            && LiveSet(marks') == LiveSet(marks) + {x}
            && FilledSet(marks') == FilledSet(marks) + {x}
  {
    hide Contents, Distinct, OnPath;
    var marks', keys', vals' := marks[x := Live], keys[x := key], vals[x := val];
    InsertDistinct(marks, keys, vals, key, x);
    InsertSets(marks, x);
    forall i | 0 <= i < |marks| && marks'[i].Live? ensures OnPath(marks', hash(keys'[i]), i) {
      FillKeepsPath(marks, hash(keys'[i]), i, x);
    }
    var m := Contents(marks, keys, vals)[key := val];
    forall k | k in m ensures exists i :: Holds(marks', keys', k, i) {
      if k == key {
        assert Holds(marks', keys', key, x);
      } else {
        var i := BucketOf(marks, keys, vals, k);
        assert Holds(marks', keys', k, i);
      }
    }
    forall i | 0 <= i < |marks'| && marks'[i].Live? ensures keys'[i] in m && m[keys'[i]] == vals'[i] {
      if i != x {
        EntryOf(marks, keys, vals, i);
      }
    }
    ContentsIs(marks', keys', vals', m);
  }

  lemma InsertDistinct<K, V>(marks: seq<Mark>, keys: seq<K>, vals: seq<V>, key: K, x: nat)
    requires Shaped(marks, keys, vals) && Distinct(marks, keys) && x < |marks|
    requires key !in Contents(marks, keys, vals)
    ensures Distinct(marks[x := Live], keys[x := key])
  {
    hide Contents;
    forall i | 0 <= i < |marks| && marks[i].Live? ensures keys[i] != key {
      EntryOf(marks, keys, vals, i);
    }
  }

  lemma InsertSets(marks: seq<Mark>, x: nat)
    requires x < |marks|
    ensures LiveSet(marks[x := Live]) == LiveSet(marks) + {x}
    ensures FilledSet(marks[x := Live]) == FilledSet(marks) + {x}
  {
  }

  lemma FillKeepsPath(marks: seq<Mark>, h: nat, i: nat, x: nat)
    requires |marks| > 0 && x < |marks| && OnPath(marks, h, i)
    ensures OnPath(marks[x := Live], h, i)
    ensures marks[x].Live? ==> OnPath(marks[x := Deleted], h, i)
  {
    var d :| OnPathAt(marks, h, i, d);
    assert OnPathAt(marks[x := Live], h, i, d);
    if marks[x].Live? {
      assert OnPathAt(marks[x := Deleted], h, i, d);
    }
  }

  lemma RemoveDistinct<K>(marks: seq<Mark>, keys: seq<K>, x: nat)
    requires |marks| <= |keys| && Distinct(marks, keys) && x < |marks|
    ensures Distinct(marks[x := Deleted], keys)
  {
  }

  lemma WriteDistinct<K>(marks: seq<Mark>, keys: seq<K>, x: nat, key: K)
    requires |marks| <= |keys| && Distinct(marks, keys)
    requires x < |keys| && (x < |marks| ==> !marks[x].Live?)
    ensures Distinct(marks, keys[x := key])
  {
  }

  lemma RemoveSets(marks: seq<Mark>, x: nat)
    requires x < |marks| && marks[x].Live?
    ensures LiveSet(marks[x := Deleted]) == LiveSet(marks) - {x}
    ensures FilledSet(marks[x := Deleted]) == FilledSet(marks)
  {
  }

  /** Marking a live bucket deleted removes exactly its entry. */
  lemma RemoveEntry<K, V>(marks: seq<Mark>, keys: seq<K>, vals: seq<V>, x: nat)
    requires Shaped(marks, keys, vals) && Distinct(marks, keys)
    requires x < |marks| && marks[x].Live?
    ensures var marks' := marks[x := Deleted];
            && Distinct(marks', keys)
            && Contents(marks', keys, vals) == Contents(marks, keys, vals) - {keys[x]}
  {
    hide Contents;
    var marks' := marks[x := Deleted];
    RemoveDistinct(marks, keys, x);
    var m := Contents(marks, keys, vals) - {keys[x]};
    forall k | k in m ensures exists i :: Holds(marks', keys, k, i) {
      var i := BucketOf(marks, keys, vals, k);
      assert Holds(marks', keys, k, i);
    }
    forall i | 0 <= i < |marks'| && marks'[i].Live? ensures keys[i] in m && m[keys[i]] == vals[i] {
      EntryOf(marks, keys, vals, i);
      assert keys[i] != keys[x];
    }
    ContentsIs(marks', keys, vals, m);
  }

  lemma RemoveKeepsSearch<K>(hash: K -> nat, marks: seq<Mark>, keys: seq<K>, x: nat)
    requires 0 < |marks| <= |keys| && Searchable(hash, marks, keys)
    requires x < |marks| && marks[x].Live?
    ensures Searchable(hash, marks[x := Deleted], keys)
  {
    forall i | 0 <= i < |marks| && marks[x := Deleted][i].Live?
      ensures OnPath(marks[x := Deleted], hash(keys[i]), i)
    {
      FillKeepsPath(marks, hash(keys[i]), i, x);
    }
  }

  /** Writing to a bucket that is not live, or beyond the marks, does not change the map. */
  lemma WriteElsewhere<K, V>(marks: seq<Mark>, keys: seq<K>, vals: seq<V>, x: nat, key: K, val: V)
    requires Shaped(marks, keys, vals) && Distinct(marks, keys)
    requires x < |keys| && (x < |marks| ==> !marks[x].Live?)
    ensures Distinct(marks, keys[x := key])
    ensures Contents(marks, keys[x := key], vals[x := val]) == Contents(marks, keys, vals)
  {
    WriteDistinct(marks, keys, x, key);
    SameLive(marks, keys, vals, keys[x := key], vals[x := val]);
  }

  /** Only what live buckets hold matters. */
  lemma SameLive<K, V>(marks: seq<Mark>, keys: seq<K>, vals: seq<V>, keys': seq<K>, vals': seq<V>)
    requires Shaped(marks, keys, vals) && Shaped(marks, keys', vals')
    requires Distinct(marks, keys) && Distinct(marks, keys')
    requires forall i :: 0 <= i < |marks| && marks[i].Live? ==> keys'[i] == keys[i] && vals'[i] == vals[i]
    ensures Contents(marks, keys', vals') == Contents(marks, keys, vals)
  {
    hide Contents, Distinct;
    var m := Contents(marks, keys, vals);
    forall k | k in m ensures exists i :: Holds(marks, keys', k, i) {
      var i := BucketOf(marks, keys, vals, k);
      assert Holds(marks, keys', k, i);
    }
    forall i | 0 <= i < |marks| && marks[i].Live? ensures keys'[i] in m && m[keys'[i]] == vals'[i] {
      EntryOf(marks, keys, vals, i);
    }
    ContentsIs(marks, keys', vals', m);
  }

  /** Replacing the value in a live bucket updates exactly its entry. */
  lemma SetEntry<K, V>(marks: seq<Mark>, keys: seq<K>, vals: seq<V>, x: nat, val: V)
    requires Shaped(marks, keys, vals) && Distinct(marks, keys)
    requires x < |marks| && marks[x].Live?
    ensures Contents(marks, keys, vals[x := val]) == Contents(marks, keys, vals)[keys[x] := val]
  {
    hide Contents;
    var m := Contents(marks, keys, vals)[keys[x] := val];
    forall k | k in m ensures exists i :: Holds(marks, keys, k, i) {
      if k == keys[x] {
        assert Holds(marks, keys, k, x);
      } else {
        var i := BucketOf(marks, keys, vals, k);
      }
    }
    forall i | 0 <= i < |marks| && marks[i].Live? ensures keys[i] in m && m[keys[i]] == vals[x := val][i] {
      EntryOf(marks, keys, vals, i);
    }
    ContentsIs(marks, keys, vals[x := val], m);
  }
}
