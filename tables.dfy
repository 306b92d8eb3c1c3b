/** Collections of documents keyed by id, as the document store keeps them. */
module Tables {
  import opened Wrappers

  /** Document ids. The store's ObjectIds are modelled by naturals taken from a
      counter, so an id is never handed out twice. */
  type Id = nat

  /** Every key of `m` lies below `bound`: the counter has not handed it out yet. */
  ghost predicate Bounded<D>(m: map<Id, D>, bound: nat)
  {
    forall k :: k in m ==> k < bound
  }

  /** The documents with keys below `bound`, each paired with its key, in
      ascending key order: a full scan of the collection. */
  function Rows<D>(m: map<Id, D>, bound: nat): (r: seq<(Id, D)>)
    ensures forall i :: 0 <= i < |r| ==> r[i].0 < bound && r[i].0 in m && m[r[i].0] == r[i].1
    ensures forall k :: k in m && k < bound ==> (k, m[k]) in r
    ensures forall i, j :: 0 <= i < j < |r| ==> r[i].0 < r[j].0
  {
    if bound == 0 then []
    else Rows(m, bound - 1) + (if bound - 1 in m then [(bound - 1, m[bound - 1])] else [])
  }

  /** The key below `bound` of a document satisfying `p`, if there is one:
      the store's `findOne`. */
  function Lookup<D>(m: map<Id, D>, bound: nat, p: D -> bool): (r: Option<Id>)
    ensures r.Some? ==> r.value in m && r.value < bound && p(m[r.value])
    ensures r.None? ==> forall k :: k in m && k < bound ==> !p(m[k])
  {
    if bound == 0 then None
    else if bound - 1 in m && p(m[bound - 1]) then Some(bound - 1)
    else Lookup(m, bound - 1, p)
  }

  /** Turning each row of a full scan into a record that carries its key
      gives one record per stored document, every record built from its
      stored document, and no key twice. */
  lemma RowsRecords<D, R>(m: map<Id, D>, rows: seq<(Id, D)>, make: (Id, D) -> R, key: R -> Id, r: seq<R>)
    requires forall i :: 0 <= i < |rows| ==> rows[i].0 in m && m[rows[i].0] == rows[i].1
    requires forall k :: k in m ==> (k, m[k]) in rows
    requires forall i, j :: 0 <= i < j < |rows| ==> rows[i].0 < rows[j].0
    requires forall k, d :: key(make(k, d)) == k
    requires |r| == |rows| && forall i :: 0 <= i < |r| ==> r[i] == make(rows[i].0, rows[i].1)
    ensures forall i :: 0 <= i < |r| ==> key(r[i]) in m && r[i] == make(key(r[i]), m[key(r[i])])
    ensures forall k :: k in m ==> make(k, m[k]) in r
    ensures forall i, j :: 0 <= i < j < |r| ==> key(r[i]) != key(r[j])
  {
    forall i | 0 <= i < |r| ensures key(r[i]) == rows[i].0 {
    }
    forall k | k in m ensures make(k, m[k]) in r {
      var i :| 0 <= i < |rows| && rows[i] == (k, m[k]);
      assert r[i] == make(k, m[k]);
    }
  }
}
