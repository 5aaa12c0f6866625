/** The expiry index mirrors the records in every reachable state. */
module IndexInvariant {
  import opened KvTypes
  import opened Machine
  import opened Timestamps
  import opened Wrappers

  predicate Live(s: IndexedStore, k: string) { k in s.user && s.user[k].Normal? }

  /** Live sequence numbers are positive, used up and pairwise distinct. */
  ghost predicate SeqnosDistinct(s: IndexedStore) {
    && (forall k :: Live(s, k) ==> 1 <= s.user[k].v.seqno <= s.sequence)
    && (forall j, k :: Live(s, j) && Live(s, k) && j != k ==> s.user[j].v.seqno != s.user[k].v.seqno)
  }

  /** The index holds `(expiry, seqno) -> key` for exactly the live records that expire. */
  ghost predicate IndexExact(s: IndexedStore) {
    && (forall ek :: ek in s.expire && s.expire[ek].Some? ==>
          Live(s, s.expire[ek].value) && s.user[s.expire[ek].value].IndexKey() == Some(ek))
    && (forall k :: Live(s, k) && s.user[k].IndexKey().Some? ==>
          var ek := s.user[k].IndexKey().value;
          ek in s.expire && s.expire[ek] == Some(k))
  }

  ghost predicate WellIndexed(s: IndexedStore) { SeqnosDistinct(s) && IndexExact(s) }

  // ------------------------------------------------------------ one write

  /** The primary write touches one key; a new value carries the sequence number just taken. */
  lemma PrimaryShape(s: IndexedStore, u: UpsertKV, now: u64)
    ensures var w := UpsertPrimaryIndex(s, u, now);
      && w.prev == GetMarked(s, u.key) && w.result == GetMarked(w.s, u.key)
      && w.s.expire == s.expire && w.s.cleanupStart == s.cleanupStart
      && (forall k :: k != u.key ==> (Live(w.s, k) <==> Live(s, k)) && (Live(s, k) ==> w.s.user[k] == s.user[k]))
      && s.sequence <= w.s.sequence <= s.sequence + 1
      && (w.result.Normal? && w.result != w.prev ==> w.result.v.seqno == w.s.sequence == s.sequence + 1)
  {
  }

  /** Repairing the index for the written key restores the invariant. */
  lemma IndexRepaired(s: IndexedStore, t: IndexedStore, k: string)
    requires WellIndexed(s)
    requires t.expire == s.expire && s.sequence <= t.sequence
    requires forall j :: j != k ==> (Live(t, j) <==> Live(s, j)) && (Live(s, j) ==> t.user[j] == s.user[j])
    requires var prev, result := GetMarked(s, k), GetMarked(t, k);
             result.Normal? && result != prev ==> result.v.seqno == t.sequence == s.sequence + 1
    ensures WellIndexed(UpdateExpireIndex(t, k, GetMarked(s, k), GetMarked(t, k)))
  {
    var prev, result := GetMarked(s, k), GetMarked(t, k);
    var t' := UpdateExpireIndex(t, k, prev, result);
    assert SeqnosDistinct(t');
    if prev != result {
      forall ek | ek in t'.expire && t'.expire[ek].Some?
        ensures Live(t', t'.expire[ek].value) && t'.user[t'.expire[ek].value].IndexKey() == Some(ek)
      {
        if result.IndexKey() != Some(ek) {
          assert ek in s.expire && s.expire[ek] == t'.expire[ek];
          assert t'.expire[ek].value != k;
        }
      }
    }
  }

  /** Every upsert keeps the index exact and the sequence numbers distinct. */
  lemma UpsertKeepsIndex(s: IndexedStore, u: UpsertKV, now: u64)
    requires WellIndexed(s)
    ensures WellIndexed(UpsertIndexed(s, u, now).st.s)
  {
    PrimaryShape(s, u, now);
    IndexRepaired(s, UpsertPrimaryIndex(s, u, now).s, u.key);
  }
}
