/** Per-user maps: entries that are created once, kept, and dropped with their user. */
module Maps {
  function Restricted<V>(m: map<nat, V>, live: set<nat>): map<nat, V> {
    map u | u in m && u in live :: m[u]
  }

  /** A present entry stays what it is. */
  function Ensured<V>(m: map<nat, V>, uid: nat, v: V): (r: map<nat, V>)
    ensures uid in r && r[uid] == if uid in m then m[uid] else v
  {
    if uid in m then m else m[uid := v]
  }

  ghost predicate Kept<V>(before: map<nat, V>, after: map<nat, V>) {
    forall u :: u in before ==> u in after && after[u] == before[u]
  }

  lemma KeptInsert<V>(table: map<nat, V>, before: map<nat, V>, after: map<nat, V>, uid: nat)
    requires Kept(table, before) && uid in after && after == Ensured(before, uid, after[uid])
    ensures Kept(table[uid := after[uid]], after) && Kept(table, after)
    ensures table[uid := after[uid]].Keys == table.Keys + {uid}
  {
  }

  lemma KeptRestricted<V>(table: map<nat, V>, full: map<nat, V>, live: set<nat>)
    requires Kept(table, full)
    ensures Kept(Restricted(table, live), Restricted(full, live))
    ensures table.Keys == live ==> table == Restricted(full, live)
  {
  }
}
