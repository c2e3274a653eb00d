/** Objects of the rule tree file refer to each other by offset, and always to objects that
    were written later. That is what makes every scan finite. */
module Offsets {
  /** The objects a scan standing at `p` may still visit. */
  ghost function Above<V>(m: map<nat, V>, p: nat): set<nat> {
    set q | q in m && p <= q
  }

  lemma AboveShrinks<V>(m: map<nat, V>, p: nat, q: nat)
    requires p in m && p < q
    ensures Above(m, q) < Above(m, p)
  {
    assert p in Above(m, p) && p !in Above(m, q);
  }
}
