/**
 * The version vector seen as the set of (site, counter) stamps it counts as
 * applied. A wire version {siteId, counter, exceptions} stands for every
 * counter from 1 to `counter` of that site except the listed exceptions.
 */
module Vector {
  import opened Wire

  /** The stamps a wire version counts as applied. */
  function Covered(v: Version): set<Stamp>
  {
    set c: nat | 1 <= c <= v.counter && c !in v.exceptions :: Stamp(v.siteId, c)
  }

  /** The stamps a list of wire versions counts as applied. */
  function CoveredAll(vs: seq<Version>): set<Stamp>
  {
    if vs == [] then {} else CoveredAll(vs[..|vs| - 1]) + Covered(vs[|vs| - 1])
  }

  /**
   * After adopting a snapshot of versions, a stamp counts as applied exactly
   * when some version of its site reaches its counter and does not list it as
   * an exception.
   */
  lemma {:induction false} CoveredAllSpec(vs: seq<Version>, st: Stamp)
    ensures st in CoveredAll(vs) <==>
      exists v :: v in vs && v.siteId == st.siteId && 1 <= st.counter <= v.counter && st.counter !in v.exceptions
    decreases |vs|
  {
    if vs != [] {
      var init, last := vs[..|vs| - 1], vs[|vs| - 1];
      CoveredAllSpec(init, st);
      assert vs == init + [last];
      if st in Covered(last) {
        assert last in vs;
      }
      if exists v :: v in vs && v.siteId == st.siteId && 1 <= st.counter <= v.counter && st.counter !in v.exceptions {
        var v :| v in vs && v.siteId == st.siteId && 1 <= st.counter <= v.counter && st.counter !in v.exceptions;
        if v != last {
          assert v in init;
        } else {
          assert st == Stamp(last.siteId, st.counter);
        }
      }
    }
  }
}
