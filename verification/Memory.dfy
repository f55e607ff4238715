/** How the memory of a set of processes is counted (crates/memmux-metrics/src/sample.rs): three plain
    sums, of the PSS of the processes that report one, of the physical footprint of those that report
    only that, and of the RSS of all others. */
module Memory {
  import opened Prelude
  import opened ProcessTree

  ghost function Sum(sizes: map<Pid, nat>): nat {
    if sizes == map[] then 0 else var p :| p in sizes; sizes[p] + Sum(sizes - {p})
  }

  function PssSizes(t: Tree, s: set<Pid>): map<Pid, nat> {
    map p | p in s && p in t.byPid && t.byPid[p].pssBytes.Some? :: t.byPid[p].pssBytes.value
  }

  function FootprintSizes(t: Tree, s: set<Pid>): map<Pid, nat> {
    map p | p in s && p in t.byPid && t.byPid[p].pssBytes.None? && t.byPid[p].physFootprintBytes.Some?
      :: t.byPid[p].physFootprintBytes.value
  }

  function RssSizes(t: Tree, s: set<Pid>): map<Pid, nat> {
    map p | p in s && p in t.byPid && t.byPid[p].pssBytes.None? && t.byPid[p].physFootprintBytes.None?
      :: t.byPid[p].rssBytes
  }

  /** The bytes of the sampled processes of a set. */
  ghost function MemoryOf(t: Tree, s: set<Pid>): nat {
    Sum(PssSizes(t, s)) + Sum(FootprintSizes(t, s)) + Sum(RssSizes(t, s))
  }

  /** A sum does not depend on the order of adding. */
  lemma {:induction false} SumRemove(sizes: map<Pid, nat>, p: Pid)
    requires p in sizes
    ensures Sum(sizes) == sizes[p] + Sum(sizes - {p})
    decreases |sizes|
  {
    var q :| q in sizes && Sum(sizes) == sizes[q] + Sum(sizes - {q});
    if q != p {
      SumRemove(sizes - {q}, p);
      SumRemove(sizes - {p}, q);
      assert sizes - {q} - {p} == sizes - {p} - {q};
    }
  }

  lemma SumAdd(sizes: map<Pid, nat>, p: Pid, size: nat)
    requires p !in sizes
    ensures Sum(sizes[p := size]) == Sum(sizes) + size
  {
    SumRemove(sizes[p := size], p);
    assert sizes[p := size] - {p} == sizes;
  }

  /** One more process adds the one size that counts for it. */
  lemma MemoryAdds(t: Tree, s: set<Pid>, p: Pid)
    requires p !in s
    ensures MemoryOf(t, s + {p}) == MemoryOf(t, s) + if p in t.byPid then t.byPid[p].AccountedBytes() else 0
  {
    hide Sum;
    var pss, footprint, rss := PssSizes(t, s), FootprintSizes(t, s), RssSizes(t, s);
    var pss', footprint', rss' := PssSizes(t, s + {p}), FootprintSizes(t, s + {p}), RssSizes(t, s + {p});
    if p !in t.byPid {
      assert pss' == pss && footprint' == footprint && rss' == rss;
    } else if t.byPid[p].pssBytes.Some? {
      assert pss' == pss[p := t.byPid[p].pssBytes.value] && footprint' == footprint && rss' == rss;
      SumAdd(pss, p, t.byPid[p].pssBytes.value);
    } else if t.byPid[p].physFootprintBytes.Some? {
      assert pss' == pss && footprint' == footprint[p := t.byPid[p].physFootprintBytes.value] && rss' == rss;
      SumAdd(footprint, p, t.byPid[p].physFootprintBytes.value);
    } else {
      assert pss' == pss && footprint' == footprint && rss' == rss[p := t.byPid[p].rssBytes];
      SumAdd(rss, p, t.byPid[p].rssBytes);
    }
  }

  lemma MemoryOfNothing(t: Tree)
    ensures MemoryOf(t, {}) == 0
  {
    assert PssSizes(t, {}) == map[] && FootprintSizes(t, {}) == map[] && RssSizes(t, {}) == map[];
  }
}
