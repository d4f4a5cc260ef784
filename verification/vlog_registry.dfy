/** The value of a `leveldb::VlogManager` and what each of its operations does
    to that value: the specification the imperative class in module Manager is
    proved against, and the lemmas that say what it promises.

    The registry maps a value-log number, narrowed to 32 bits, to a
    `VlogInfo` holding the (possibly null) reader pointer for that log. */
module VlogRegistry {
  import opened Uint

  /** `log::VReader`: an open value-log file. Only its identity matters
      here, so it has no fields; a C++ `VReader*` is a `VReader?`. */
  class VReader {}

  /** `VlogManager::VlogInfo`: the per-log entry, a single reader pointer. */
  datatype VlogInfo = VlogInfo(vlog: VReader?)

  /** The fields of a `VlogManager`: `manager_`, `clean_threshold_` and
      `now_vlog_`, all keyed or typed as `uint32_t`. */
  datatype Registry = Registry(entries: map<U32, VlogInfo>, cleanThreshold: U32, nowVlog: U32)

  /** One call `AddVlog(vlogNumb, vlog)`. */
  datatype Registration = Registration(vlogNumb: U64, vlog: VReader?)

  // ---------------------------------------------------------------------
  // The operations
  // ---------------------------------------------------------------------

  /** A freshly constructed manager: no logs, active log 0, and the 64-bit
      threshold narrowed to 32 bits. */
  function Init(threshold: U64): (s: Registry)
    ensures s.entries == map[] && s.nowVlog == 0
    ensures forall n: U64 :: Get(s, n) == null
    ensures threshold < TwoTo32 ==> s.cleanThreshold == threshold
    ensures (threshold - s.cleanThreshold) % TwoTo32 == 0
  {
    Registry(map[], Truncate32(threshold), 0)
  }

  /** `AddVlog`: insert under the narrowed number unless that key is already
      present (the earlier entry then wins), and make the narrowed number the
      active log in either case. */
  function Add(s: Registry, vlogNumb: U64, vlog: VReader?): (t: Registry)
    ensures t.nowVlog == Truncate32(vlogNumb) && t.cleanThreshold == s.cleanThreshold
    ensures Truncate32(vlogNumb) in t.entries
    ensures Truncate32(vlogNumb) in s.entries ==> t.entries == s.entries
    ensures Truncate32(vlogNumb) !in s.entries ==> t.entries[Truncate32(vlogNumb)] == VlogInfo(vlog)
    ensures forall k :: k in s.entries ==> k in t.entries && t.entries[k] == s.entries[k]
    ensures forall k :: k in t.entries && k != Truncate32(vlogNumb) ==> k in s.entries
    ensures |t.entries| == |s.entries| + (if Truncate32(vlogNumb) in s.entries then 0 else 1)
  {
    var key := Truncate32(vlogNumb);
    if key in s.entries then
      Registry(s.entries, s.cleanThreshold, key)
    else
      Registry(s.entries[key := VlogInfo(vlog)], s.cleanThreshold, key)
  }

  /** `GetVlog`: the reader stored under the narrowed number, or null when
      there is none. */
  function Get(s: Registry, vlogNumb: U64): (r: VReader?)
    ensures Truncate32(vlogNumb) !in s.entries ==> r == null
    ensures Truncate32(vlogNumb) in s.entries ==> r == s.entries[Truncate32(vlogNumb)].vlog
  {
    var key := Truncate32(vlogNumb);
    if key in s.entries then s.entries[key].vlog else null
  }

  /** The keys whose entry holds reader `r`. */
  ghost function Holders(entries: map<U32, VlogInfo>, r: VReader): set<U32>
  {
    set k | k in entries && entries[k].vlog == r
  }

  /** How many times the destructor deletes `r`: once per entry holding it.
      Deleting a null pointer releases nothing, and null is no `VReader`. A
      count above 1 stands for a second `delete` of the same object, which is
      undefined behaviour in C++. */
  ghost function ReleaseCount(s: Registry, r: VReader): (n: nat)
    ensures n <= |s.entries|
    ensures (forall k :: k in s.entries ==> s.entries[k].vlog != r) ==> n == 0
  {
    SubsetCardinality(Holders(s.entries, r), s.entries.Keys);
    assert |s.entries.Keys| == |s.entries|;
    |Holders(s.entries, r)|
  }

  /** A sequence of `AddVlog` calls, in order. */
  function AddAll(s: Registry, regs: seq<Registration>): (t: Registry)
    ensures t.cleanThreshold == s.cleanThreshold
    ensures regs == [] ==> t == s
    ensures regs != [] ==> t.nowVlog == Truncate32(regs[|regs| - 1].vlogNumb)
    ensures s.entries.Keys <= t.entries.Keys
    decreases |regs|
  {
    if regs == [] then s else AddAll(Add(s, regs[0].vlogNumb, regs[0].vlog), regs[1..])
  }

  // ---------------------------------------------------------------------
  // Invariants the ownership rule asks callers to keep
  // ---------------------------------------------------------------------

  /** Every stored reader was obtained from `new`, hence is not null. */
  ghost predicate NoNullReaders(s: Registry)
  {
    forall k :: k in s.entries ==> s.entries[k].vlog != null
  }

  /** No reader is owned by two entries (so none is deleted twice). */
  ghost predicate DistinctReaders(s: Registry)
  {
    forall j, k :: j in s.entries && k in s.entries && j != k && s.entries[j].vlog != null ==>
      s.entries[j].vlog != s.entries[k].vlog
  }

  /** Some entry holds `r`. */
  ghost predicate Stores(s: Registry, r: VReader)
  {
    exists k :: k in s.entries && s.entries[k].vlog == r
  }

  // ---------------------------------------------------------------------
  // Single operations
  // ---------------------------------------------------------------------

  /** With only non-null readers stored, a lookup yields null exactly for the
      numbers whose narrowed key is absent. */
  lemma GetNullIffAbsent(s: Registry, vlogNumb: U64)
    requires NoNullReaders(s)
    ensures Get(s, vlogNumb) == null <==> Truncate32(vlogNumb) !in s.entries
  {
  }

  /** A non-null `vlog` keeps every stored reader non-null. */
  lemma AddKeepsNoNullReaders(s: Registry, vlogNumb: U64, vlog: VReader?)
    requires NoNullReaders(s) && vlog != null
    ensures NoNullReaders(Add(s, vlogNumb, vlog))
  {
  }

  /** Handing over a reader the manager does not already own keeps the owned
      readers distinct. */
  lemma AddKeepsDistinctReaders(s: Registry, vlogNumb: U64, vlog: VReader?)
    requires DistinctReaders(s)
    requires vlog == null || !Stores(s, vlog)
    ensures DistinctReaders(Add(s, vlogNumb, vlog))
  {
  }

  /** After `AddVlog(n, r)`, a lookup of `n` gives `r` if the key was new and
      the earlier reader otherwise; lookups of numbers with another key are
      unaffected. */
  lemma AddThenGet(s: Registry, vlogNumb: U64, vlog: VReader?, other: U64)
    ensures Truncate32(vlogNumb) !in s.entries ==> Get(Add(s, vlogNumb, vlog), vlogNumb) == vlog
    ensures Truncate32(vlogNumb) in s.entries ==> Get(Add(s, vlogNumb, vlog), vlogNumb) == Get(s, vlogNumb)
    ensures Truncate32(other) != Truncate32(vlogNumb) ==> Get(Add(s, vlogNumb, vlog), other) == Get(s, other)
  {
  }

  /** Keys are narrowed: a lookup of a number that was never registered
      returns the reader of any registered number that differs from it by a
      multiple of 2^32. */
  lemma AliasedLookup(s: Registry, vlogNumb: U64, vlog: VReader?, alias: U64)
    requires Truncate32(vlogNumb) !in s.entries
    requires (alias - vlogNumb) % TwoTo32 == 0
    ensures Get(Add(s, vlogNumb, vlog), alias) == vlog
  {
  }

  /** The smallest instance: log 1 and log 2^32 + 1 share a slot. */
  lemma AliasedLookupExample(threshold: U64, vlog: VReader)
    ensures Get(Add(Init(threshold), 1, vlog), 0x1_0000_0001) == vlog
    ensures Get(Add(Init(threshold), 0x1_0000_0001, vlog), 1) == vlog
  {
  }

  /** Teardown after `AddVlog`: the new reader is released once more exactly
      when its key was new; no other reader's release count changes. */
  lemma AddReleaseCount(s: Registry, vlogNumb: U64, vlog: VReader?, r: VReader)
    ensures ReleaseCount(Add(s, vlogNumb, vlog), r) ==
      ReleaseCount(s, r) + (if Truncate32(vlogNumb) !in s.entries && vlog == r then 1 else 0)
  {
    var t := Add(s, vlogNumb, vlog);
    var key := Truncate32(vlogNumb);
    if key !in s.entries && vlog == r {
      assert Holders(t.entries, r) == Holders(s.entries, r) + {key};
      assert key !in Holders(s.entries, r);
    } else {
      assert Holders(t.entries, r) == Holders(s.entries, r);
    }
  }

  /** A second `AddVlog` under a key that is already present keeps the earlier
      reader and never stores the new one, so teardown never releases it: the
      new reader leaks. */
  lemma DuplicateAddLeaks(s: Registry, vlogNumb: U64, vlog: VReader)
    requires Truncate32(vlogNumb) in s.entries
    requires !Stores(s, vlog)
    ensures Get(Add(s, vlogNumb, vlog), vlogNumb) == Get(s, vlogNumb) != vlog
    ensures ReleaseCount(Add(s, vlogNumb, vlog), vlog) == 0
  {
  }

  /** A reader is released by teardown exactly when some entry holds it. */
  lemma ReleasedIffStored(s: Registry, r: VReader)
    ensures ReleaseCount(s, r) > 0 <==> Stores(s, r)
  {
    if Stores(s, r) {
      var k :| k in s.entries && s.entries[k].vlog == r;
      assert k in Holders(s.entries, r);
    }
  }

  /** With distinct readers, teardown releases no reader twice. */
  lemma ReleasedAtMostOnce(s: Registry, r: VReader)
    requires DistinctReaders(s)
    ensures ReleaseCount(s, r) <= 1
  {
    var h := Holders(s.entries, r);
    if h != {} {
      var k :| k in h;
      assert h <= {k};
      SubsetCardinality(h, {k});
    }
  }

  /** Helper: a subset is no larger than its superset. */
  lemma SubsetCardinality<T>(a: set<T>, b: set<T>)
    requires a <= b
    ensures |a| <= |b|
  {
    assert b == a + (b - a);
  }

  // ---------------------------------------------------------------------
  // Sequences of registrations
  // ---------------------------------------------------------------------

  /** Entries that exist before a sequence of `AddVlog` calls survive it
      unchanged. */
  lemma {:induction false} AddAllKeepsEntries(s: Registry, regs: seq<Registration>, key: U32)
    requires key in s.entries
    ensures key in AddAll(s, regs).entries && AddAll(s, regs).entries[key] == s.entries[key]
    decreases |regs|
  {
    if regs != [] {
      AddAllKeepsEntries(Add(s, regs[0].vlogNumb, regs[0].vlog), regs[1..], key);
    }
  }

  /** First registration wins: the reader passed in the first call whose
      number narrows to a key not present at the start is the one a lookup
      returns after the whole sequence. */
  lemma {:induction false} AddAllFirstWins(s: Registry, regs: seq<Registration>, i: nat)
    requires i < |regs|
    requires Truncate32(regs[i].vlogNumb) !in s.entries
    requires forall j :: 0 <= j < i ==> Truncate32(regs[j].vlogNumb) != Truncate32(regs[i].vlogNumb)
    ensures Get(AddAll(s, regs), regs[i].vlogNumb) == regs[i].vlog
    decreases |regs|
  {
    var s' := Add(s, regs[0].vlogNumb, regs[0].vlog);
    if i == 0 {
      AddAllKeepsEntries(s', regs[1..], Truncate32(regs[0].vlogNumb));
    } else {
      assert regs[1..][i - 1] == regs[i];
      AddAllFirstWins(s', regs[1..], i - 1);
    }
  }

  /** A number whose narrowed key is neither present at the start nor shared
      with any registered number is still not found afterwards. */
  lemma {:induction false} AddAllNeverRegistered(s: Registry, regs: seq<Registration>, vlogNumb: U64)
    requires Truncate32(vlogNumb) !in s.entries
    requires forall j :: 0 <= j < |regs| ==> Truncate32(regs[j].vlogNumb) != Truncate32(vlogNumb)
    ensures Get(AddAll(s, regs), vlogNumb) == null
    decreases |regs|
  {
    if regs != [] {
      var s' := Add(s, regs[0].vlogNumb, regs[0].vlog);
      assert forall j :: 0 <= j < |regs| - 1 ==> regs[1..][j] == regs[j + 1];
      AddAllNeverRegistered(s', regs[1..], vlogNumb);
    }
  }

  /** Registration numbers that are pairwise distinct once narrowed. */
  ghost predicate DistinctKeys(regs: seq<Registration>)
  {
    forall i, j :: 0 <= i < j < |regs| ==> Truncate32(regs[i].vlogNumb) != Truncate32(regs[j].vlogNumb)
  }

  /** The readers passed in a sequence of calls are all non-null and no
      reader is passed twice. Whether they are new to the manager is a
      separate condition. */
  ghost predicate DistinctNonNullReaders(regs: seq<Registration>)
  {
    forall i, j :: 0 <= i < |regs| && 0 <= j < |regs| ==>
      regs[i].vlog != null && (i != j ==> regs[i].vlog != regs[j].vlog)
  }

  /** Starting from a fresh manager, registrations with distinct (narrowed)
      numbers are each found again. */
  lemma DistinctRegistrationsFound(threshold: U64, regs: seq<Registration>, i: nat)
    requires DistinctKeys(regs) && i < |regs|
    ensures Get(AddAll(Init(threshold), regs), regs[i].vlogNumb) == regs[i].vlog
  {
    AddAllFirstWins(Init(threshold), regs, i);
  }

  /** Every reader handed over in the sequence, and nothing else, is either
      stored or was passed for a key that was taken; the invariants survive. */
  lemma {:induction false} AddAllKeepsInvariants(s: Registry, regs: seq<Registration>)
    requires NoNullReaders(s) && DistinctReaders(s)
    requires DistinctNonNullReaders(regs)
    requires forall j :: 0 <= j < |regs| ==> !Stores(s, regs[j].vlog)
    ensures NoNullReaders(AddAll(s, regs)) && DistinctReaders(AddAll(s, regs))
    decreases |regs|
  {
    if regs != [] {
      var s' := Add(s, regs[0].vlogNumb, regs[0].vlog);
      AddKeepsNoNullReaders(s, regs[0].vlogNumb, regs[0].vlog);
      AddKeepsDistinctReaders(s, regs[0].vlogNumb, regs[0].vlog);
      forall j | 0 <= j < |regs| - 1
        ensures !Stores(s', regs[1..][j].vlog)
      {
        assert regs[1..][j] == regs[j + 1];
        assert regs[j + 1].vlog != regs[0].vlog;
      }
      AddAllKeepsInvariants(s', regs[1..]);
    }
  }

  /** Teardown after registering distinct numbers with freshly allocated,
      distinct readers releases each of those readers exactly once. */
  lemma RegisteredReleasedOnce(threshold: U64, regs: seq<Registration>, i: nat)
    requires DistinctKeys(regs) && DistinctNonNullReaders(regs) && i < |regs|
    ensures regs[i].vlog != null && ReleaseCount(AddAll(Init(threshold), regs), regs[i].vlog) == 1
  {
    var t := AddAll(Init(threshold), regs);
    AddAllKeepsInvariants(Init(threshold), regs);
    AddAllFirstWins(Init(threshold), regs, i);
    var key := Truncate32(regs[i].vlogNumb);
    assert key in t.entries && t.entries[key].vlog == regs[i].vlog;
    ReleasedIffStored(t, regs[i].vlog);
    ReleasedAtMostOnce(t, regs[i].vlog);
  }

  // ---------------------------------------------------------------------
  // Scenarios
  // ---------------------------------------------------------------------

  /** Register logs 1 and 2, look up 1, 2 and 3, tear down. */
  lemma TwoLogsScenario(threshold: U64, r1: VReader, r2: VReader)
    requires r1 != r2
    ensures var s := Add(Add(Init(threshold), 1, r1), 2, r2);
      && Get(s, 1) == r1 && Get(s, 2) == r2 && Get(s, 3) == null
      && s.nowVlog == 2
      && ReleaseCount(s, r1) == 1 && ReleaseCount(s, r2) == 1
  {
    var s0 := Init(threshold);
    var s1 := Add(s0, 1, r1);
    AddReleaseCount(s0, 1, r1, r1);
    AddReleaseCount(s0, 1, r1, r2);
    AddReleaseCount(s1, 2, r2, r1);
    AddReleaseCount(s1, 2, r2, r2);
  }

  /** Register log 5 twice with different readers: the first stays, the
      active log is 5, and the second reader is never released. */
  lemma DuplicateScenario(threshold: U64, r5: VReader, r5b: VReader)
    requires r5 != r5b
    ensures var s := Add(Add(Init(threshold), 5, r5), 5, r5b);
      && Get(s, 5) == r5 && s.nowVlog == 5
      && ReleaseCount(s, r5) == 1 && ReleaseCount(s, r5b) == 0
  {
  }

  /** The active log is the last call's narrowed number, whatever came before
      and whether or not the insert happened. */
  lemma ActiveLogIsLastCall(s: Registry, a: U64, ra: VReader?, b: U64, rb: VReader?)
    ensures Add(Add(s, a, ra), b, rb).nowVlog == Truncate32(b)
  {
  }
}
