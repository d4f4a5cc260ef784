/** `leveldb::VlogManager` as a class whose fields its methods update in
    place, each method proved against the functions of module VlogRegistry. */
module Manager {
  import opened Uint
  import opened VlogRegistry

  /** `VlogManager::KeyValueInfo`: offsets of the key-value records of one
      log. Only its size is modelled; the capacity reserved by the
      constructor is a performance hint with no observable effect. */
  class KeyValueInfo {
    var keyValuesPos: seq<U32>

    /** `count()`: the number of offsets, returned as a `uint32_t`. */
    function Count(): (c: U32)
      reads this
      ensures |keyValuesPos| < TwoTo32 ==> c == |keyValuesPos|
      ensures c <= |keyValuesPos| && (|keyValuesPos| - c) % TwoTo32 == 0
    {
      |keyValuesPos| % TwoTo32
    }

    /** Reserving capacity leaves the vector empty. */
    constructor ()
      ensures keyValuesPos == [] && Count() == 0
    {
      keyValuesPos := [];
    }
  }

  class VlogManager {
    /** `manager_`, keyed by the low 32 bits of the log number. */
    var manager: map<U32, VlogInfo>
    /** `clean_threshold_`: stored, never read. */
    var cleanThreshold: U32
    /** `now_vlog_`: the number given to the most recent `AddVlog`. */
    var nowVlog: U32

    /** The manager's value. */
    function State(): Registry
      reads this
    {
      Registry(manager, cleanThreshold, nowVlog)
    }

    /** `VlogManager(clean_threshold)`. */
    constructor (threshold: U64)
      ensures State() == Init(threshold)
      ensures manager == map[] && nowVlog == 0
    {
      manager := map[];
      cleanThreshold := Truncate32(threshold);
      nowVlog := 0;
    }

    /** `AddVlog(vlog_numb, vlog)`: a default-initialised `VlogInfo` gets the
        reader, an unused `KeyValueInfo` is built, the entry is inserted unless
        its key is present, and the active log is overwritten regardless. */
    method AddVlog(vlogNumb: U64, vlog: VReader?)
      modifies this
      ensures State() == Add(old(State()), vlogNumb, vlog)
      ensures nowVlog == Truncate32(vlogNumb) && cleanThreshold == old(cleanThreshold)
      ensures Truncate32(vlogNumb) in old(manager) ==> manager == old(manager)
      ensures Truncate32(vlogNumb) !in old(manager) ==>
        manager == old(manager)[Truncate32(vlogNumb) := VlogInfo(vlog)]
    {
      var v := VlogInfo(null);
      v := v.(vlog := vlog);
      var keyValueInfo := new KeyValueInfo();
      var key := Truncate32(vlogNumb);
      if key !in manager {
        manager := manager[key := v];
      }
      nowVlog := key;
    }

    /** `GetVlog(vlog_numb)`: the stored reader, or null. */
    method GetVlog(vlogNumb: U64) returns (r: VReader?)
      ensures r == Get(State(), vlogNumb)
      ensures r != null ==> Truncate32(vlogNumb) in manager && manager[Truncate32(vlogNumb)].vlog == r
      ensures NoNullReaders(State()) ==> (r == null <==> Truncate32(vlogNumb) !in manager)
    {
      var key := Truncate32(vlogNumb);
      if key !in manager {
        r := null;
      } else {
        r := manager[key].vlog;
      }
    }

    /** `~VlogManager()`: walks every entry and deletes its reader. A delete
        is modelled by adding the reader to the returned multiset; deleting a
        null pointer adds nothing. The walk order is left open. */
    method Destroy() returns (released: multiset<VReader>)
      ensures forall r: VReader :: released[r] == ReleaseCount(State(), r)
      ensures DistinctReaders(State()) ==> forall r: VReader :: released[r] <= 1
    {
      released := multiset{};
      var remaining := manager.Keys;
      while remaining != {}
        invariant remaining <= manager.Keys
        invariant forall r: VReader :: released[r] == |Holders(manager, r) - remaining|
        decreases remaining
      {
        var key :| key in remaining;
        var vlog := manager[key].vlog;
        ghost var before := released;
        if vlog != null {
          released := released + multiset{vlog};
        }
        WalkStep(manager, remaining, key, before, released);
        remaining := remaining - {key};
      }
      WalkFinished(State(), released);
    }
  }

  /** One step of the destructor's walk. Its invariant: every reader has
      been released once per visited entry holding it, an entry being visited
      once its key has left `remaining`. Deleting the reader of `key` (if not
      null) and marking `key` visited keeps the invariant. */
  lemma WalkStep(entries: map<U32, VlogInfo>, remaining: set<U32>, key: U32,
                 released: multiset<VReader>, released': multiset<VReader>)
    requires key in remaining && key in entries
    requires forall r: VReader :: released[r] == |Holders(entries, r) - remaining|
    requires released' == if entries[key].vlog != null then released + multiset{entries[key].vlog} else released
    ensures forall r: VReader :: released'[r] == |Holders(entries, r) - (remaining - {key})|
  {
    forall r: VReader
      ensures released'[r] == |Holders(entries, r) - (remaining - {key})|
    {
      var h := Holders(entries, r);
      if entries[key].vlog == r {
        assert key in h;
        assert h - (remaining - {key}) == (h - remaining) + {key};
      } else {
        assert key !in h;
        assert h - (remaining - {key}) == h - remaining;
      }
    }
  }

  /** The end of the destructor's walk: with every key visited, each reader
      has been released exactly `ReleaseCount` times, and at most once when
      the stored readers are distinct. */
  lemma WalkFinished(s: Registry, released: multiset<VReader>)
    requires forall r: VReader :: released[r] == |Holders(s.entries, r) - {}|
    ensures forall r: VReader :: released[r] == ReleaseCount(s, r)
    ensures DistinctReaders(s) ==> forall r: VReader :: released[r] <= 1
  {
    forall r: VReader
      ensures released[r] == ReleaseCount(s, r)
      ensures DistinctReaders(s) ==> released[r] <= 1
    {
      assert Holders(s.entries, r) - {} == Holders(s.entries, r);
      if DistinctReaders(s) {
        ReleasedAtMostOnce(s, r);
      }
    }
  }

  /** A client of the class: register logs 1 and 2, look up 1, 2, 3 and the
      number 2^32 + 1 that aliases log 1, then tear down. */
  method TwoLogsClient(r1: VReader, r2: VReader) returns (found: seq<VReader?>, released: multiset<VReader>)
    requires r1 != r2
    ensures found == [r1, r2, null, r1]
    ensures released == multiset{r1, r2}
  {
    var m := new VlogManager(0);
    m.AddVlog(1, r1);
    m.AddVlog(2, r2);
    var a := m.GetVlog(1);
    var b := m.GetVlog(2);
    var c := m.GetVlog(3);
    var d := m.GetVlog(0x1_0000_0001);
    found := [a, b, c, d];
    released := m.Destroy();
    TwoLogsScenario(0, r1, r2);
    forall r: VReader | r != r1 && r != r2
      ensures released[r] == 0
    {
      assert Holders(m.manager, r) == {};
    }
  }
}
