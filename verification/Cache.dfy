/** The cache and its evictor as objects; every method refines its function in CacheSpec. */
module Caches {
  import opened CacheSpec
  import Spec = CacheSpec

  const NUL: char := '\0'

  /** What a C function sees of characters in memory: everything before the first NUL. */
  function CString(s: string): (r: string)
    ensures |r| <= |s| && r == s[..|r|] && NUL !in r
    ensures |r| < |s| ==> s[|r|] == NUL
    ensures NUL in s ==> |r| < |s|
  {
    if s == [] || s[0] == NUL then [] else [s[0]] + CString(s[1..])
  }

  /** What a buffer of the given size holds once a value was copied into it. */
  predicate IsCopy(stored: string, val: string, valSize: nat) {
    var n := |CString(val)|;
    && |stored| == valSize > 0 && stored[valSize - 1] == NUL
    && CString(val)[..if n < valSize then n else valSize - 1] <= stored
  }

  ghost function AnyCopy(val: string, valSize: nat): (stored: string)
    requires |CString(val)| <= valSize && 0 < valSize
    ensures IsCopy(stored, val, valSize)
  {
    (CString(val) + seq(valSize - |CString(val)|, _ => NUL))[..valSize - 1] + [NUL]
  }

  /** Evicts keys in the order in which they were touched; a key is queued once for every touch. */
  class FifoEvictor {
    var contents: seq<Key>

    constructor ()
      ensures contents == []
    {
      contents := [];
    }

    method TouchKey(key: Key)
      modifies this
      ensures contents == old(contents) + [key]
    {
      contents := contents + [key];
    }

    method Evict() returns (key: Key)
      modifies this
      ensures key == NextKey(old(contents)) && contents == Behind(old(contents))
    {
      key := "";
      if contents != [] {
        key := contents[0];
        contents := contents[1..];
      }
    }
  }

  class Cache {
    var dict: map<Key, Entry>
    var size: nat
    const maxmem: nat
    const evictor: FifoEvictor?

    constructor (maxmem: nat, evictor: FifoEvictor?)
      requires maxmem < WORD
      ensures this.maxmem == maxmem && this.evictor == evictor
      ensures Coherent(State()) && State().dict == map[]
    {
      this.dict, this.size, this.maxmem, this.evictor := map[], 0, maxmem, evictor;
    }

    ghost function State(): Store
      reads this, evictor
    {
      Store(dict, size, maxmem, if evictor == null then None else Some(evictor.contents))
    }

    ghost function Footprint(): set<object> {
      {this} + if evictor == null then {} else {evictor}
    }

    /**
     * The value is copied up to its NUL and the last byte is made a NUL, which cuts off the last
     * character of a value as long as the size. The bytes in between are whatever the new buffer
     * held, so the stored bytes are an output. A longer value would be copied beyond the buffer.
     */
    method Set(key: Key, val: string, valSize: nat) returns (ghost stored: string)
      requires SetEnds(State(), key, valSize)
      requires NUL in val && |CString(val)| <= valSize && 0 < valSize < WORD
      modifies Footprint()
      ensures IsCopy(stored, val, valSize)
      ensures State() == Spec.Set(old(State()), key, stored, valSize)
    {
      if key in dict {
        var _ := Del(key);
      }
      if Add32(size, valSize) > maxmem && evictor == null {
        stored := AnyCopy(val, valSize);
        return;
      }
      ghost var s1 := State();
      while Add32(size, valSize) > maxmem
        invariant evictor != null ==> MakesRoom(State(), valSize)
        invariant evictor != null ==> EvictUntilFits(State(), valSize) == EvictUntilFits(s1, valSize)
        invariant evictor == null ==> State() == s1 && !TooFull(s1, valSize)
        decreases if evictor == null then 0 else |evictor.contents|
      {
        var key' := evictor.Evict();
        var _ := Del(key');
      }
      var copy := CopyValue(val, valSize);
      stored := copy;
      dict := dict[key := Entry(Some(copy), valSize)];
      size := Add32(size, valSize);
      if evictor != null {
        evictor.TouchKey(key);
      }
    }

    static method CopyValue(val: string, valSize: nat) returns (stored: string)
      requires NUL in val && |CString(val)| <= valSize && 0 < valSize
      ensures IsCopy(stored, val, valSize)
    {
      var copy := new char[valSize];
      var i := 0;
      while val[i] != NUL
        invariant 0 <= i <= |CString(val)| && copy[..i] == val[..i]
        decreases |val| - i
      {
        copy[i] := val[i];
        i := i + 1;
      }
      copy[valSize - 1] := NUL;
      stored := copy[..];
    }

    /** A miss leaves an empty entry behind. */
    method Get(key: Key) returns (val: Option<string>, valSize: nat)
      modifies Footprint()
      ensures State() == Spec.Get(old(State()), key)
      ensures Entry(val, valSize) == Found(old(State()), key)
    {
      if evictor != null {
        evictor.TouchKey(key);
      }
      if key !in dict {
        dict := dict[key := MISSED];
      }
      return dict[key].bytes, dict[key].size;
    }

    method Del(key: Key) returns (deleted: bool)
      modifies this
      ensures State() == Spec.Del(old(State()), key)
      ensures deleted <==> key in old(dict)
    {
      if key !in dict {
        return false;
      }
      size := Sub32(size, dict[key].size);
      dict := dict - {key};
      return true;
    }

    method SpaceUsed() returns (used: nat)
      ensures used == State().used
    {
      return size;
    }

    /** The evictor's queue is left as it is. */
    method Reset()
      modifies this
      ensures State() == Spec.Reset(old(State()))
    {
      dict := map[];
      size := 0;
    }
  }
}
