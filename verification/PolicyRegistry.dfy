/** `mac_policy_register` and `mac_policy_unregister` on the growing array of `mac_policy_list`. */
module PolicyRegistry {
  import opened Errno
  import opened PolicyList

  class MacPolicyList {
    var numloaded: int
    var max: int
    var maxindex: int
    var staticmax: int
    var chunks: int
    var freehint: int
    var entries: array<Entry>
    var slotOffsetsFree: set<int>
    var late: bool

    ghost function Value(): Registry
      reads this, entries
    {
      Registry(entries[..], numloaded, max, maxindex, staticmax, chunks, freehint, slotOffsetsFree, late)
    }

    constructor ()
      ensures Value() == Initial() && fresh(entries)
    {
      numloaded, max, maxindex, staticmax, chunks, freehint := 0, CHUNK, 0, 0, 1, 0;
      entries := new Entry[CHUNK](_ => Empty);
      slotOffsetsFree := {0, 1, 2, 3, 4, 5, 6};
      late := false;
      new;
      assert entries[..] == NEW_CHUNK;
    }

    /** Make room for one more policy: a new array with one more chunk, the old entries copied. */
    method EnsureRoom()
      requires Inv(Value())
      modifies this`entries, this`max, this`chunks
      ensures Value() == Roomy(old(Value()))
      ensures entries == old(entries) || fresh(entries)
    {
      if numloaded >= max {
        var before := entries;
        var more := new Entry[CHUNK * (chunks + 1)](_ => Empty);
        for i := 0 to CHUNK * chunks
          modifies more
          invariant forall j :: 0 <= j < i ==> more[j] == before[j]
          invariant forall j :: i <= j < more.Length ==> more[j] == Empty
        {
          more[i] := before[i];
        }
        entries := more;
        max := max + CHUNK;
        chunks := chunks + 1;
        assert entries[..] == before[..] + NEW_CHUNK;
      }
    }

    /** The scan for a policy of the same name, up to `maxindex` only. */
    method NameLoaded(name: string) returns (taken: bool)
      requires Inv(Value())
      ensures taken == NameTaken(entries[..], name)
    {
      for i := 0 to maxindex + 1
        invariant forall j :: 0 <= j < i && entries[j].Loaded? ==> entries[j].conf.name != name
      {
        if entries[i].Loaded? && entries[i].conf.name == name {
          return true;
        }
      }
      return false;
    }

    /** The scan for a free handle, from the hint on. */
    method FindHandle() returns (handle: int)
      requires Inv(Value()) && numloaded < max
      modifies this`freehint
      ensures LeastFree(entries[..], handle) && freehint == handle + 1
    {
      ghost var h := HandleExists(Value());
      handle := freehint;
      while entries[handle].Loaded?
        invariant 0 <= handle <= h && forall j :: 0 <= j < handle ==> entries[j].Loaded?
        decreases h - handle
      {
        handle := handle + 1;
      }
      freehint := handle + 1;
    }

    /** Put the policy at the first free handle, with the label slot found for it. */
    method Enter(conf: Conf, slot: int) returns (handle: int)
      requires Inv(Value()) && numloaded < max
      modifies this, entries
      ensures LeastFree(old(entries[..]), handle) && Value() == Place(old(Value()), conf, handle, slot)
      ensures entries == old(entries)
    {
      hide DistinctNames, SlotsOk, Count;
      handle := FindHandle();
      if conf.wantsSlot {
        slotOffsetsFree := slotOffsetsFree - {slot};
      }
      if !late || (!conf.unloadOk && handle == staticmax) {
        staticmax := staticmax + 1;
      }
      entries[handle] := Loaded(conf, slot);
      if handle > maxindex {
        maxindex := handle;
      }
      numloaded := numloaded + 1;
    }

    /** The lowest free label slot, for a policy that wants one. */
    method FindSlot(conf: Conf) returns (found: bool, slot: int)
      requires Inv(Value())
      ensures found <==> !(conf.wantsSlot && slotOffsetsFree == {})
      ensures found ==> LeastSlot(slotOffsetsFree, conf, slot)
    {
      slot := -1;
      if conf.wantsSlot {
        slot := Ffs(slotOffsetsFree);
        if slot == 0 {
          FfsNone(slotOffsetsFree);
          return false, slot;
        }
        slot := slot - 1;
      }
      return true, slot;
    }

    method Register(conf: Conf) returns (o: Outcome)
      requires Inv(Value())
      modifies this, entries
      ensures Registers(old(Value()), conf, Value(), o)
      ensures entries == old(entries) || fresh(entries)
    {
      hide CountersOk, DistinctNames, SlotsOk, NameTaken, Place, LeastSlot, LeastFree;
      if late && conf.notLate {
        return Error(EPERM);
      }
      RoomyInv(Value());
      EnsureRoom();
      var taken := NameLoaded(conf.name);
      if taken {
        return Error(EEXIST);
      }
      var found, slot := FindSlot(conf);
      if !found {
        return Error(ENOMEM);
      }
      var handle := Enter(conf, slot);
      return Done(handle);
    }

    method Unregister(handle: int) returns (o: Outcome)
      requires 0 <= handle < entries.Length && entries[handle].Loaded?
      modifies this, entries
      ensures (Value(), o) == PolicyList.Unregister(old(Value()), handle)
      ensures entries == old(entries)
    {
      var mpc := entries[handle];
      if !mpc.conf.unloadOk {
        return Error(EBUSY);
      }
      entries[handle] := Empty;
      if handle < freehint && handle >= staticmax {
        freehint := handle;
      }
      if handle == maxindex {
        maxindex := Decrement(maxindex);
      }
      numloaded := numloaded - 1;
      if mpc.conf.wantsSlot {
        slotOffsetsFree := slotOffsetsFree + {mpc.slot};
      }
      assert entries[..] == old(entries[..])[handle := Empty];
      return Done(handle);
    }
  }
}
