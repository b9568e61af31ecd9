/** Leaving boot services while the firmware's memory map may change under the loader
    (UEFI 2.10, sections 7.2.3 GetMemoryMap and 7.4.6 ExitBootServices). */
module ExitBootServices {
  import opened Words
  import opened Bytes

  datatype Status = Success | InvalidParameter | BufferTooSmall | Other(code: nat)

  /** What happens before one of the coming boot-service calls: the memory map may be
      replaced, and the call itself may fail with a firmware error. */
  datatype Event = Event(change: Option<bytes>, fault: Option<nat>)

  /** A memory map: one descriptor or more, and small enough to add two. */
  predicate MapShape(m: bytes, descriptorSize: nat) {
    descriptorSize > 0 && m != [] && |m| % descriptorSize == 0 && |m| + 2 * descriptorSize < TWO_64
  }

  /** A later state of the firmware: some events have happened, and the map is the one before or
      one that an event brought. */
  ghost predicate Later(map0: bytes, events0: seq<Event>, map1: bytes, events1: seq<Event>) {
    && |events1| <= |events0| && events1 == events0[|events0| - |events1|..]
    && (map1 == map0 || exists e <- events0 :: e.change == Some(map1))
  }

  lemma LaterTrans(map0: bytes, events0: seq<Event>, map1: bytes, events1: seq<Event>, map2: bytes, events2: seq<Event>)
    requires Later(map0, events0, map1, events1) && Later(map1, events1, map2, events2)
    ensures Later(map0, events0, map2, events2)
  {
    assert events1[|events1| - |events2|..] == events0[|events0| - |events2|..];
    forall e <- events1 ensures e in events0 {}
  }

  lemma LaterRefl(memoryMap: bytes, events: seq<Event>)
    ensures Later(memoryMap, events, memoryMap, events)
  {
  }

  /** Some coming call fails with this error. */
  ghost predicate Faulty(events: seq<Event>, code: nat) { exists e <- events :: e.fault == Some(code) }

  /** The map, now or after some event, does not fit the capacity. */
  ghost predicate TooLarge(memoryMap: bytes, events: seq<Event>, capacity: nat) {
    |memoryMap| > capacity || exists e <- events :: e.change.Some? && |e.change.value| > capacity
  }

  /** Why the protocol may end with this status: a failure of the firmware, or a map too large. */
  ghost predicate Justified(status: Status, memoryMap: bytes, events: seq<Event>, capacity: nat) {
    match status
    case Success => true
    case InvalidParameter => false
    case BufferTooSmall => TooLarge(memoryMap, events, capacity)
    case Other(code) => Faulty(events, code)
  }

  lemma LaterJustifies(status: Status, map0: bytes, events0: seq<Event>, map1: bytes, events1: seq<Event>,
                       capacity: nat)
    requires Later(map0, events0, map1, events1) && Justified(status, map1, events1, capacity)
    ensures Justified(status, map0, events0, capacity)
  {
    forall e <- events1 ensures e in events0 {}
    if |map1| > capacity {
      assert map1 == map0 || exists e <- events0 :: e.change == Some(map1);
    }
  }

  lemma FaultJustifies(status: Status, memoryMap: bytes, events: seq<Event>, capacity: nat)
    requires status.Other? && Faulty(events, status.code)
    ensures Justified(status, memoryMap, events, capacity)
  {
  }

  /** With a firmware that never fails and maps that fit, whatever changes and whenever, there is no end but success. */
  lemma SuccessUnless(status: Status, memoryMap: bytes, events: seq<Event>, capacity: nat)
    requires Justified(status, memoryMap, events, capacity)
    ensures (|memoryMap| <= capacity
             && forall e <- events :: e.fault == None && (e.change.Some? ==> |e.change.value| <= capacity))
            ==> status == Success
  {
  }

  function EntryCount(mapSize: nat, descriptorSize: nat): nat
    requires descriptorSize > 0
  {
    mapSize / descriptorSize
  }

  /** The firmware with a finite list of future events; every schedule of map changes and
      faults between the loader's calls is such a list. The map key is the map's version. */
  class Firmware {
    const descriptorSize: nat
    var memoryMap: bytes
    var version: nat
    var pool: map<nat, bytes>   // live pool blocks
    var nextBlock: nat
    var events: seq<Event>
    var exited: bool

    ghost predicate Valid()
      reads this
    {
      && MapShape(memoryMap, descriptorSize)
      && (forall e <- events :: e.change.Some? ==> MapShape(e.change.value, descriptorSize))
      && (forall b <- pool :: b < nextBlock)
    }

    constructor (descriptorSize: nat, memoryMap: bytes, events: seq<Event>)
      requires MapShape(memoryMap, descriptorSize)
      requires forall e <- events :: e.change.Some? ==> MapShape(e.change.value, descriptorSize)
      ensures Valid() && !exited && pool == map[] && this.events == events && this.memoryMap == memoryMap
      ensures this.descriptorSize == descriptorSize
    {
      this.descriptorSize, this.memoryMap, this.version, this.events := descriptorSize, memoryMap, 0, events;
      pool, nextBlock, exited := map[], 0, false;
    }

    lemma NotEmpty()
      requires Valid()
      ensures |memoryMap| > 0
    {
    }

    lemma WholeEntries()
      requires Valid()
      ensures descriptorSize > 0
      ensures var n := EntryCount(|memoryMap|, descriptorSize); n * descriptorSize == |memoryMap| && n > 0
    {
    }

    /** The next event takes effect. The version counts the changes. */
    method Tick() returns (fault: Option<nat>)
      requires Valid() && !exited
      modifies this`memoryMap, this`version, this`events
      ensures Valid()
      ensures old(events) == [] ==>
                fault == None && memoryMap == old(memoryMap) && version == old(version) && events == []
      ensures old(events) != [] ==> events == old(events)[1..]
      ensures version >= old(version) && (version == old(version) ==> memoryMap == old(memoryMap))
      ensures Later(old(memoryMap), old(events), memoryMap, events)
      ensures fault.Some? ==> Faulty(old(events), fault.value)
    {
      fault := None;
      if events != [] {
        var e := events[0];
        events := events[1..];
        fault := e.fault;
        if e.change.Some? {
          memoryMap, version := e.change.value, version + 1;
        }
      }
    }

    /** The map and its key, when the buffer is large enough; otherwise the size needed. */
    method GetMemoryMap(size: nat, buffer: Option<nat>)
      returns (status: Status, outSize: nat, key: nat, outDescriptorSize: nat)
      requires Valid() && !exited
      requires buffer.Some? ==> buffer.value in pool && |pool[buffer.value]| >= size
      modifies this`memoryMap, this`version, this`events, this`pool
      ensures Valid() && !exited && outDescriptorSize == descriptorSize
      ensures old(events) == [] ==> !status.Other? && memoryMap == old(memoryMap) && events == []
      ensures old(events) != [] ==> events == old(events)[1..]
      ensures status == BufferTooSmall ==> size < |memoryMap| == outSize
      ensures status == Success ==> buffer.Some? && |memoryMap| == outSize <= size && key == version
                                    && pool == old(pool)[buffer.value := memoryMap + old(pool)[buffer.value][outSize..]]
      ensures status == InvalidParameter ==> buffer == None && |memoryMap| <= size
      ensures status != Success ==> pool == old(pool)
      ensures Later(old(memoryMap), old(events), memoryMap, events)
      ensures status.Other? ==> Faulty(old(events), status.code)
    {
      hide Later, Faulty;
      outSize, key, outDescriptorSize := size, 0, descriptorSize;
      var fault := Tick();
      if fault.Some? {
        return Other(fault.value), outSize, key, outDescriptorSize;
      }
      outSize := |memoryMap|;
      if size < |memoryMap| {
        return BufferTooSmall, outSize, key, outDescriptorSize;
      }
      if buffer == None {
        return InvalidParameter, outSize, key, outDescriptorSize;
      }
      pool := pool[buffer.value := memoryMap + pool[buffer.value][outSize..]];
      return Success, outSize, version, outDescriptorSize;
    }

    method AllocatePool(size: nat) returns (status: Status, block: nat)
      requires Valid() && !exited
      modifies this`memoryMap, this`version, this`events, this`pool, this`nextBlock
      ensures Valid() && !exited
      ensures old(events) == [] ==> status == Success && memoryMap == old(memoryMap) && events == []
      ensures old(events) != [] ==> events == old(events)[1..]
      ensures status == Success ==> block !in old(pool) && block in pool && |pool[block]| == size
                                    && pool == old(pool)[block := pool[block]]
      ensures status == Success || status.Other?
      ensures status != Success ==> pool == old(pool)
      ensures Later(old(memoryMap), old(events), memoryMap, events)
      ensures status.Other? ==> Faulty(old(events), status.code)
    {
      hide Later, Faulty;
      block := 0;
      var fault := Tick();
      if fault.Some? {
        return Other(fault.value), block;
      }
      block := nextBlock;
      pool, nextBlock := pool[block := Zeros(size)], nextBlock + 1;
      return Success, block;
    }

    /** Only a live block may be freed. */
    method FreePool(block: nat)
      requires Valid() && !exited && block in pool
      modifies this`memoryMap, this`version, this`events, this`pool
      ensures Valid() && !exited && pool == old(pool) - {block}
      ensures old(events) == [] ==> memoryMap == old(memoryMap) && events == []
      ensures old(events) != [] ==> events == old(events)[1..]
      ensures Later(old(memoryMap), old(events), memoryMap, events)
    {
      hide Later, Faulty;
      var fault := Tick();
      pool := pool - {block};
    }

    /** Succeeds only with the key of the map as it is now. */
    method Exit(key: nat) returns (status: Status)
      requires Valid() && !exited
      modifies this`memoryMap, this`version, this`events, this`exited
      ensures Valid() && status != BufferTooSmall
      ensures exited <==> status == Success
      ensures status == Success ==> key == version
      ensures version >= old(version) && (version == old(version) ==> memoryMap == old(memoryMap))
      ensures old(events) == [] ==> (status == Success <==> key == old(version)) && !status.Other? && events == []
      ensures old(events) == [] ==> memoryMap == old(memoryMap)
      ensures old(events) != [] ==> events == old(events)[1..]
      ensures Later(old(memoryMap), old(events), memoryMap, events)
      ensures status.Other? ==> Faulty(old(events), status.code)
    {
      hide Later, Faulty;
      var fault := Tick();
      if fault.Some? {
        return Other(fault.value);
      }
      if key != version {
        return InvalidParameter;
      }
      exited := true;
      return Success;
    }
  }

  /** How one round of the retry loop ends. */
  datatype Round = Retry | Leave(status: Status)

  /** The loader holds one live block of its own beside those it found. */
  ghost predicate HoldsOnly(pool: map<nat, bytes>, found: map<nat, bytes>, block: nat, size: nat) {
    block in pool && block !in found && |pool[block]| == size && pool == found[block := pool[block]]
  }

  /** The size of the map, and a block with room for two descriptors more. */
  method AllocateForMap(fw: Firmware) returns (status: Status, block: nat, size: nat)
    requires fw.Valid() && !fw.exited
    modifies fw
    ensures fw.Valid() && !fw.exited
    ensures old(fw.events) == [] ==> fw.events == [] && status == Success && fw.memoryMap == old(fw.memoryMap)
    ensures status == Success || (status.Other? && Faulty(old(fw.events), status.code))
    ensures status == Success ==> HoldsOnly(fw.pool, old(fw.pool), block, size)
    ensures status != Success ==> fw.pool == old(fw.pool)
    ensures Later(old(fw.memoryMap), old(fw.events), fw.memoryMap, fw.events)
  {
    hide Firmware.Valid, Later, Faulty;
    ghost var map0, events0 := fw.memoryMap, fw.events;
    var mapKey, descriptorSize;
    block := 0;
    status, size, mapKey, descriptorSize := fw.GetMemoryMap(0, None);
    if status != BufferTooSmall {
      fw.NotEmpty();
      return;
    }
    ghost var map1, events1 := fw.memoryMap, fw.events;
    size := size + 2 * descriptorSize;
    status, block := fw.AllocatePool(size);
    LaterTrans(map0, events0, map1, events1, fw.memoryMap, fw.events);
    if status != Success {
      LaterJustifies(status, map0, events0, map1, events1, 0);
    }
  }

  /** FreePool and AllocatePool when the block was too small for the map. */
  method Enlarge(fw: Firmware, tempMap: nat, needed: nat) returns (status: Status, block: nat, size: nat)
    requires fw.Valid() && !fw.exited && tempMap in fw.pool && needed == |fw.memoryMap|
    modifies fw
    ensures fw.Valid() && !fw.exited && size == needed + 2 * fw.descriptorSize
    ensures old(fw.events) == [] ==> fw.events == [] && status == Success && fw.memoryMap == old(fw.memoryMap)
    ensures |fw.events| <= |old(fw.events)|
    ensures status == Success || status.Other?
    ensures status == Success ==> block !in old(fw.pool) - {tempMap} && block in fw.pool && |fw.pool[block]| == size
                                  && fw.pool == (old(fw.pool) - {tempMap})[block := fw.pool[block]]
    ensures status != Success ==> fw.pool == old(fw.pool) - {tempMap}
    ensures Later(old(fw.memoryMap), old(fw.events), fw.memoryMap, fw.events)
    ensures status.Other? ==> Faulty(old(fw.events), status.code)
  {
    hide Firmware.Valid, Later, Faulty;
    fw.FreePool(tempMap);
    ghost var map1, events1 := fw.memoryMap, fw.events;
    size := needed + 2 * fw.descriptorSize;
    status, block := fw.AllocatePool(size);
    if status.Other? {
      LaterJustifies(status, old(fw.memoryMap), old(fw.events), map1, events1, 0);
    }
    LaterTrans(old(fw.memoryMap), old(fw.events), map1, events1, fw.memoryMap, fw.events);
  }

  /** CopyMem to the caller's buffer, then ExitBootServices with the key just read. */
  method CopyAndExit(fw: Firmware, tempMap: nat, finalMap: array<byte>, curMapSize: nat, mapKey: nat)
    returns (status: Status)
    requires fw.Valid() && !fw.exited && tempMap in fw.pool && mapKey == fw.version
    requires curMapSize == |fw.memoryMap| <= finalMap.Length
    requires fw.memoryMap <= fw.pool[tempMap]
    modifies fw, finalMap
    ensures fw.Valid() && fw.pool == old(fw.pool) && status != BufferTooSmall
    ensures fw.exited <==> status == Success
    ensures status == Success ==> |fw.memoryMap| == curMapSize && finalMap[..curMapSize] == fw.memoryMap
    ensures old(fw.events) == [] ==> status == Success && fw.memoryMap == old(fw.memoryMap) && fw.events == []
    ensures old(fw.events) != [] ==> |fw.events| < |old(fw.events)|
    ensures Later(old(fw.memoryMap), old(fw.events), fw.memoryMap, fw.events)
    ensures status.Other? ==> Faulty(old(fw.events), status.code)
  {
    ghost var current := fw.memoryMap;
    var source := fw.pool[tempMap];
    forall i | 0 <= i < curMapSize {
      finalMap[i] := source[i];
    }
    assert finalMap[..curMapSize] == current;
    status := fw.Exit(mapKey);
  }

  /** One round: read the map, or enlarge the block; copy the map out and try to exit with its key.
      It ends the protocol only by success, by an error of the firmware, or because the map it read
      does not fit the caller's buffer; a stale key means another round. */
  method Attempt(fw: Firmware, finalMap: array<byte>, block: nat, size: nat)
    returns (round: Round, tempMap: nat, tempMapSize: nat, mapSize: nat)
    requires fw.Valid() && !fw.exited && finalMap.Length > 0
    requires block in fw.pool && |fw.pool[block]| == size
    modifies fw, finalMap
    ensures fw.Valid() && (fw.exited <==> round == Leave(Success))
    ensures round != Leave(InvalidParameter)
    ensures round == Retry ==>
              && tempMap in fw.pool && |fw.pool[tempMap]| == tempMapSize && tempMap !in old(fw.pool) - {block}
              && fw.pool == (old(fw.pool) - {block})[tempMap := fw.pool[tempMap]]
    ensures round == Retry ==>
              || |fw.events| < |old(fw.events)|
              || (fw.events == [] && size < |old(fw.memoryMap)| && |fw.memoryMap| <= tempMapSize)
    ensures round == Leave(Success) ==>
              && mapSize == |fw.memoryMap| <= finalMap.Length && finalMap[..mapSize] == fw.memoryMap
              && tempMap == block && block in fw.pool && tempMapSize == |fw.pool[block]|
              && fw.pool == old(fw.pool)[block := fw.pool[block]]
    ensures round.Leave? && round.status != Success ==> fw.pool == old(fw.pool) - {block}
    ensures Later(old(fw.memoryMap), old(fw.events), fw.memoryMap, fw.events)
    ensures round.Leave? ==> Justified(round.status, old(fw.memoryMap), old(fw.events), finalMap.Length)
    ensures old(fw.events) == [] ==>
              && fw.events == [] && fw.memoryMap == old(fw.memoryMap)
              && (round == Retry
                  || round == if |fw.memoryMap| <= finalMap.Length then Leave(Success) else Leave(BufferTooSmall))
  {
    hide Firmware.Valid, Later, Faulty, TooLarge;
    var status, mapKey, descSize;
    ghost var map0, events0 := fw.memoryMap, fw.events;
    tempMap, tempMapSize := block, size;
    status, mapSize, mapKey, descSize := fw.GetMemoryMap(tempMapSize, Some(tempMap));
    ghost var map1, events1 := fw.memoryMap, fw.events;
    assert |events1| < |events0| || events1 == events0 == [];
    if status == BufferTooSmall {
      status, tempMap, tempMapSize := Enlarge(fw, tempMap, mapSize);
      assert |fw.events| < |events0| || (fw.events == [] && size < |map0| && |fw.memoryMap| <= tempMapSize);
      LaterTrans(map0, events0, map1, events1, fw.memoryMap, fw.events);
      if status == Success {
        round := Retry;
        return;
      }
      LaterJustifies(status, map0, events0, map1, events1, finalMap.Length);
      round := Leave(status);
      return;
    }
    if status != Success {
      fw.FreePool(tempMap);
      LaterTrans(map0, events0, map1, events1, fw.memoryMap, fw.events);
      round := Leave(status);
      return;
    }
    if mapSize > finalMap.Length {
      NowTooLarge(map1, events1, finalMap.Length);
      LaterJustifies(BufferTooSmall, map0, events0, map1, events1, finalMap.Length);
      fw.FreePool(tempMap);
      LaterTrans(map0, events0, map1, events1, fw.memoryMap, fw.events);
      round := Leave(BufferTooSmall);
      return;
    }
    status := CopyAndExit(fw, tempMap, finalMap, mapSize, mapKey);
    LaterTrans(map0, events0, map1, events1, fw.memoryMap, fw.events);
    if status != Success && status != InvalidParameter {
      LaterJustifies(status, map0, events0, map1, events1, finalMap.Length);
      ghost var map2, events2 := fw.memoryMap, fw.events;
      fw.FreePool(tempMap);
      LaterTrans(map0, events0, map2, events2, fw.memoryMap, fw.events);
    }
    round := if status == InvalidParameter then Retry else Leave(status);
  }

  lemma NowTooLarge(memoryMap: bytes, events: seq<Event>, capacity: nat)
    requires |memoryMap| > capacity
    ensures TooLarge(memoryMap, events, capacity)
  {
  }

  /** The retry loop. It terminates because the schedule is finite. */
  method RetryUntilExit(fw: Firmware, finalMap: array<byte>, block: nat, size: nat, ghost found: map<nat, bytes>)
    returns (status: Status, mapSize: nat)
    requires fw.Valid() && !fw.exited && finalMap.Length > 0
    requires HoldsOnly(fw.pool, found, block, size)
    modifies fw, finalMap
    ensures fw.Valid() && (fw.exited <==> status == Success) && status != InvalidParameter
    ensures status == Success ==> mapSize == |fw.memoryMap| <= finalMap.Length && finalMap[..mapSize] == fw.memoryMap
    ensures status == Success ==> exists b :: b !in found && fw.pool.Keys == found.Keys + {b}
    ensures status != Success ==> fw.pool == found
    ensures forall b <- found :: b in fw.pool && fw.pool[b] == found[b]
    ensures Justified(status, old(fw.memoryMap), old(fw.events), finalMap.Length)
    ensures old(fw.events) == [] ==>
              status == if |old(fw.memoryMap)| <= finalMap.Length then Success else BufferTooSmall
  {
    hide Firmware.Valid, Later, Justified;
    ghost var map0, events0 := fw.memoryMap, fw.events;
    LaterRefl(map0, events0);
    var round, tempMap, tempMapSize: nat := Retry, block, size;
    mapSize := 0;
    while round == Retry
      invariant fw.Valid()
      invariant (fw.exited <==> round == Leave(Success)) && round != Leave(InvalidParameter)
      invariant round == Retry || round == Leave(Success) ==> HoldsOnly(fw.pool, found, tempMap, tempMapSize)
      invariant round.Leave? && round.status != Success ==> fw.pool == found
      invariant Later(map0, events0, fw.memoryMap, fw.events)
      invariant round.Leave? ==> Justified(round.status, map0, events0, finalMap.Length)
      invariant round == Leave(Success) ==>
                  mapSize == |fw.memoryMap| <= finalMap.Length && finalMap[..mapSize] == fw.memoryMap
      invariant events0 == [] ==>
                  && fw.events == [] && fw.memoryMap == map0
                  && (round.Leave? ==>
                        round.status == if |map0| <= finalMap.Length then Success else BufferTooSmall)
      decreases round == Retry, |fw.events|, tempMapSize < |fw.memoryMap|
    {
      ghost var map1, events1 := fw.memoryMap, fw.events;
      round, tempMap, tempMapSize, mapSize := Attempt(fw, finalMap, tempMap, tempMapSize);
      if round.Leave? {
        LaterJustifies(round.status, map0, events0, map1, events1, finalMap.Length);
      }
      LaterTrans(map0, events0, map1, events1, fw.memoryMap, fw.events);
    }
    status := round.status;
  }

  /** ExitBootServicesWithMemoryMapInBuffer. The firmware's preconditions check that no boot
      service is called after the exit, no block is used or freed twice, and every map fits
      the block it is read into. */
  method ExitWithMapInBuffer(fw: Firmware, finalMap: array?<byte>)
    returns (status: Status, entryCount: nat, descriptorSize: nat)
    requires fw.Valid() && !fw.exited
    modifies fw
    modifies if finalMap == null then {} else {finalMap}
    ensures fw.Valid()
    ensures fw.exited <==> status == Success
    ensures status == InvalidParameter <==> finalMap == null || finalMap.Length == 0
    ensures status == Success ==>
              && finalMap != null && |fw.memoryMap| <= finalMap.Length
              && finalMap[..|fw.memoryMap|] == fw.memoryMap
              && descriptorSize == fw.descriptorSize && entryCount * descriptorSize == |fw.memoryMap| && entryCount > 0
    ensures status == Success ==> exists b :: b !in old(fw.pool) && fw.pool.Keys == old(fw.pool).Keys + {b}
    ensures status != Success ==> fw.pool == old(fw.pool)
    ensures forall b <- old(fw.pool) :: b in fw.pool && fw.pool[b] == old(fw.pool)[b]
    ensures old(fw.events) == [] && finalMap != null && finalMap.Length > 0 ==>
              status == if |old(fw.memoryMap)| <= finalMap.Length then Success else BufferTooSmall
    ensures finalMap != null && finalMap.Length > 0 ==>
              Justified(status, old(fw.memoryMap), old(fw.events), finalMap.Length)
    ensures (finalMap != null && 0 < |old(fw.memoryMap)| <= finalMap.Length
             && forall e <- old(fw.events) ::
                  e.fault == None && (e.change.Some? ==> |e.change.value| <= finalMap.Length))
            ==> status == Success
  {
    hide Firmware.Valid, Later, Faulty, Justified, EntryCount;
    ghost var map0, events0 := fw.memoryMap, fw.events;
    entryCount, descriptorSize := 0, fw.descriptorSize;
    if finalMap == null || finalMap.Length == 0 {
      return InvalidParameter, entryCount, descriptorSize;
    }
    var tempMapSize: nat, tempMap: nat, mapSize: nat;
    status, tempMap, tempMapSize := AllocateForMap(fw);
    if status != Success {
      FaultJustifies(status, map0, events0, finalMap.Length);
      SuccessUnless(status, map0, events0, finalMap.Length);
      return;
    }
    ghost var map1, events1 := fw.memoryMap, fw.events;
    status, mapSize := RetryUntilExit(fw, finalMap, tempMap, tempMapSize, old(fw.pool));
    LaterJustifies(status, map0, events0, map1, events1, finalMap.Length);
    SuccessUnless(status, map0, events0, finalMap.Length);
    if status == Success {
      fw.WholeEntries();
      entryCount := EntryCount(mapSize, descriptorSize);
    }
  }
}
