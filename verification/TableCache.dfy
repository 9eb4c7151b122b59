/**
 The sector cache in front of the tables of a volume, `acache_get`: a few slots, the least
 recently used one of which is given up. Writes go through to the disk at once.
 */
module TableCache {
  import opened Bits

  class Disk {
    var sectors: seq<Sector>

    constructor (s: seq<Sector>)
      ensures sectors == s
    {
      sectors := s;
    }
  }

  // a slot: the area it holds, when it was used last, and how often at that time
  datatype Slot = Empty(time: nat, acc: nat) | Holding(area: nat, time: nat, acc: nat, buf: Sector)

  class Acache {
    const disk: Disk
    const slots: array<Slot>

    // Every slot agrees with the disk, and no area is held twice.
    ghost predicate Coherent()
      reads this, disk, slots
    {
      && slots.Length >= 2
      && (forall i :: 0 <= i < slots.Length && slots[i].Holding? ==>
            slots[i].area < |disk.sectors| && slots[i].buf == disk.sectors[slots[i].area])
      && (forall i, j :: 0 <= i < j < slots.Length && slots[i].Holding? && slots[j].Holding? ==> slots[i].area != slots[j].area)
    }

    constructor (d: Disk, size: nat)
      requires size >= 2
      ensures Coherent() && disk == d && fresh(slots) && slots.Length == size
    {
      disk := d;
      slots := new Slot[size](_ => Empty(0, 0));
    }

    // slot i holds the area
    ghost predicate Has(i: int, area: nat)
      reads this, slots
    {
      0 <= i < slots.Length && slots[i].Holding? && slots[i].area == area
    }

    // Is slot i used less recently?
    predicate Older(i: nat, minTime: nat, minAcc: nat)
      requires i < slots.Length
      reads this, slots
    {
      slots[i].time < minTime || (slots[i].time == minTime && slots[i].acc < minAcc)
    }

    // The slot that holds the area, or the one to be given up for it, which is never slot `never`.
    method FindSlot(area: nat, never: int) returns (found: bool, index: nat)
      requires Coherent()
      ensures index < slots.Length
      ensures found ==> Has(index, area)
      ensures !found ==> index != never && forall i :: 0 <= i < slots.Length && slots[i].Holding? ==> slots[i].area != area
      ensures !found ==> forall i :: 0 <= i < slots.Length && i != never ==> !Older(i, slots[index].time, slots[index].acc)
    {
      index := if never == 0 then 1 else 0;
      var minTime, minAcc := slots[index].time, slots[index].acc;
      var i := 0;
      while i < slots.Length
        invariant i <= slots.Length && index < slots.Length && index != never
        invariant minTime == slots[index].time && minAcc == slots[index].acc
        invariant forall k :: 0 <= k < i && slots[k].Holding? ==> slots[k].area != area
        invariant forall k :: 0 <= k < i && k != never ==>
                    slots[k].time > minTime || (slots[k].time == minTime && slots[k].acc >= minAcc)
      {
        if Older(i, minTime, minAcc) && never != i {
          minTime, minAcc, index := slots[i].time, slots[i].acc, i;
        }
        if slots[i].Holding? && slots[i].area == area { return true, i; }
        i := i + 1;
      }
      found := false;
    }

    // acache_get: the slot of the area; -1 if it cannot be read. `now` is the current time.
    method Get(area: nat, never: int, now: nat) returns (index: int)
      requires Coherent()
      modifies slots
      ensures Coherent()
      ensures index >= -1 && (index == -1 <==> area >= |disk.sectors|)
      ensures index >= 0 ==> Has(index, area) && slots[index].buf == disk.sectors[area]
      ensures forall a :: old(Has(never, a)) && a != area ==> Has(never, a) && index != never
    {
      var found, i := FindSlot(area, never);
      if found {
        slots[i] := if slots[i].time == now then slots[i].(acc := slots[i].acc + 1) else slots[i].(time := now, acc := 0);
        return i;
      }
      if area >= |disk.sectors| {
        slots[i] := Empty(slots[i].time, slots[i].acc);
        return -1;
      }
      slots[i] := Holding(area, now, 0, disk.sectors[area]);
      index := i;
    }

    // the buffer of a slot is changed and written
    method Put(index: nat, buf: Sector)
      requires Coherent() && index < slots.Length && slots[index].Holding?
      modifies slots, disk
      ensures Coherent() && disk.sectors == old(disk.sectors)[old(slots[index].area) := buf]
      ensures forall i, a :: old(Has(i, a)) <==> Has(i, a)
    {
      var area := slots[index].area;
      slots[index] := slots[index].(buf := buf);
      disk.sectors := disk.sectors[area := buf];
    }
  }
}
