/**
  The iButton allow-list: a fixed table of MAX_IBUTTONS records kept in the
  EEPROM image, with registration (duplicate check, first free slot), lookup
  and soft deletion, plus the acceptance test applied to a freshly read ROM.
 */
module IButtonManager {
  import opened Common
  import opened OneWireCrc

  // ---------------------------------------------------------------- constants

  const MAX_IBUTTONS: nat := 20
  const IBUTTON_ID_LEN: nat := 8
  /** Associated id reported when a lookup finds nothing. */
  const INVALID_ASSOCIATED_ID: U32 := 0
  /** Family code of the DS1990A serial-number iButton. */
  const DS1990A_FAMILY_CODE: Byte := 0x01

  /**
    `sizeof(IButtonRecord)`: `is_valid` at offset 0, three padding bytes so
    that `associated_id` sits on a 4-byte boundary at offset 4, and the eight
    id bytes at offsets 8..15.
   */
  const RECORD_SIZE: nat := 16
  const EEPROM_SIZE: nat := RECORD_SIZE * MAX_IBUTTONS

  // --------------------------------------------------------------- data model

  /** The 8 bytes of a 1-Wire ROM: family code, 48-bit serial, CRC. */
  type IButtonId = s: seq<Byte> | |s| == 8 witness [0, 0, 0, 0, 0, 0, 0, 0]

  datatype IButtonRecord = IButtonRecord(isValid: bool, associatedId: U32, ibuttonId: IButtonId)

  /** Byte offset of slot `i` in the EEPROM (`i * sizeof(IButtonRecord)`). */
  function SlotOffset(i: nat): nat {
    i * RECORD_SIZE
  }

  /** Every slot lies inside the EEPROM and no two slots overlap. */
  lemma SlotsFitAndAreDisjoint(i: nat, j: nat)
    requires i < MAX_IBUTTONS && j < MAX_IBUTTONS && i != j
    ensures SlotOffset(i) + RECORD_SIZE <= EEPROM_SIZE
    ensures SlotOffset(i) + RECORD_SIZE <= SlotOffset(j) || SlotOffset(j) + RECORD_SIZE <= SlotOffset(i)
  {
  }

  // ------------------------------------------------------ reading an iButton

  /** Why `readIButton` rejects a ROM, or that it accepts it. */
  datatype ReadOutcome = Accepted | CrcMismatch | NotDs1990A(familyCode: Byte)

  /** The checks `readIButton` runs on the 8 bytes found by the bus search: CRC first, family code second. */
  function CheckRom(rom: IButtonId): ReadOutcome {
    if Crc8(rom[..7]) != rom[7] then CrcMismatch
    else if rom[0] != DS1990A_FAMILY_CODE then NotDs1990A(rom[0])
    else Accepted
  }

  /** `readIButton`: `searched` is what the bus search produced (None when no device answered). */
  function ReadIButton(searched: Option<IButtonId>): (ok: bool)
    ensures ok <==> searched.Some? && Crc8(searched.value[..7]) == searched.value[7]
                    && searched.value[0] == DS1990A_FAMILY_CODE
  {
    searched.Some? && CheckRom(searched.value) == Accepted
  }

  /** A bad CRC is reported as such whatever the family code is. */
  lemma CrcCheckedBeforeFamily(rom: IButtonId)
    requires Crc8(rom[..7]) != rom[7]
    ensures CheckRom(rom) == CrcMismatch
  {
  }

  /** An accepted ROM is a DS1990A whose whole 8 bytes check to a zero CRC. */
  lemma AcceptedRomIsSelfChecking(rom: IButtonId)
    requires CheckRom(rom) == Accepted
    ensures rom[0] == DS1990A_FAMILY_CODE
    ensures Crc8(rom) == 0
  {
    assert rom == rom[..7] + [rom[7]];
    Crc8SelfCheck(rom[..7]);
  }

  /** The ROM of Maxim Application Note 27 has a good CRC but is not a DS1990A. */
  lemma Application27RomIsRejectedByFamily()
    ensures CheckRom([0x02, 0x1C, 0xB8, 0x01, 0x00, 0x00, 0x00, 0xA2]) == NotDs1990A(0x02)
  {
    var rom: IButtonId := [0x02, 0x1C, 0xB8, 0x01, 0x00, 0x00, 0x00, 0xA2];
    assert rom[..7] == [0x02, 0x1C, 0xB8, 0x01, 0x00, 0x00, 0x00];
    Application27Example();
  }

  // ------------------------------------------------- the table as a value

  /** Slot record `r` is in use and holds `id`. */
  predicate Holds(r: IButtonRecord, id: IButtonId) {
    r.isValid && r.ibuttonId == id
  }

  /** The first slot at or after `from` that is valid and holds `id`. */
  function FindValidFrom(table: seq<IButtonRecord>, id: IButtonId, from: nat): (r: Option<nat>)
    requires from <= |table|
    ensures r.Some? ==> from <= r.value < |table| && Holds(table[r.value], id)
                        && forall j :: from <= j < r.value ==> !Holds(table[j], id)
    ensures r.None? ==> forall j :: from <= j < |table| ==> !Holds(table[j], id)
    decreases |table| - from
  {
    if from == |table| then None
    else if Holds(table[from], id) then Some(from)
    else FindValidFrom(table, id, from + 1)
  }

  /** The lowest slot that is valid and holds `id`, if any. */
  function FindValid(table: seq<IButtonRecord>, id: IButtonId): Option<nat> {
    FindValidFrom(table, id, 0)
  }

  /** The lowest slot at or after `from` whose `is_valid` flag is clear. */
  function FirstFreeFrom(table: seq<IButtonRecord>, from: nat): (r: Option<nat>)
    requires from <= |table|
    ensures r.Some? ==> from <= r.value < |table| && !table[r.value].isValid
                        && forall j :: from <= j < r.value ==> table[j].isValid
    ensures r.None? ==> forall j :: from <= j < |table| ==> table[j].isValid
    decreases |table| - from
  {
    if from == |table| then None
    else if !table[from].isValid then Some(from)
    else FirstFreeFrom(table, from + 1)
  }

  /** The lowest free slot, if any. */
  function FirstFree(table: seq<IButtonRecord>): Option<nat> {
    FirstFreeFrom(table, 0)
  }

  /** Registration reaches its write: the id is not registered and a slot is free. */
  predicate CanRegister(table: seq<IButtonRecord>, id: IButtonId) {
    FindValid(table, id).None? && FirstFree(table).Some?
  }

  /** The table after `registerIButton`'s `EEPROM.put` (unchanged when it returns before the put). */
  function Registered(table: seq<IButtonRecord>, associatedId: U32, id: IButtonId): seq<IButtonRecord> {
    if CanRegister(table, id)
    then table[FirstFree(table).value := IButtonRecord(true, associatedId, id)]
    else table
  }

  /** The table after `deleteIButton`'s `EEPROM.put` (unchanged when the id is not found). */
  function Deleted(table: seq<IButtonRecord>, id: IButtonId): seq<IButtonRecord> {
    match FindValid(table, id)
    case None => table
    case Some(k) => table[k := table[k].(isValid := false)]
  }

  /** No two valid slots hold the same id. */
  predicate DistinctValid(table: seq<IButtonRecord>) {
    forall i, j :: 0 <= i < j < |table| && table[i].isValid && table[j].isValid
                   ==> table[i].ibuttonId != table[j].ibuttonId
  }

  // ------------------------------------------ properties of the operations

  /** A valid slot holding the id anywhere in the table stops registration, even behind a lower free slot. */
  lemma RegisterRejectsDuplicate(table: seq<IButtonRecord>, associatedId: U32, id: IButtonId, k: nat)
    requires k < |table| && Holds(table[k], id)
    ensures !CanRegister(table, id)
    ensures Registered(table, associatedId, id) == table
  {
  }

  /** With every slot valid, registration writes nothing. */
  lemma RegisterRejectsWhenFull(table: seq<IButtonRecord>, associatedId: U32, id: IButtonId)
    requires forall j :: 0 <= j < |table| ==> table[j].isValid
    ensures !CanRegister(table, id)
    ensures Registered(table, associatedId, id) == table
  {
  }

  /** A successful registration fills exactly the lowest free slot and touches no other. */
  lemma RegisterWritesLowestFreeSlot(table: seq<IButtonRecord>, associatedId: U32, id: IButtonId)
    requires CanRegister(table, id)
    ensures var k := FirstFree(table).value;
            var after := Registered(table, associatedId, id);
            && |after| == |table|
            && !table[k].isValid
            && (forall j :: 0 <= j < k ==> table[j].isValid)
            && after[k] == IButtonRecord(true, associatedId, id)
            && (forall j :: 0 <= j < |table| && j != k ==> after[j] == table[j])
  {
  }

  /** After a successful registration the lookup finds the id with the given associated id. */
  lemma {:induction false} RegisterThenFind(table: seq<IButtonRecord>, associatedId: U32, id: IButtonId)
    requires CanRegister(table, id)
    ensures var after := Registered(table, associatedId, id);
            FindValid(after, id) == FirstFree(table)
            && after[FindValid(after, id).value].associatedId == associatedId
  {
    var k := FirstFree(table).value;
    var after := Registered(table, associatedId, id);
    assert Holds(after[k], id);
    assert forall j :: 0 <= j < k ==> !Holds(after[j], id) by {
      forall j | 0 <= j < k ensures !Holds(after[j], id) {
        assert after[j] == table[j];
      }
    }
  }

  /** Registration keeps the valid ids distinct. */
  lemma {:induction false} RegisterPreservesDistinct(table: seq<IButtonRecord>, associatedId: U32, id: IButtonId)
    requires DistinctValid(table)
    ensures DistinctValid(Registered(table, associatedId, id))
  {
    if CanRegister(table, id) {
      var k := FirstFree(table).value;
      var after := Registered(table, associatedId, id);
      forall i, j | 0 <= i < j < |after| && after[i].isValid && after[j].isValid
        ensures after[i].ibuttonId != after[j].ibuttonId
      {
        if i == k {
          assert !Holds(table[j], id);
        } else if j == k {
          assert !Holds(table[i], id);
        }
      }
    }
  }

  /** Deletion clears `is_valid` of the first match only and keeps its associated id and id bytes. */
  lemma DeleteClearsOnlyTheFlag(table: seq<IButtonRecord>, id: IButtonId)
    requires FindValid(table, id).Some?
    ensures var k := FindValid(table, id).value;
            var after := Deleted(table, id);
            && |after| == |table|
            && after[k] == IButtonRecord(false, table[k].associatedId, table[k].ibuttonId)
            && (forall j :: 0 <= j < |table| && j != k ==> after[j] == table[j])
  {
  }

  /** Deleting an id that is not registered writes nothing. */
  lemma DeleteOfUnknownIdWritesNothing(table: seq<IButtonRecord>, id: IButtonId)
    requires forall j :: 0 <= j < |table| ==> !Holds(table[j], id)
    ensures Deleted(table, id) == table
  {
  }

  /** Deletion keeps the valid ids distinct. */
  lemma DeletePreservesDistinct(table: seq<IButtonRecord>, id: IButtonId)
    requires DistinctValid(table)
    ensures DistinctValid(Deleted(table, id))
  {
  }

  /** With distinct valid ids, a deleted id is no longer found. */
  lemma {:induction false} DeleteThenNotFound(table: seq<IButtonRecord>, id: IButtonId)
    requires DistinctValid(table)
    ensures FindValid(Deleted(table, id), id).None?
  {
    var after := Deleted(table, id);
    match FindValid(table, id)
    case None =>
    case Some(k) =>
      forall j | 0 <= j < |after| ensures !Holds(after[j], id) {
        if j != k {
          assert after[j] == table[j];
          if j > k && table[j].isValid {
            assert table[k].ibuttonId != table[j].ibuttonId;
          }
        }
      }
  }

  /** Deleting what was just registered restores every valid slot and every flag. */
  lemma {:induction false} DeleteUndoesRegister(table: seq<IButtonRecord>, associatedId: U32, id: IButtonId)
    requires CanRegister(table, id)
    ensures var back := Deleted(Registered(table, associatedId, id), id);
            && |back| == |table|
            && forall j :: 0 <= j < |table| ==>
                 back[j].isValid == table[j].isValid && (table[j].isValid ==> back[j] == table[j])
  {
    RegisterThenFind(table, associatedId, id);
  }

  // ------------------------------------------------------- the EEPROM image

  /**
    The EEPROM image the store reads with `EEPROM.get` and writes with
    `EEPROM.put`; `commitSucceeds` stands for the result of `EEPROM.commit()`.
   */
  class IButtonStore {
    var image: array<IButtonRecord>

    ghost predicate Valid()
      reads this
    {
      image.Length == MAX_IBUTTONS
    }

    /** Whatever the flash held at power-up; the store does not format it. */
    constructor (initial: seq<IButtonRecord>)
      requires |initial| == MAX_IBUTTONS
      ensures Valid() && fresh(image) && image[..] == initial
    {
      image := new IButtonRecord[MAX_IBUTTONS](i requires 0 <= i < MAX_IBUTTONS => initial[i]);
    }

    /** `registerIButton`: the result is the commit result once the record has been put. */
    method RegisterIButton(associatedId: U32, id: IButtonId, commitSucceeds: bool) returns (ok: bool)
      requires Valid()
      modifies image
      ensures Valid()
      ensures image[..] == Registered(old(image[..]), associatedId, id)
      ensures ok == (CanRegister(old(image[..]), id) && commitSucceeds)
    {
      var firstFreeSlot := -1;
      var i := 0;
      while i < MAX_IBUTTONS
        invariant 0 <= i <= MAX_IBUTTONS
        invariant forall j :: 0 <= j < i ==> !Holds(image[j], id)
        invariant firstFreeSlot == -1 ==> forall j :: 0 <= j < i ==> image[j].isValid
        invariant firstFreeSlot != -1 ==> 0 <= firstFreeSlot < i && !image[firstFreeSlot].isValid
                                          && forall j :: 0 <= j < firstFreeSlot ==> image[j].isValid
      {
        var entry := image[i];
        if entry.isValid {
          if entry.ibuttonId == id {
            assert FindValid(image[..], id).Some?;
            return false;
          }
        } else if firstFreeSlot == -1 {
          firstFreeSlot := i;
        }
        i := i + 1;
      }
      if firstFreeSlot == -1 {
        assert FirstFree(image[..]).None?;
        return false;
      }
      assert FirstFree(image[..]) == Some(firstFreeSlot);
      image[firstFreeSlot] := IButtonRecord(true, associatedId, id);
      ok := commitSucceeds;
    }

    /** `isIButtonRegistered`: the associated id of the first valid match, or INVALID_ASSOCIATED_ID. */
    method IsIButtonRegistered(id: IButtonId) returns (found: bool, associatedIdOut: U32)
      requires Valid()
      ensures found <==> exists j :: 0 <= j < image.Length && Holds(image[j], id)
      ensures found ==> FindValid(image[..], id).Some?
                        && associatedIdOut == image[FindValid(image[..], id).value].associatedId
      ensures !found ==> associatedIdOut == INVALID_ASSOCIATED_ID
    {
      var i := 0;
      while i < MAX_IBUTTONS
        invariant 0 <= i <= MAX_IBUTTONS
        invariant forall j :: 0 <= j < i ==> !Holds(image[j], id)
      {
        var entry := image[i];
        if entry.isValid && entry.ibuttonId == id {
          assert FindValid(image[..], id) == Some(i);
          return true, entry.associatedId;
        }
        i := i + 1;
      }
      return false, INVALID_ASSOCIATED_ID;
    }

    /** `deleteIButton`: soft delete of the first valid match; the result is the commit result. */
    method DeleteIButton(id: IButtonId, commitSucceeds: bool) returns (ok: bool)
      requires Valid()
      modifies image
      ensures Valid()
      ensures image[..] == Deleted(old(image[..]), id)
      ensures ok == (FindValid(old(image[..]), id).Some? && commitSucceeds)
    {
      var found := false;
      var slotToDelete := -1;
      var entry := IButtonRecord(false, 0, [0, 0, 0, 0, 0, 0, 0, 0]);
      var i := 0;
      while i < MAX_IBUTTONS
        invariant 0 <= i <= MAX_IBUTTONS
        invariant !found
        invariant forall j :: 0 <= j < i ==> !Holds(image[j], id)
      {
        entry := image[i];
        if entry.isValid && entry.ibuttonId == id {
          found := true;
          slotToDelete := i;
          assert FindValid(image[..], id) == Some(i);
          break;
        }
        i := i + 1;
      }
      if !found {
        assert FindValid(image[..], id).None?;
        return false;
      }
      entry := entry.(isValid := false);
      image[slotToDelete] := entry;
      ok := commitSucceeds;
    }
  }
}
