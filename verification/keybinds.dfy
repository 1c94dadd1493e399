/**
  ssnes_console_set_default_keybind_names_for_emulator
  (console/console_ext.c lines 96-118): relabel seven joypad buttons with the
  names the Genesis Plus GX core uses, and leave the table alone otherwise.
*/
module Keybinds {
  import opened CString

  /** The libsnes joypad button ids that index the keybind-name table. */
  datatype Button = B | Y | Select | Start | Up | Down | Left | Right | A | X | L | R

  /** ssnes_default_libsnes_keybind_name_lut: a display name per button. */
  type NameTable = map<Button, CStr>

  const GenesisId: CStr := "Genesis Plus GX"

  /** The seven labels written for Genesis Plus GX. */
  const GenesisNames: map<Button, CStr> := map[
    B := "B button",
    A := "C button",
    X := "Y button",
    Y := "A button",
    L := "X button",
    R := "Z button",
    Select := "Mode button"
  ]

  /**
    The table after the call, for the core identifier id; `width` is the
    size of one slot of the table, the bound strlcpy copies under.
  */
  function SetDefaultKeybindNames(id: CStr, table: NameTable, width: nat): (r: NameTable)
    requires width > 0
    ensures !Contains(id, GenesisId) ==> r == table
    ensures Contains(id, GenesisId) ==>
      && r.Keys == table.Keys + GenesisNames.Keys
      && (forall b :: b in GenesisNames ==> r[b] == Strlcpy(GenesisNames[b], width))
      && (forall b :: b in table && b !in GenesisNames ==> r[b] == table[b])
  {
    if Contains(id, GenesisId) then
      table[B := Strlcpy("B button", width)]
           [A := Strlcpy("C button", width)]
           [X := Strlcpy("Y button", width)]
           [Y := Strlcpy("A button", width)]
           [L := Strlcpy("X button", width)]
           [R := Strlcpy("Z button", width)]
           [Select := Strlcpy("Mode button", width)]
    else
      table
  }

  /** Exactly the seven listed slots can differ from the old table. */
  lemma OnlySevenSlotsChange(id: CStr, table: NameTable, width: nat, b: Button)
    requires width > 0
    requires b in table
    requires SetDefaultKeybindNames(id, table, width)[b] != table[b]
    ensures b in {B, A, X, Y, L, R, Select}
    ensures Contains(id, GenesisId)
  {
  }

  /** Running the patch twice leaves the same table as running it once. */
  lemma PatchIdempotent(id: CStr, table: NameTable, width: nat)
    requires width > 0
    ensures SetDefaultKeybindNames(id, SetDefaultKeybindNames(id, table, width), width)
         == SetDefaultKeybindNames(id, table, width)
  {
  }

  /** With slots of at least 12 characters every label is stored whole. */
  lemma LabelsFitWideSlots(id: CStr, table: NameTable, width: nat)
    requires width >= 12
    requires Contains(id, GenesisId)
    ensures forall b :: b in GenesisNames ==> SetDefaultKeybindNames(id, table, width)[b] == GenesisNames[b]
  {
  }
}
