/** The persisted countdown target (app.js `getSavedTargetISO`,
    `setSavedTargetISO`): one key-value slot, modelled as an optional string,
    read with a fallback to the built-in default. */
module TargetStore {
  import opened Options

  /** The built-in target moment, used when nothing usable is stored. */
  const DefaultTarget: string := "2026-06-26T14:00"

  /** The contents of the `countdown_target_iso` slot; `None` when the key was
      never written. */
  type Slot = Option<string>

  /** The stored string, unless it is missing or empty, in which case the
      default: JavaScript's `||` treats both `null` and `""` as false. */
  function GetSaved(slot: Slot): (iso: string)
    ensures slot.Some? && slot.value != "" ==> iso == slot.value
    ensures slot.None? || slot.value == "" ==> iso == DefaultTarget
    ensures iso != ""
  {
    if slot.Some? && slot.value != "" then slot.value else DefaultTarget
  }

  /** Writing the slot replaces whatever it held. */
  function SetSaved(slot: Slot, iso: string): (slot': Slot)
    ensures slot'.Some? && slot'.value == iso
  {
    Some(iso)
  }

  /** What a write stores is what a read returns, except that an empty string
      reads as the default. */
  lemma ReadAfterWrite(slot: Slot, iso: string)
    ensures GetSaved(SetSaved(slot, iso)) == (if iso == "" then DefaultTarget else iso)
  {
  }

  /** A read never depends on what the slot held before the last write. */
  lemma WriteForgetsPrevious(a: Slot, b: Slot, iso: string)
    ensures GetSaved(SetSaved(a, iso)) == GetSaved(SetSaved(b, iso))
  {
  }
}
