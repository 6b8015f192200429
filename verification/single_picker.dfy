/** `SimpleSinglePicker`'s selection logic: one bound `selection`, compared by `id`. */
module SinglePicker {
  import opened PickerValues
  import MultiPicker

  /** `isSelected`: the value has the selection's id, which is what the multiple picker answers
      for a selection holding only this one value. */
  function IsSelected<K(==)>(selection: PickerValue<K>, value: PickerValue<K>): (r: bool)
    ensures r <==> MultiPicker.IsSelected([selection], value)
  {
    assert [selection][0] == selection;
    selection.id == value.id
  }

  /** `select`: a value with the selected id leaves the selection alone, any other value
      becomes the selection. */
  function Select<K(==)>(selection: PickerValue<K>, value: PickerValue<K>): (r: PickerValue<K>)
    ensures IsSelected(r, value)
    ensures r.id == value.id
    ensures selection.id == value.id ==> r == selection
    ensures selection.id != value.id ==> r == value
  {
    if IsSelected(selection, value) then selection else value
  }

  /** Selecting twice is selecting once. */
  lemma SelectIdempotent<K>(selection: PickerValue<K>, value: PickerValue<K>)
    ensures Select(Select(selection, value), value) == Select(selection, value)
  {
  }

  /** Selecting a value that differs from the selection in anything but its id does not
      overwrite the selection. */
  lemma SelectDoesNotOverwriteSameId<K>(selection: PickerValue<K>, value: PickerValue<K>)
    requires selection.id == value.id && selection != value
    ensures Select(selection, value) == selection && Select(selection, value) != value
  {
  }
}
