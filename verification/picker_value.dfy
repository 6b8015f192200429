/** `SimplePickerValue`: an option shown by the simple pickers. Pickers compare options by
    `id` only; `displayName` stands for every other field an option may carry. */
module PickerValues {

  datatype PickerValue<K> = PickerValue(id: K, displayName: string)
}
