/** `SimpleMultiPicker`'s selection logic: the bound `selection` array used as a set keyed by
    `id`, with `isSelected`, `select`, `deselect` and `toggle`. */
module MultiPicker {
  import opened Basics
  import opened PickerValues

  /** The ids of the selection, in order (`selection.map { $0.id }`). */
  function Ids<K>(selection: seq<PickerValue<K>>): (r: seq<K>)
    ensures |r| == |selection|
    ensures forall i :: 0 <= i < |r| ==> r[i] == selection[i].id
  {
    seq(|selection|, i requires 0 <= i < |selection| => selection[i].id)
  }

  /** No two selected values share an id. */
  ghost predicate DistinctIds<K>(selection: seq<PickerValue<K>>)
  {
    DistinctBy(selection, (v: PickerValue<K>) => v.id)
  }

  /** `isSelected`: some selected value has the value's id. */
  function IsSelected<K(==)>(selection: seq<PickerValue<K>>, value: PickerValue<K>): (r: bool)
    ensures r <==> exists i :: 0 <= i < |selection| && selection[i].id == value.id
  {
    var ids := Ids(selection);
    assert forall i :: 0 <= i < |selection| ==> ids[i] == selection[i].id;
    value.id in ids
  }

  /** The `removeAll` predicate of `deselect`: the element has the value's id. */
  function SameId<K(==)>(value: PickerValue<K>): PickerValue<K> -> bool
  {
    (x: PickerValue<K>) => x.id == value.id
  }

  /** `select`: nothing happens if the value is already selected, otherwise it is appended. */
  function Select<K(==)>(selection: seq<PickerValue<K>>, value: PickerValue<K>): (r: seq<PickerValue<K>>)
    ensures IsSelected(r, value)
    ensures IsSelected(selection, value) ==> r == selection
    ensures !IsSelected(selection, value) ==> |r| == |selection| + 1 && r[..|selection|] == selection && r[|selection|] == value
  {
    if IsSelected(selection, value) then selection
    else
      var r := selection + [value];
      assert r[|selection|].id == value.id;
      r
  }

  /** `deselect`: nothing happens if the value is not selected, otherwise every value with its
      id is removed and the others keep their order. */
  function Deselect<K(==)>(selection: seq<PickerValue<K>>, value: PickerValue<K>): (r: seq<PickerValue<K>>)
    ensures !IsSelected(r, value)
    ensures !IsSelected(selection, value) ==> r == selection
    ensures forall i :: 0 <= i < |selection| && selection[i].id != value.id ==> selection[i] in r
    ensures forall i :: 0 <= i < |r| ==> r[i] in selection
  {
    if !IsSelected(selection, value) then selection
    else
      var r := RemoveAll(selection, SameId(value));
      assert forall i :: 0 <= i < |r| ==> r[i].id != value.id;
      r
  }

  /** `toggle`: deselect a selected value, select an unselected one. */
  function Toggle<K(==)>(selection: seq<PickerValue<K>>, value: PickerValue<K>): (r: seq<PickerValue<K>>)
    ensures IsSelected(r, value) <==> !IsSelected(selection, value)
  {
    if IsSelected(selection, value) then Deselect(selection, value) else Select(selection, value)
  }

  /** `toggle` leaves the selection state of every value with another id as it was. */
  lemma ToggleLeavesOtherIds<K>(selection: seq<PickerValue<K>>, value: PickerValue<K>, other: PickerValue<K>)
    requires other.id != value.id
    ensures IsSelected(Toggle(selection, value), other) <==> IsSelected(selection, other)
  {
    if IsSelected(selection, value) {
      DeselectLeavesOtherIds(selection, value, other);
    } else {
      var r := Select(selection, value);
      if IsSelected(r, other) {
        var i :| 0 <= i < |r| && r[i].id == other.id;
        assert i < |selection|;
      }
    }
  }

  /** `deselect` leaves the selection state of every value with another id as it was. */
  lemma DeselectLeavesOtherIds<K>(selection: seq<PickerValue<K>>, value: PickerValue<K>, other: PickerValue<K>)
    requires other.id != value.id
    ensures IsSelected(Deselect(selection, value), other) <==> IsSelected(selection, other)
  {
    var r := Deselect(selection, value);
    if IsSelected(selection, other) {
      var i :| 0 <= i < |selection| && selection[i].id == other.id;
      var j :| 0 <= j < |r| && r[j] == selection[i];
    }
    if IsSelected(r, other) {
      var i :| 0 <= i < |r| && r[i].id == other.id;
      var j :| 0 <= j < |selection| && selection[j] == r[i];
    }
  }

  /** Deselecting removes by id piecewise, so it keeps the relative order of what remains. */
  lemma DeselectKeepsOrder<K>(a: seq<PickerValue<K>>, b: seq<PickerValue<K>>, value: PickerValue<K>)
    requires IsSelected(a + b, value)
    ensures Deselect(a + b, value) == RemoveAll(a, SameId(value)) + RemoveAll(b, SameId(value))
  {
    RemoveAllConcat(a, b, SameId(value));
  }

  /** Toggling an unselected value twice restores the selection exactly. */
  lemma ToggleTwiceRestores<K>(selection: seq<PickerValue<K>>, value: PickerValue<K>)
    requires !IsSelected(selection, value)
    ensures Toggle(Toggle(selection, value), value) == selection
  {
    var once := selection + [value];
    RemoveAllConcat(selection, [value], SameId(value));
    RemoveAllNoMatch(selection, SameId(value));
    assert RemoveAll([value], SameId(value)) == [];
  }

  /** Toggling a selected value twice moves it to the end: with distinct ids the result is the
      selection without the value's entry, followed by the value. */
  lemma ToggleTwiceMovesSelectedToEnd<K>(selection: seq<PickerValue<K>>, value: PickerValue<K>, k: int)
    requires DistinctIds(selection)
    requires 0 <= k < |selection| && selection[k].id == value.id
    ensures Toggle(Toggle(selection, value), value) == selection[..k] + selection[k + 1..] + [value]
  {
    RemoveAllSingleMatch(selection, SameId(value), k);
  }

  /** `select` keeps the ids distinct. */
  lemma SelectKeepsIdsDistinct<K>(selection: seq<PickerValue<K>>, value: PickerValue<K>)
    requires DistinctIds(selection)
    ensures DistinctIds(Select(selection, value))
  {
  }

  /** `deselect` keeps the ids distinct. */
  lemma DeselectKeepsIdsDistinct<K>(selection: seq<PickerValue<K>>, value: PickerValue<K>)
    requires DistinctIds(selection)
    ensures DistinctIds(Deselect(selection, value))
  {
    RemoveAllKeepsKeysDistinct(selection, SameId(value), (x: PickerValue<K>) => x.id);
  }

  /** `toggle` keeps the ids distinct. */
  lemma ToggleKeepsIdsDistinct<K>(selection: seq<PickerValue<K>>, value: PickerValue<K>)
    requires DistinctIds(selection)
    ensures DistinctIds(Toggle(selection, value))
  {
    if IsSelected(selection, value) {
      DeselectKeepsIdsDistinct(selection, value);
    } else {
      SelectKeepsIdsDistinct(selection, value);
    }
  }
}
