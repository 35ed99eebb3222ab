/** The checklist form (`SubmissionChecklist.tsx`): whether an item shows
    as checked, and the content rebuilt when one item is toggled. Stored
    entries are matched to items by name. */
module SubmissionChecklist {
  import opened Wrappers
  import opened Types

  /** The position of the first stored entry labelled `name`, or -1. */
  function FirstEntryAt(entries: seq<ChecklistItemData>, name: string): (r: int)
    ensures -1 <= r < |entries|
    ensures r == -1 <==> forall j :: 0 <= j < |entries| ==> entries[j].itemLabel != name
    ensures r != -1 ==> entries[r].itemLabel == name
    ensures r != -1 ==> forall j :: 0 <= j < r ==> entries[j].itemLabel != name
  {
    if |entries| == 0 then -1
    else if entries[0].itemLabel == name then 0
    else
      var r := FirstEntryAt(entries[1..], name);
      if r == -1 then -1 else r + 1
  }

  /** Entry `j` is the first stored entry labelled `name`. */
  predicate IsFirstEntry(entries: seq<ChecklistItemData>, name: string, j: int) {
    0 <= j < |entries| && entries[j].itemLabel == name
    && forall k :: 0 <= k < j ==> entries[k].itemLabel != name
  }

  /** `isChecked`: the flag of the first stored entry labelled like item
      `index`; false when there is no content, no such entry, or no such
      item. */
  function IsChecked(items: seq<string>, value: Option<ChecklistContent>, index: int): (r: bool)
    ensures value.None? || !(0 <= index < |items|) ==> !r
    ensures r ==> exists j :: 0 <= j < |value.value.items| && value.value.items[j].itemLabel == items[index]
                              && value.value.items[j].checked
    ensures value.Some? && 0 <= index < |items| ==>
              forall j :: IsFirstEntry(value.value.items, items[index], j) ==> r == value.value.items[j].checked
  {
    if value.None? || !(0 <= index < |items|) then false
    else
      var j := FirstEntryAt(value.value.items, items[index]);
      j != -1 && value.value.items[j].checked
  }

  /** `toggle`: one entry per item, in order, labelled with the item; the
      toggled one flips what it showed and every other one keeps it. */
  function Toggle(items: seq<string>, value: Option<ChecklistContent>, index: int): (r: ChecklistContent)
    ensures |r.items| == |items|
    ensures forall i :: 0 <= i < |items| ==> r.items[i].itemLabel == items[i]
    ensures 0 <= index < |items| ==> r.items[index].checked == !IsChecked(items, value, index)
    ensures forall i :: 0 <= i < |items| && i != index ==> r.items[i].checked == IsChecked(items, value, i)
  {
    ChecklistContent(seq(|items|, i requires 0 <= i < |items| =>
      ChecklistItemData(items[i], if i == index then !IsChecked(items, value, i) else IsChecked(items, value, i))))
  }

  predicate DistinctLabels(items: seq<string>) {
    forall i, j :: 0 <= i < j < |items| ==> items[i] != items[j]
  }

  /** With distinct labels each item reads back its own entry: toggling
      flips the toggled item and leaves every other one as it was. */
  lemma ToggleThenCheck(items: seq<string>, value: Option<ChecklistContent>, index: int, i: int)
    requires DistinctLabels(items) && 0 <= i < |items|
    ensures IsChecked(items, Some(Toggle(items, value, index)), i)
         == if i == index then !IsChecked(items, value, i) else IsChecked(items, value, i)
  {
    var c := Toggle(items, value, index);
    assert forall k :: 0 <= k < i ==> c.items[k].itemLabel != items[i];
  }

  /** Toggling the same item twice shows every item as before. */
  lemma ToggleTwice(items: seq<string>, value: Option<ChecklistContent>, index: int, i: int)
    requires DistinctLabels(items) && 0 <= i < |items|
    ensures var twice := Toggle(items, Some(Toggle(items, value, index)), index);
      IsChecked(items, Some(twice), i) == IsChecked(items, value, i)
  {
    var once := Toggle(items, value, index);
    ToggleThenCheck(items, Some(once), index, i);
    ToggleThenCheck(items, value, index, i);
  }

  /** With a repeated name the second item reads the first one's entry, so
      toggling it changes nothing that is shown. */
  lemma ToggleRepeatedLabel(name: string, value: Option<ChecklistContent>)
    ensures var items := [name, name];
      IsChecked(items, Some(Toggle(items, value, 1)), 1) == IsChecked(items, value, 1)
  {
    var items := [name, name];
    var c := Toggle(items, value, 1);
    assert c.items[0].itemLabel == name;
    assert IsChecked(items, value, 0) == IsChecked(items, value, 1);
  }
}
