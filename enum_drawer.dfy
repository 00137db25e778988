/** The two pure pieces of `SearchableEnumDrawer.OnGUI`: the text shown on the
    popup button for the stored enum index, and the commit callback the popup
    is given, which writes the chosen index back only when it differs from the
    stored one. */
module EnumDrawer {

  /** The button text: the display name of the stored index, or "None" when
      the index is not that of a display name. */
  function ButtonLabel(displayNames: seq<string>, enumValueIndex: int): (text: string)
    ensures 0 <= enumValueIndex < |displayNames| ==> text == displayNames[enumValueIndex]
    ensures !(0 <= enumValueIndex < |displayNames|) ==> text == "None"
  {
    if 0 <= enumValueIndex < |displayNames| then displayNames[enumValueIndex] else "None"
  }

  /** The stored enum field: its index, and how many times a modification of
      it has been applied to the serialized object. */
  datatype EnumField = EnumField(enumValueIndex: int, applied: nat)

  /** The commit callback: store `newIndex` and apply the modification, but
      only when it differs from the stored index. */
  function WriteBack(f: EnumField, newIndex: int): (g: EnumField)
    ensures g.enumValueIndex == newIndex
    ensures g.applied == if f.enumValueIndex != newIndex then f.applied + 1 else f.applied
  {
    if f.enumValueIndex != newIndex then EnumField(newIndex, f.applied + 1) else f
  }

  /** Committing the index that is already stored changes nothing. */
  lemma WriteBackSameIndex(f: EnumField)
    ensures WriteBack(f, f.enumValueIndex) == f
  {
  }

  /** The field after the callback has been called with each of `selections`, in order. */
  function WriteBackAll(f: EnumField, selections: seq<int>): (g: EnumField)
    ensures selections == [] ==> g == f
    ensures f.applied <= g.applied <= f.applied + |selections|
    decreases |selections|
  {
    if selections == [] then f
    else WriteBackAll(WriteBack(f, selections[0]), selections[1..])
  }

  /** After a non-empty run of callbacks the field holds the last index committed. */
  lemma {:induction false} WriteBackAllLast(f: EnumField, selections: seq<int>)
    ensures selections != [] ==>
      WriteBackAll(f, selections).enumValueIndex == selections[|selections| - 1]
    decreases |selections|
  {
    if selections != [] {
      WriteBackAllLast(WriteBack(f, selections[0]), selections[1..]);
    }
  }

  /** If every committed index is the one the field held or the index of one
      of `n` options, the field ends up holding one of those too. */
  lemma {:induction false} WriteBackAllStaysCommittable(f: EnumField, selections: seq<int>, n: int)
    requires forall j :: 0 <= j < |selections| ==>
      selections[j] == f.enumValueIndex || 0 <= selections[j] < n
    ensures WriteBackAll(f, selections).enumValueIndex == f.enumValueIndex ||
      0 <= WriteBackAll(f, selections).enumValueIndex < n
  {
    WriteBackAllLast(f, selections);
  }

  /** Once an option has been committed, the button shows that option's name. */
  lemma LabelAfterCommit(displayNames: seq<string>, f: EnumField, selections: seq<int>)
    requires selections != []
    requires 0 <= selections[|selections| - 1] < |displayNames|
    ensures ButtonLabel(displayNames, WriteBackAll(f, selections).enumValueIndex) ==
      displayNames[selections[|selections| - 1]]
  {
    WriteBackAllLast(f, selections);
  }
}
