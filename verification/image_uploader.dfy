/** `ImageUploader`: how a new selection is merged into the files already
    held, and when the picker and a drop are honoured.  Files are opaque. */
module ImageUploader {
  import opened Base

  /** `MAX_FILES` */
  const MaxFiles: nat := 5

  function Min(a: int, b: int): int
  {
    if a <= b then a else b
  }

  /** `handleFileSelect(selectedFiles)`: `None` when no callback is made,
      otherwise the list handed to `onFileSelect`. */
  function MergeSelection<F>(existing: seq<F>, selected: Option<seq<F>>): (r: Option<seq<F>>)
    // a missing or empty selection triggers nothing
    ensures r.None? <==> selected.None? || |selected.value| == 0
    // otherwise the first min(5, |old| + |new|) entries of old ++ new
    ensures r.Some? ==> |r.value| == Min(MaxFiles, |existing| + |selected.value|)
    ensures r.Some? ==> forall i :: 0 <= i < |r.value| ==> r.value[i] == (existing + selected.value)[i]
  {
    match selected
    case None => None
    case Some(picked) =>
      if |picked| == 0 then None
      else
        var all := existing + picked;
        Some(all[..Min(MaxFiles, |all|)])
  }

  /** Never more than five files are handed on. */
  lemma MergeBounded<F>(existing: seq<F>, selected: Option<seq<F>>)
    ensures var r := MergeSelection(existing, selected); r.Some? ==> |r.value| <= MaxFiles
  {
  }

  /** With at most five files held, they keep their places and order, and
      the new files follow in selection order until the limit. */
  lemma MergeKeepsExisting<F>(existing: seq<F>, picked: seq<F>)
    requires |existing| <= MaxFiles && |picked| > 0
    ensures var r := MergeSelection(existing, Some(picked)).value;
      r[..|existing|] == existing
      && (forall i :: 0 <= i < |r| - |existing| ==> r[|existing| + i] == picked[i])
  {
    var r := MergeSelection(existing, Some(picked)).value;
    assert forall i :: 0 <= i < |existing| ==> r[i] == (existing + picked)[i];
  }

  /** Five files held: any selection hands on the same five files. */
  lemma FullSelectionUnchanged<F>(existing: seq<F>, picked: seq<F>)
    requires |existing| == MaxFiles && |picked| > 0
    ensures MergeSelection(existing, Some(picked)) == Some(existing)
  {
    MergeKeepsExisting(existing, picked);
  }

  /** Everything selected is kept when it fits. */
  lemma MergeKeepsAllWhenRoom<F>(existing: seq<F>, picked: seq<F>)
    requires |picked| > 0 && |existing| + |picked| <= MaxFiles
    ensures MergeSelection(existing, Some(picked)) == Some(existing + picked)
  {
    var r := MergeSelection(existing, Some(picked)).value;
    assert r == existing + picked;
  }

  /** `handleAddClick`: the picker opens only when enabled and not full. */
  predicate CanOpenPicker(disabled: bool, held: nat)
  {
    !disabled && held < MaxFiles
  }

  /** `handleDrop`: a drop on a disabled uploader is ignored. */
  function HandleDrop<F>(disabled: bool, existing: seq<F>, dropped: Option<seq<F>>): (r: Option<seq<F>>)
    ensures disabled ==> r.None?
    ensures !disabled ==> r == MergeSelection(existing, dropped)
  {
    if disabled then None else MergeSelection(existing, dropped)
  }

  /** Whenever the picker can open, a non-empty pick adds at least one file. */
  lemma PickerOpensOnlyWithRoom<F>(disabled: bool, existing: seq<F>, picked: seq<F>)
    requires CanOpenPicker(disabled, |existing|) && |picked| > 0
    ensures |MergeSelection(existing, Some(picked)).value| > |existing|
    ensures MergeSelection(existing, Some(picked)).value[|existing|] == picked[0]
  {
  }
}
