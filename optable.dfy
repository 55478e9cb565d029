/** imgpack/optable.go: the older, unguarded image table. Select stores any
    index, Clear and Delete leave the selection where it was, and no
    callbacks exist. Reading or splicing at a dangling index panics in Go;
    here a panic is an outcome of its own, after which the state is as it
    was before the call (every panicking statement comes before the first
    assignment). */
module Optable {
  import opened Wrappers
  import opened ListOps
  import opened Images
  import C = Collection

  datatype Outcome<T> = Done(value: T) | Panic

  type Table<T> = C.Table<T>

  /** The selection names a position of the list. */
  predicate InRange<T>(t: Table<T>)
  {
    t.sel.Some? && 0 <= t.sel.value < |t.imgs|
  }

  /** GetSelected: nothing without a selection, a panic on a dangling one. */
  function Selected<T>(t: Table<T>): (r: Outcome<Option<T>>)
    ensures r.Panic? <==> t.sel.Some? && !InRange(t)
    ensures r == Done(None) <==> t.sel.None?
    ensures r.Done? && r.value.Some? ==> r.value.value == t.imgs[t.sel.value]
  {
    match t.sel
    case None => Done(None)
    case Some(i) => if 0 <= i < |t.imgs| then Done(Some(t.imgs[i])) else Panic
  }

  /** Insert: append without a selection, otherwise slices.Insert at the
      selection plus one, which panics unless that lies in 0..len. */
  function Inserted<T>(t: Table<T>, xs: seq<T>): (r: Outcome<Table<T>>)
    ensures r.Panic? <==> t.sel.Some? && !(-1 <= t.sel.value < |t.imgs|)
    ensures r.Done? ==> r.value.sel == t.sel
    ensures r.Done? ==> multiset(r.value.imgs) == multiset(t.imgs) + multiset(xs)
  {
    match t.sel
    case None => Done(t.(imgs := t.imgs + xs))
    case Some(i) =>
      if -1 <= i < |t.imgs| then
        SpliceAt(t.imgs, i + 1, xs);
        Done(t.(imgs := Splice(t.imgs, i + 1, xs)))
      else Panic
  }

  /** Clear empties the list and keeps the selection. */
  function Cleared<T>(t: Table<T>): (r: Table<T>)
    ensures r.imgs == [] && r.sel == t.sel
  {
    t.(imgs := [])
  }

  /** Delete removes the selected image and keeps the selection; it panics
      on a dangling selection. */
  function Deleted<T>(t: Table<T>): (r: Outcome<Table<T>>)
    ensures r.Panic? <==> t.sel.Some? && !InRange(t)
    ensures r.Done? ==> r.value.sel == t.sel
    ensures r.Done? && t.sel.Some? ==> |r.value.imgs| == |t.imgs| - 1
  {
    match t.sel
    case None => Done(t)
    case Some(i) => if 0 <= i < |t.imgs| then Done(t.(imgs := RemoveAt(t.imgs, i))) else Panic
  }

  /** The list change of Duplicate and Cut: x goes right after the selected
      image; a dangling selection panics. */
  function Extended<T>(t: Table<T>, x: T): (r: Outcome<Table<T>>)
    ensures r.Panic? <==> t.sel.Some? && !InRange(t)
    ensures r.Done? ==> r.value.sel == t.sel
  {
    match t.sel
    case None => Done(t)
    case Some(i) => if 0 <= i < |t.imgs| then Done(t.(imgs := Splice(t.imgs, i + 1, [x]))) else Panic
  }

  /** MoveUp: a swap with the previous image; at index 0 the first image is
      written once more in front and the new last index selected. The slice
      expression s[:1] panics on the empty list (Clear leaves it nil). */
  function MovedUp<T>(t: Table<T>): (r: Outcome<Table<T>>)
    ensures r.Panic? <==> t.sel.Some? && !InRange(t)
  {
    match t.sel
    case None => Done(t)
    case Some(i) =>
      if i == 0 && |t.imgs| > 0 then Done(C.Table(PrependFirst(t.imgs), Some(|t.imgs|)))
      else if 0 < i < |t.imgs| then Done(C.Table(Swap(t.imgs, i, i - 1), Some(i - 1)))
      else Panic
  }

  /** MoveDown: a swap with the next image; at the last index the last image
      moves to the front and index 0 is selected. */
  function MovedDown<T>(t: Table<T>): (r: Outcome<Table<T>>)
    ensures r.Panic? <==> t.sel.Some? && !InRange(t)
  {
    match t.sel
    case None => Done(t)
    case Some(i) =>
      if |t.imgs| > 0 && i == |t.imgs| - 1 then Done(C.Table(RotateRight(t.imgs), Some(0)))
      else if 0 <= i < |t.imgs| - 1 then Done(C.Table(Swap(t.imgs, i, i + 1), Some(i + 1)))
      else Panic
  }

  /** Where the selection is valid (or absent), the unguarded table changes
      the list exactly as the guarded one; the selections differ only after
      deleting the last image, which the guarded table unselects and this
      one leaves dangling. */
  lemma AgreesWithGuardedTable<T>(t: Table<T>, xs: seq<T>, x: T)
    requires t.Valid()
    ensures Inserted(t, xs) == Done(C.Insert(t, xs))
    ensures Extended(t, x) == Done(C.InsertAfterSelected(t, x))
    ensures MovedUp(t) == Done(C.MoveUp(t)) && MovedDown(t) == Done(C.MoveDown(t))
    ensures Deleted(t).Done? && Deleted(t).value.imgs == C.Delete(t).imgs
    ensures Deleted(t).value.sel != C.Delete(t).sel <==>
      t.sel.Some? && t.sel.value == |t.imgs| - 1
    ensures Selected(t).Done?
  {
  }

  /** Deleting the last image leaves the selection one past the end, where
      the next GetSelected or Delete panics. So does the next MoveUp when at
      least one image is left: it swaps at the dangling index. (With no
      image left the selection is 0, and Go's `imgs[:1]` then reads the
      slot that slices.Delete kept in the slice's capacity, which this
      model does not follow.) */
  lemma DeleteLastDangles<T>(imgs: seq<T>)
    requires |imgs| > 0
    ensures var t := C.Table(imgs, Some(|imgs| - 1));
      Deleted(t) == Done(C.Table(imgs[..|imgs| - 1], Some(|imgs| - 1))) &&
      Selected(Deleted(t).value).Panic? &&
      Deleted(Deleted(t).value).Panic?
    ensures var t := C.Table(imgs, Some(|imgs| - 1));
      |imgs| >= 2 ==> MovedUp(Deleted(t).value).Panic?
  {
    var n := |imgs|;
    assert RemoveAt(imgs, n - 1) == imgs[..n - 1] + imgs[n..];
    assert imgs[n..] == [];
    var t := C.Table(imgs, Some(n - 1));
    assert Deleted(t) == Done(t.(imgs := RemoveAt(t.imgs, n - 1)));
    assert t.(imgs := RemoveAt(t.imgs, n - 1)) == C.Table(imgs[..n - 1], Some(n - 1));
  }

  /** After Clear a kept selection dangles, and InsertAfterSelected (Duplicate,
      Cut) panics on it. */
  lemma ClearKeepsDanglingSelection<T>(t: Table<T>, x: T)
    requires t.sel.Some?
    ensures Selected(Cleared(t)).Panic? && Extended(Cleared(t), x).Panic?
    ensures Inserted(Cleared(t), [x]) == if t.sel.value == -1 then Done(C.Table([x], Some(-1))) else Panic
  {
    var e: seq<T> := [];
    assert Cleared(t) == C.Table(e, t.sel);
    if t.sel.value == -1 {
      assert Splice(e, 0, [x]) == [x];
    }
  }

  /** Select(-1) is accepted, and Insert then puts the images in front. */
  lemma SelectMinusOneInsertsAtFront<T>(imgs: seq<T>, xs: seq<T>)
    ensures Inserted(C.Table(imgs, Some(-1)), xs) == Done(C.Table(xs + imgs, Some(-1)))
  {
    var t := C.Table(imgs, Some(-1));
    assert Inserted(t, xs) == Done(t.(imgs := Splice(imgs, 0, xs)));
    assert Splice(imgs, 0, xs) == imgs[..0] + xs + imgs[0..];
    assert imgs[..0] == [] && imgs[0..] == imgs;
    assert t.(imgs := Splice(imgs, 0, xs)) == C.Table(xs + imgs, Some(-1));
  }

  class ImgsTable {
    var selIdx: Option<int>
    var imgs: seq<Image>

    function State(): Table<Image>
      reads this
    {
      C.Table(imgs, selIdx)
    }

    function SelectedObjects(): set<Image>
      reads this
    {
      if InRange(State()) then {imgs[selIdx.value]} else {}
    }

    /** The zero value `ImgsTable{}`. */
    constructor ()
      ensures imgs == [] && selIdx.None?
    {
      selIdx := None;
      imgs := [];
    }

    /** Select stores any index. */
    method Select(idx: int)
      modifies this
      ensures State() == C.Table(old(imgs), Some(idx))
    {
      selIdx := Some(idx);
    }

    /** GetSelected: the lookup panics on a dangling selection. */
    function GetSelected(): (r: Outcome<Option<Image>>)
      reads this
      ensures r == Selected(State())
      ensures r.Panic? <==> selIdx.Some? && !InRange(State())
    {
      if selIdx.None? then Done(None)
      else if 0 <= selIdx.value < |imgs| then Done(Some(imgs[selIdx.value]))
      else Panic
    }

    function IsSelected(): (b: bool)
      reads this
      ensures b <==> selIdx.Some?
    {
      selIdx.Some?
    }

    method Unselect()
      modifies this
      ensures State() == C.Table(old(imgs), None)
    {
      selIdx := None;
    }

    method Insert(xs: seq<Image>) returns (panicked: bool)
      modifies this
      ensures panicked <==> Inserted(old(State()), xs).Panic?
      ensures State() == if panicked then old(State()) else Inserted(old(State()), xs).value
    {
      if selIdx.None? {
        imgs := imgs + xs;
        return false;
      }
      var idx := selIdx.value;
      if idx + 1 < 0 || idx + 1 > |imgs| {
        return true;
      }
      imgs := Splice(imgs, idx + 1, xs);
      return false;
    }

    method Clear()
      modifies this
      ensures State() == Cleared(old(State()))
    {
      imgs := [];
    }

    /** Remove has an empty body in the source. */
    method Remove(idx: int)
      ensures State() == old(State())
    {
    }

    method Delete() returns (panicked: bool)
      modifies this
      ensures panicked <==> Deleted(old(State())).Panic?
      ensures State() == if panicked then old(State()) else Deleted(old(State())).value
    {
      if selIdx.None? {
        return false;
      }
      var idx := selIdx.value;
      if idx < 0 || idx + 1 > |imgs| {
        return true;
      }
      imgs := RemoveAt(imgs, idx);
      return false;
    }

    method Duplicate() returns (panicked: bool)
      modifies this
      ensures panicked <==> old(selIdx).Some? && !InRange(old(State()))
      ensures panicked ==> State() == old(State())
      ensures !panicked && old(selIdx).None? ==> State() == old(State())
      ensures !panicked && old(selIdx).Some? ==>
        var i := old(selIdx).value;
        |imgs| == |old(imgs)| + 1 && fresh(imgs[i + 1]) &&
        Value(imgs[i + 1]) == Value(old(imgs)[i]) &&
        Done(State()) == Extended(old(State()), imgs[i + 1])
    {
      if selIdx.None? {
        return false;
      }
      var idx := selIdx.value;
      if idx < 0 || idx >= |imgs| {
        return true;
      }
      var img := imgs[idx];
      var newImg := img.Clone();
      imgs := Splice(imgs, idx + 1, [newImg]);
      assert imgs[idx + 1] == newImg;
      return false;
    }

    method MoveUp() returns (panicked: bool)
      modifies this
      ensures panicked <==> MovedUp(old(State())).Panic?
      ensures State() == if panicked then old(State()) else MovedUp(old(State())).value
    {
      if selIdx.None? {
        return false;
      }
      var idx := selIdx.value;
      if idx == 0 {
        if |imgs| == 0 {
          return true;
        }
        imgs := PrependFirst(imgs);
        selIdx := Some(|imgs| - 1);
        return false;
      }
      if idx < 1 || idx >= |imgs| {
        return true;
      }
      imgs := Swap(imgs, idx, idx - 1);
      selIdx := Some(idx - 1);
      return false;
    }

    method MoveDown() returns (panicked: bool)
      modifies this
      ensures panicked <==> MovedDown(old(State())).Panic?
      ensures State() == if panicked then old(State()) else MovedDown(old(State())).value
    {
      if selIdx.None? {
        return false;
      }
      var idx := selIdx.value;
      if idx == |imgs| - 1 {
        if |imgs| == 0 {
          return true;
        }
        imgs := RotateRight(imgs);
        selIdx := Some(0);
        return false;
      }
      if idx < 0 || idx + 1 >= |imgs| {
        return true;
      }
      imgs := Swap(imgs, idx, idx + 1);
      selIdx := Some(idx + 1);
      return false;
    }

    /** Rotate: the selected object gets rotate90 of its pixels; a dangling
        selection panics before anything changes. */
    method Rotate(rotate90: Bitmap -> Bitmap) returns (panicked: bool)
      modifies SelectedObjects()
      ensures panicked <==> selIdx.Some? && !InRange(State())
      ensures State() == old(State())
      ensures InRange(State()) ==>
        var img := imgs[selIdx.value];
        img.Img == rotate90(old(img.Img)) &&
        img.Filename == old(img.Filename) && img.Type == old(img.Type)
    {
      if selIdx.None? {
        return false;
      }
      if selIdx.value < 0 || selIdx.value >= |imgs| {
        return true;
      }
      var img := imgs[selIdx.value];
      img.Img := rotate90(img.Img);
      return false;
    }

    /** Cut, as in the guarded table, with a panic on a dangling selection. */
    method Cut() returns (panicked: bool)
      modifies this, SelectedObjects()
      ensures panicked <==> old(selIdx).Some? && !InRange(old(State()))
      ensures panicked || old(selIdx).None? ==> State() == old(State())
      ensures !panicked && old(selIdx).Some? ==>
        var i := old(selIdx).value;
        var img := old(imgs)[i];
        |imgs| == |old(imgs)| + 1 && fresh(imgs[i + 1]) &&
        Done(State()) == Extended(old(State()), imgs[i + 1]) &&
        Value(img) == ImageValue(old(img.Filename) + "_1", LeftHalf(old(img.Img)), old(img.Type)) &&
        Value(imgs[i + 1]) == ImageValue(old(img.Filename) + "_2", RightHalf(old(img.Img)), old(img.Type))
    {
      if selIdx.None? {
        return false;
      }
      var idx := selIdx.value;
      if idx < 0 || idx >= |imgs| {
        return true;
      }
      var img := imgs[idx];
      var filename := img.Filename;
      var imgType := img.Type;
      var img1 := LeftHalf(img.Img);
      var img2 := RightHalf(img.Img);
      img.Filename := filename + "_1";
      img.Img := img1;
      var newImg := new Image(filename + "_2", img2, imgType);
      imgs := Splice(imgs, idx + 1, [newImg]);
      assert imgs[idx + 1] == newImg;
      return false;
    }
  }
}
