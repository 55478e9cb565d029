/** imgpack/imgstable/imgstable.go: the guarded image table. Its fields are
    the list of image references and the optional selected index; the three
    change callbacks are recorded as a ghost log of events, in the order the
    source calls them. */
module Imgstable {
  import opened Wrappers
  import opened ListOps
  import opened Images
  import C = Collection

  /** The callbacks onSelectIndexChange, onSelectImageChange, onListChange. */
  datatype Event = SelectIndexChange | SelectImageChange | ListChange

  class ImgsTable {
    var selIdx: Option<int>
    var imgs: seq<Image>
    ghost var events: seq<Event>

    function State(): C.Table<Image>
      reads this
    {
      C.Table(imgs, selIdx)
    }

    /** The table invariant: no dangling selection. */
    predicate Valid()
      reads this
    {
      State().Valid()
    }

    /** The objects an edit of the selected image may change. */
    function SelectedObjects(): set<Image>
      reads this
    {
      if selIdx.Some? && 0 <= selIdx.value < |imgs| then {imgs[selIdx.value]} else {}
    }

    /** New. */
    constructor ()
      ensures Valid() && imgs == [] && selIdx.None? && events == []
    {
      selIdx := None;
      imgs := [];
      events := [];
    }

    /** GetSelectedImg: under the invariant the lookup never goes out of range. */
    function GetSelectedImg(): (r: Option<Image>)
      reads this
      requires Valid()
      ensures r.Some? <==> selIdx.Some?
      ensures r.Some? ==> r.value == imgs[selIdx.value] && r.value in imgs
    {
      if selIdx.None? then None else Some(imgs[selIdx.value])
    }

    /** Select ignores an out-of-range index; it reports a change of index only. */
    method Select(idx: int)
      requires Valid()
      modifies this
      ensures Valid() && State() == C.Select(old(State()), idx)
      ensures events == old(events) +
        (if 0 <= idx < |imgs| && old(selIdx) != Some(idx) then [SelectIndexChange] else [])
    {
      if idx < 0 || idx >= |imgs| {
        return;
      }
      var preIdx := selIdx;
      selIdx := Some(idx);
      if preIdx.None? || preIdx.value != idx {
        events := events + [SelectIndexChange];
      }
    }

    method Unselect()
      modifies this
      ensures Valid() && State() == C.Unselect(old(State()))
      ensures events == old(events) + (if old(selIdx).Some? then [SelectIndexChange] else [])
    {
      var preIdx := selIdx;
      selIdx := None;
      if preIdx.Some? {
        events := events + [SelectIndexChange];
      }
    }

    /** Insert appends when nothing is selected (and then reports no change
        of the list), otherwise inserts right after the selected image. */
    method Insert(xs: seq<Image>)
      requires Valid()
      modifies this
      ensures Valid() && State() == C.Insert(old(State()), xs)
      ensures events == old(events) + (if old(selIdx).Some? then [ListChange] else [])
    {
      if selIdx.None? {
        imgs := imgs + xs;
        return;
      }
      var idx := selIdx.value;
      imgs := Splice(imgs, idx + 1, xs);
      events := events + [ListChange];
    }

    method Clear()
      requires Valid()
      modifies this
      ensures Valid() && State() == C.Clear(old(State()))
      ensures events == old(events) + [ListChange] +
        (if old(selIdx).Some? then [SelectIndexChange] else [])
    {
      imgs := [];
      events := events + [ListChange];
      Unselect();
    }

    method Delete()
      requires Valid()
      modifies this
      ensures Valid() && State() == C.Delete(old(State()))
      ensures events == old(events) +
        (if old(selIdx).None? then []
         else if old(selIdx).value == |old(imgs)| - 1 then [ListChange, SelectIndexChange]
         else [ListChange])
    {
      if selIdx.None? {
        return;
      }
      var idx := selIdx.value;
      imgs := RemoveAt(imgs, idx);
      events := events + [ListChange];
      if idx >= |imgs| {
        Unselect();
      }
    }

    /** Duplicate puts a clone of the selected image right after it. */
    method Duplicate()
      requires Valid()
      modifies this
      ensures Valid()
      ensures old(selIdx).None? ==> State() == old(State()) && events == old(events)
      ensures old(selIdx).Some? ==>
        var i := old(selIdx).value;
        |imgs| == |old(imgs)| + 1 &&
        fresh(imgs[i + 1]) && Value(imgs[i + 1]) == Value(old(imgs)[i]) &&
        State() == C.InsertAfterSelected(old(State()), imgs[i + 1]) &&
        events == old(events) + [ListChange]
    {
      if selIdx.None? {
        return;
      }
      var idx := selIdx.value;
      var img := imgs[idx];
      var newImg := img.Clone();
      imgs := Splice(imgs, idx + 1, [newImg]);
      assert imgs[idx + 1] == newImg;
      events := events + [ListChange];
    }

    /** MoveUp as written: at the top the list grows (see Collection.MoveUp),
        and that branch returns before any callback. */
    method MoveUp()
      requires Valid()
      modifies this
      ensures Valid() && State() == C.MoveUp(old(State()))
      ensures events == old(events) +
        (if old(selIdx).Some? && old(selIdx).value != 0 then [SelectIndexChange, ListChange] else [])
    {
      if selIdx.None? {
        return;
      }
      var idx := selIdx.value;
      if idx == 0 {
        imgs := PrependFirst(imgs);
        selIdx := Some(|imgs| - 1);
        return;
      }
      imgs := Swap(imgs, idx, idx - 1);
      selIdx := Some(idx - 1);
      events := events + [SelectIndexChange, ListChange];
    }

    /** MoveDown: at the bottom the last image moves to the front, silently. */
    method MoveDown()
      requires Valid()
      modifies this
      ensures Valid() && State() == C.MoveDown(old(State()))
      ensures events == old(events) +
        (if old(selIdx).Some? && old(selIdx).value != |old(imgs)| - 1
         then [SelectIndexChange, ListChange] else [])
    {
      if selIdx.None? {
        return;
      }
      var idx := selIdx.value;
      if idx == |imgs| - 1 {
        imgs := RotateRight(imgs);
        selIdx := Some(0);
        return;
      }
      imgs := Swap(imgs, idx, idx + 1);
      selIdx := Some(idx + 1);
      events := events + [SelectIndexChange, ListChange];
    }

    /** Rotate replaces the selected object's pixels (imaging.Rotate90, left
        abstract); the list, the selection and every name stay. Every list
        position holding that same object sees the change. */
    method Rotate(rotate90: Bitmap -> Bitmap)
      requires Valid()
      modifies this, SelectedObjects()
      ensures Valid() && State() == old(State())
      ensures old(selIdx).Some? ==>
        var img := imgs[selIdx.value];
        img.Img == rotate90(old(img.Img)) &&
        img.Filename == old(img.Filename) && img.Type == old(img.Type)
      ensures events == old(events) + (if old(selIdx).Some? then [SelectImageChange] else [])
    {
      if selIdx.None? {
        return;
      }
      var img := imgs[selIdx.value];
      img.Img := rotate90(img.Img);
      events := events + [SelectImageChange];
    }

    /** Cut turns the selected object into the left half, renamed with "_1",
        and puts a new object with the right half, named with "_2", right
        after it; the selection stays. */
    method Cut()
      requires Valid()
      modifies this, SelectedObjects()
      ensures Valid()
      ensures old(selIdx).None? ==> State() == old(State()) && events == old(events)
      ensures old(selIdx).Some? ==>
        var i := old(selIdx).value;
        var img := old(imgs)[i];
        |imgs| == |old(imgs)| + 1 && fresh(imgs[i + 1]) &&
        State() == C.InsertAfterSelected(old(State()), imgs[i + 1]) &&
        Value(img) == ImageValue(old(img.Filename) + "_1", LeftHalf(old(img.Img)), old(img.Type)) &&
        Value(imgs[i + 1]) == ImageValue(old(img.Filename) + "_2", RightHalf(old(img.Img)), old(img.Type)) &&
        events == old(events) + [SelectImageChange, ListChange]
    {
      if selIdx.None? {
        return;
      }
      var idx := selIdx.value;
      var img := imgs[idx];
      var filename := img.Filename;
      var imgType := img.Type;
      var img1 := LeftHalf(img.Img);
      var img2 := RightHalf(img.Img);
      img.Filename := filename + "_1";
      img.Img := img1;
      var newImg := new Image(filename + "_2", img2, imgType);
      imgs := Splice(imgs, idx + 1, [newImg]);
      assert imgs[idx + 1] == newImg;
      events := events + [SelectImageChange, ListChange];
    }
  }

  /** MoveUp at the top leaves one object at two positions: rotating the
      image selected afterwards rotates the first image as well. */
  method AliasAfterMoveUp(a: Image, b: Image, rotate90: Bitmap -> Bitmap) returns (t: ImgsTable)
    requires a != b
    modifies a
    ensures t.imgs == [a, a, b] && t.selIdx == Some(1)
    ensures a.Img == rotate90(old(a.Img)) && Value(b) == old(Value(b))
  {
    t := new ImgsTable();
    t.Insert([a, b]);
    t.Select(0);
    t.MoveUp();
    assert t.imgs == [a, a, b] && t.selIdx == Some(2);
    t.Select(1);
    t.Rotate(rotate90);
  }
}
