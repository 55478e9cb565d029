/** The image collection's state machine, as the guarded table
    (imgpack/imgstable/imgstable.go) and the application's handlers
    (imgpack/app.go) run it: an ordered list plus an optional selected index.
    The transitions are pure functions of the state; the classes that hold
    the state in fields are proved against them. */
module Collection {
  import opened Wrappers
  import opened ListOps

  datatype Table<T> = Table(imgs: seq<T>, sel: Option<int>)
  {
    /** The selection is none or a position of the list. */
    predicate Valid()
    {
      sel.None? || 0 <= sel.value < |imgs|
    }
  }

  /** Select: out-of-range indices are ignored. */
  function Select<T>(t: Table<T>, idx: int): Table<T>
  {
    if idx < 0 || idx >= |t.imgs| then t else t.(sel := Some(idx))
  }

  function Unselect<T>(t: Table<T>): Table<T>
  {
    t.(sel := None)
  }

  /** Insert: append without a selection, otherwise right after the selected
      image; the selection does not move. */
  function Insert<T>(t: Table<T>, xs: seq<T>): Table<T>
    requires t.Valid()
  {
    match t.sel
    case None => t.(imgs := t.imgs + xs)
    case Some(i) => t.(imgs := Splice(t.imgs, i + 1, xs))
  }

  function Clear<T>(t: Table<T>): Table<T>
  {
    Table([], None)
  }

  /** Delete: remove the selected image; the selection stays on the same
      index unless that fell off the end, in which case it is dropped. */
  function Delete<T>(t: Table<T>): Table<T>
    requires t.Valid()
  {
    match t.sel
    case None => t
    case Some(i) =>
      var rest := RemoveAt(t.imgs, i);
      if i >= |rest| then Table(rest, None) else Table(rest, Some(i))
  }

  /** The list change of Duplicate and Cut: x goes right after the selected
      image, the selection stays. */
  function InsertAfterSelected<T>(t: Table<T>, x: T): Table<T>
    requires t.Valid()
  {
    match t.sel
    case None => t
    case Some(i) => t.(imgs := Splice(t.imgs, i + 1, [x]))
  }

  /** MoveUp as imgstable.go and optable.go write it: above the top it
      prepends the first image again (`append(imgs[:1], imgs[0:]...)`) and
      selects the new last index. */
  function MoveUp<T>(t: Table<T>): Table<T>
    requires t.Valid()
  {
    match t.sel
    case None => t
    case Some(i) =>
      if i == 0 then Table(PrependFirst(t.imgs), Some(|t.imgs|))
      else Table(Swap(t.imgs, i, i - 1), Some(i - 1))
  }

  /** MoveUp as app.go writes it: above the top the first image moves to the
      end (`append(imgs[1:], imgs[0])`) and the last index is selected. */
  function MoveUpRotating<T>(t: Table<T>): Table<T>
    requires t.Valid()
  {
    match t.sel
    case None => t
    case Some(i) =>
      if i == 0 then Table(RotateLeft(t.imgs), Some(|t.imgs| - 1))
      else Table(Swap(t.imgs, i, i - 1), Some(i - 1))
  }

  /** MoveDown (the same in all three versions): below the bottom the last
      image moves to the front and index 0 is selected. */
  function MoveDown<T>(t: Table<T>): Table<T>
    requires t.Valid()
  {
    match t.sel
    case None => t
    case Some(i) =>
      if i == |t.imgs| - 1 then Table(RotateRight(t.imgs), Some(0))
      else Table(Swap(t.imgs, i, i + 1), Some(i + 1))
  }

  /** The arrow keys of app.go's onTabKey: move the selection by one with
      wrap-around; the list is left alone. */
  function TabKey<T>(t: Table<T>, up: bool): Table<T>
    requires t.Valid()
  {
    match t.sel
    case None => t
    case Some(i) =>
      if up then (if i > 0 then t.(sel := Some(i - 1)) else t.(sel := Some(|t.imgs| - 1)))
      else (if i < |t.imgs| - 1 then t.(sel := Some(i + 1)) else t.(sel := Some(0)))
  }

  /** Every transition keeps the selection a valid index or none. */
  lemma TransitionsKeepSelectionValid<T>(t: Table<T>, idx: int, xs: seq<T>, x: T, up: bool)
    requires t.Valid()
    ensures Select(t, idx).Valid() && Unselect(t).Valid() && Clear(t).Valid()
    ensures Insert(t, xs).Valid() && Delete(t).Valid() && InsertAfterSelected(t, x).Valid()
    ensures MoveUp(t).Valid() && MoveUpRotating(t).Valid() && MoveDown(t).Valid()
    ensures TabKey(t, up).Valid()
  {
  }

  /** Select sets exactly the in-range indices. */
  lemma SelectGuard<T>(t: Table<T>, idx: int)
    ensures Select(t, idx).imgs == t.imgs
    ensures Select(t, idx).sel == if 0 <= idx < |t.imgs| then Some(idx) else t.sel
  {
  }

  /** Insert adds exactly xs, at the end or right after the selection, and
      keeps the selection. */
  lemma InsertPlacement<T>(t: Table<T>, xs: seq<T>)
    requires t.Valid()
    ensures var r := Insert(t, xs);
      var at := if t.sel.None? then |t.imgs| else t.sel.value + 1;
      r.sel == t.sel && |r.imgs| == |t.imgs| + |xs| &&
      r.imgs[..at] == t.imgs[..at] &&
      r.imgs[at..at + |xs|] == xs &&
      r.imgs[at + |xs|..] == t.imgs[at..]
  {
    var at := if t.sel.None? then |t.imgs| else t.sel.value + 1;
    assert t.imgs == t.imgs[..at] + t.imgs[at..];
  }

  /** Delete removes exactly the selected image: the others keep their
      order, and the selection is dropped exactly when it was the last one. */
  lemma DeleteRemovesSelected<T>(t: Table<T>)
    requires t.Valid() && t.sel.Some?
    ensures var i := t.sel.value; var r := Delete(t);
      |r.imgs| == |t.imgs| - 1 &&
      r.imgs == t.imgs[..i] + t.imgs[i + 1..] &&
      multiset(r.imgs) + multiset{t.imgs[i]} == multiset(t.imgs) &&
      (r.sel.None? <==> i == |t.imgs| - 1) &&
      (r.sel.Some? ==> r.sel.value == i)
  {
    RemoveAtShifts(t.imgs, t.sel.value);
  }

  /** The list change of Duplicate and Cut: one more element, x, right after
      the selection; every other element and the selection stay. */
  lemma InsertAfterSelectedPlacement<T>(t: Table<T>, x: T)
    requires t.Valid() && t.sel.Some?
    ensures var i := t.sel.value; var r := InsertAfterSelected(t, x);
      r.sel == t.sel && |r.imgs| == |t.imgs| + 1 && r.imgs[i + 1] == x &&
      (forall k :: 0 <= k <= i ==> r.imgs[k] == t.imgs[k]) &&
      (forall k :: i < k < |t.imgs| ==> r.imgs[k + 1] == t.imgs[k])
  {
    SpliceAt(t.imgs, t.sel.value + 1, [x]);
  }

  /** MoveUp below the top swaps with the previous image and follows it. */
  lemma MoveUpSwaps<T>(t: Table<T>)
    requires t.Valid() && t.sel.Some? && t.sel.value > 0
    ensures var i := t.sel.value;
      MoveUp(t) == MoveUpRotating(t) == Table(Swap(t.imgs, i, i - 1), Some(i - 1)) &&
      multiset(MoveUp(t).imgs) == multiset(t.imgs)
  {
    SwapPermutes(t.imgs, t.sel.value, t.sel.value - 1);
  }

  /** MoveUp at the top, as imgstable.go and optable.go have it: the list
      grows by one, the first image appears twice (the same reference), and
      the new last index is selected. */
  lemma MoveUpAtTopDuplicates<T>(t: Table<T>)
    requires t.Valid() && t.sel == Some(0)
    ensures var r := MoveUp(t);
      |r.imgs| == |t.imgs| + 1 && r.imgs[0] == r.imgs[1] == t.imgs[0] &&
      r.imgs[1..] == t.imgs &&
      multiset(r.imgs) == multiset(t.imgs) + multiset{t.imgs[0]} &&
      r.sel == Some(|r.imgs| - 1)
  {
  }

  /** The literal MoveUp is not undone by MoveDown: two images a, b with a
      selected come back as b, a, a. */
  lemma MoveUpThenMoveDownChangesList<T>(a: T, b: T)
    ensures var t := Table([a, b], Some(0));
      MoveDown(MoveUp(t)) == Table([b, a, a], Some(0)) &&
      MoveDown(MoveUp(t)) != t
  {
    var t := Table([a, b], Some(0));
    assert MoveUp(t) == Table([a, a, b], Some(2));
    assert [b, a, a] != [a, b];
  }

  /** MoveDown always permutes the list and follows the moved image. */
  lemma MoveDownPermutes<T>(t: Table<T>)
    requires t.Valid() && t.sel.Some?
    ensures var i := t.sel.value; var r := MoveDown(t);
      multiset(r.imgs) == multiset(t.imgs) && |r.imgs| == |t.imgs| &&
      (i == |t.imgs| - 1 ==> r.imgs == [t.imgs[i]] + t.imgs[..i] && r.sel == Some(0)) &&
      (i < |t.imgs| - 1 ==> r.imgs == Swap(t.imgs, i, i + 1) && r.sel == Some(i + 1)) &&
      r.imgs[r.sel.value] == t.imgs[i]
  {
    RotationsPermute(t.imgs);
    if t.sel.value < |t.imgs| - 1 {
      SwapPermutes(t.imgs, t.sel.value, t.sel.value + 1);
    }
  }

  /** app.go's MoveUp permutes the list; at the top it rotates left. */
  lemma MoveUpRotatingPermutes<T>(t: Table<T>)
    requires t.Valid() && t.sel.Some?
    ensures var i := t.sel.value; var r := MoveUpRotating(t);
      multiset(r.imgs) == multiset(t.imgs) && |r.imgs| == |t.imgs| &&
      (i == 0 ==> r.imgs == t.imgs[1..] + [t.imgs[0]] && r.sel == Some(|t.imgs| - 1)) &&
      r.imgs[r.sel.value] == t.imgs[i]
  {
    RotationsPermute(t.imgs);
    if t.sel.value > 0 {
      SwapPermutes(t.imgs, t.sel.value, t.sel.value - 1);
    }
  }

  /** app.go's MoveUp and MoveDown undo each other, at the ends too. */
  lemma MovesUndoEachOther<T>(t: Table<T>)
    requires t.Valid()
    ensures MoveDown(MoveUpRotating(t)) == t
    ensures MoveUpRotating(MoveDown(t)) == t
  {
    if t.sel.Some? {
      MoveDownUndoesMoveUp(t);
      MoveUpUndoesMoveDown(t);
    }
  }

  lemma MoveDownUndoesMoveUp<T>(t: Table<T>)
    requires t.Valid() && t.sel.Some?
    ensures MoveDown(MoveUpRotating(t)) == t
  {
    var i := t.sel.value;
    if i == 0 {
      RotationsPermute(t.imgs);
    } else {
      var u := Swap(t.imgs, i, i - 1);
      assert MoveUpRotating(t) == Table(u, Some(i - 1));
      assert MoveDown(Table(u, Some(i - 1))) == Table(Swap(u, i - 1, i), Some(i));
      assert Swap(u, i - 1, i) == t.imgs;
    }
  }

  lemma MoveUpUndoesMoveDown<T>(t: Table<T>)
    requires t.Valid() && t.sel.Some?
    ensures MoveUpRotating(MoveDown(t)) == t
  {
    var i := t.sel.value;
    if i == |t.imgs| - 1 {
      RotationsPermute(t.imgs);
    } else {
      var u := Swap(t.imgs, i, i + 1);
      assert MoveDown(t) == Table(u, Some(i + 1));
      assert MoveUpRotating(Table(u, Some(i + 1))) == Table(Swap(u, i + 1, i), Some(i));
      assert Swap(u, i + 1, i) == t.imgs;
    }
  }

  /** The arrow keys never touch the list, wrap at both ends, and undo each other. */
  lemma TabKeyWraps<T>(t: Table<T>)
    requires t.Valid() && t.sel.Some?
    ensures TabKey(t, true).imgs == t.imgs && TabKey(t, false).imgs == t.imgs
    ensures t.sel == Some(0) ==> TabKey(t, true).sel == Some(|t.imgs| - 1)
    ensures t.sel == Some(|t.imgs| - 1) ==> TabKey(t, false).sel == Some(0)
    ensures TabKey(TabKey(t, true), false) == t && TabKey(TabKey(t, false), true) == t
  {
  }
}
