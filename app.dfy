/** The list-editing handlers of imgpack/app.go. The application keeps the
    list and the selected index itself; the list widget's Select(i) reaches
    onSelectImageURI(i), which stores i, and clearSelected stores none, so
    both are modelled as those assignments. Reading files (imgutil.ReadImgs)
    happens outside: each handler receives what the reads returned. */
module App {
  import opened Wrappers
  import opened ListOps
  import opened Images
  import opened Paths
  import C = Collection

  /** The keys onTabKey distinguishes. */
  datatype Key = KeyUp | KeyDown | OtherKey

  /** One file's read, as dropFiles and addAction handle it: a failure is
      reported and changes nothing, a success is inserted. */
  function InsertRead<T>(t: C.Table<T>, read: Result<seq<T>>): C.Table<T>
    requires t.Valid()
  {
    match read
    case Fail => t
    case Ok(xs) => C.Insert(t, xs)
  }

  /** The reads of dropFiles, inserted one after the other. */
  function DropAll<T>(t: C.Table<T>, results: seq<Result<seq<T>>>): (r: C.Table<T>)
    requires t.Valid()
    ensures r.Valid() && r.sel == t.sel
    decreases |results|
  {
    if results == [] then t
    else
      DropAll(InsertRead(t, results[0]), results[1..])
  }

  /** The image lists of the successful results, in file order. */
  function Successes<T>(results: seq<Result<seq<T>>>): seq<seq<T>>
  {
    if results == [] then []
    else if results[0].Ok? then [results[0].value] + Successes(results[1..])
    else Successes(results[1..])
  }

  function Flat<T>(ss: seq<seq<T>>): seq<T>
  {
    if ss == [] then [] else ss[0] + Flat(ss[1..])
  }

  /** The lists concatenated last one first. */
  function FlatReversed<T>(ss: seq<seq<T>>): seq<T>
  {
    if ss == [] then [] else FlatReversed(ss[1..]) + ss[0]
  }

  /** dropFiles without a selection appends the successful reads in file
      order; with selection i each later file's images go to i + 1, in front
      of the earlier files' images. Failed reads are skipped, the selection
      never moves. */
  lemma DropAllOrder<T>(t: C.Table<T>, results: seq<Result<seq<T>>>)
    requires t.Valid()
    ensures t.sel.None? ==> DropAll(t, results).imgs == t.imgs + Flat(Successes(results))
    ensures t.sel.Some? ==> var i := t.sel.value;
      DropAll(t, results).imgs == t.imgs[..i + 1] + FlatReversed(Successes(results)) + t.imgs[i + 1..]
  {
    if t.sel.None? {
      DropAllAppends(t.imgs, results);
    } else {
      var i := t.sel.value;
      assert t.imgs == t.imgs[..i + 1] + t.imgs[i + 1..];
      DropAllSplices(t.imgs[..i + 1], t.imgs[i + 1..], i, results);
    }
  }

  lemma {:induction false} DropAllAppends<T>(a: seq<T>, results: seq<Result<seq<T>>>)
    ensures DropAll(C.Table(a, None), results).imgs == a + Flat(Successes(results))
    decreases |results|
  {
    if results == [] {
      assert a + [] == a;
    } else if results[0].Ok? {
      var xs := results[0].value;
      DropAllAppends(a + xs, results[1..]);
      assert Flat(Successes(results)) == xs + Flat(Successes(results[1..]));
    } else {
      DropAllAppends(a, results[1..]);
    }
  }

  lemma {:induction false} DropAllSplices<T>(a: seq<T>, b: seq<T>, i: int, results: seq<Result<seq<T>>>)
    requires 0 <= i && |a| == i + 1
    ensures DropAll(C.Table(a + b, Some(i)), results).imgs == a + FlatReversed(Successes(results)) + b
    decreases |results|
  {
    var t := C.Table(a + b, Some(i));
    if results == [] {
      assert a + [] + b == a + b;
    } else if results[0].Ok? {
      var xs := results[0].value;
      assert (a + b)[..i + 1] == a && (a + b)[i + 1..] == b;
      assert InsertRead(t, results[0]) == C.Table(a + (xs + b), Some(i));
      DropAllSplices(a, xs + b, i, results[1..]);
      assert FlatReversed(Successes(results)) == FlatReversed(Successes(results[1..])) + xs;
    } else {
      DropAllSplices(a, b, i, results[1..]);
    }
  }

  /** The name the Download dialog proposes for an image. */
  function DownloadName(filename: string): (name: string)
    ensures StripExt(name) == filename && Ext(name) == ".jpg"
  {
    ExtOfAppended(filename, ".jpg");
    filename + ".jpg"
  }

  class ImgpackApp {
    var selectedImgIdx: Option<int>
    var imgs: seq<Image>

    function State(): C.Table<Image>
      reads this
    {
      C.Table(imgs, selectedImgIdx)
    }

    predicate Valid()
      reads this
    {
      State().Valid()
    }

    function SelectedObjects(): set<Image>
      reads this
    {
      if selectedImgIdx.Some? && 0 <= selectedImgIdx.value < |imgs| then {imgs[selectedImgIdx.value]} else {}
    }

    constructor ()
      ensures Valid() && imgs == [] && selectedImgIdx.None?
    {
      selectedImgIdx := None;
      imgs := [];
    }

    /** dropFiles: one read per dropped file, in order. */
    method DropFiles(results: seq<Result<seq<Image>>>)
      requires Valid()
      modifies this
      ensures Valid() && State() == DropAll(old(State()), results)
    {
      ghost var t0 := State();
      var k := 0;
      while k < |results|
        invariant 0 <= k <= |results|
        invariant Valid()
        invariant DropAll(State(), results[k..]) == DropAll(t0, results)
      {
        var read := results[k];
        assert results[k..][0] == read && results[k..][1..] == results[k + 1..];
        if read.Ok? {
          if selectedImgIdx.None? {
            imgs := imgs + read.value;
          } else {
            var idx := selectedImgIdx.value;
            imgs := Splice(imgs, idx + 1, read.value);
          }
        }
        k := k + 1;
      }
      assert results[k..] == [];
    }

    /** addAction, after the file dialog: one read. A cancelled dialog
        changes nothing, as a failed read does. */
    method AddAction(read: Result<seq<Image>>)
      requires Valid()
      modifies this
      ensures Valid() && State() == InsertRead(old(State()), read)
    {
      if read.Fail? {
        return;
      }
      if selectedImgIdx.None? {
        imgs := imgs + read.value;
      } else {
        var idx := selectedImgIdx.value;
        imgs := Splice(imgs, idx + 1, read.value);
      }
    }

    /** onTabKey: the arrow keys move the selection with wrap-around. */
    method OnTabKey(key: Key)
      requires Valid()
      modifies this
      ensures Valid()
      ensures State() == if key == OtherKey then old(State()) else C.TabKey(old(State()), key == KeyUp)
    {
      match key {
        case KeyUp =>
          if selectedImgIdx.Some? {
            var idx := selectedImgIdx.value;
            if idx > 0 {
              OnSelectImageURI(idx - 1);
            } else {
              OnSelectImageURI(|imgs| - 1);
            }
          }
        case KeyDown =>
          if selectedImgIdx.Some? {
            var idx := selectedImgIdx.value;
            if idx < |imgs| - 1 {
              OnSelectImageURI(idx + 1);
            } else {
              OnSelectImageURI(0);
            }
          }
        case OtherKey =>
      }
    }

    /** clearSelected. */
    method ClearSelected()
      modifies this
      ensures State() == C.Unselect(old(State())) && Valid()
    {
      selectedImgIdx := None;
    }

    /** clearAction: nothing on an empty list; otherwise, once confirmed,
        no images and no selection. */
    method ClearAction(confirmed: bool)
      requires Valid()
      modifies this
      ensures Valid()
      ensures State() == if |old(imgs)| > 0 && confirmed then C.Clear(old(State())) else old(State())
    {
      if |imgs| == 0 {
        return;
      }
      if confirmed {
        imgs := [];
        ClearSelected();
      }
    }

    /** onSelectImageURI, called by the list widget with one of its rows. */
    method OnSelectImageURI(id: int)
      requires 0 <= id < |imgs|
      modifies this
      ensures Valid() && State() == C.Table(old(imgs), Some(id))
    {
      selectedImgIdx := Some(id);
    }

    method DeleteAction()
      requires Valid()
      modifies this
      ensures Valid() && State() == C.Delete(old(State()))
    {
      if selectedImgIdx.None? {
        return;
      }
      var idx := selectedImgIdx.value;
      imgs := RemoveAt(imgs, idx);
      if idx >= |imgs| {
        ClearSelected();
      } else {
        OnSelectImageURI(idx);
      }
    }

    method DupAction()
      requires Valid()
      modifies this
      ensures Valid()
      ensures old(selectedImgIdx).None? ==> State() == old(State())
      ensures old(selectedImgIdx).Some? ==>
        var i := old(selectedImgIdx).value;
        |imgs| == |old(imgs)| + 1 && fresh(imgs[i + 1]) &&
        Value(imgs[i + 1]) == Value(old(imgs)[i]) &&
        State() == C.InsertAfterSelected(old(State()), imgs[i + 1])
    {
      if selectedImgIdx.None? {
        return;
      }
      var idx := selectedImgIdx.value;
      var img := imgs[idx];
      var newImg := img.Clone();
      imgs := Splice(imgs, idx + 1, [newImg]);
      assert imgs[idx + 1] == newImg;
    }

    /** moveUpAction: at the top the list rotates left. */
    method MoveUpAction()
      requires Valid()
      modifies this
      ensures Valid() && State() == C.MoveUpRotating(old(State()))
    {
      if selectedImgIdx.None? {
        return;
      }
      var idx := selectedImgIdx.value;
      if idx == 0 {
        imgs := RotateLeft(imgs);
        OnSelectImageURI(|imgs| - 1);
        return;
      }
      imgs := Swap(imgs, idx, idx - 1);
      OnSelectImageURI(idx - 1);
    }

    method MoveDownAction()
      requires Valid()
      modifies this
      ensures Valid() && State() == C.MoveDown(old(State()))
    {
      if selectedImgIdx.None? {
        return;
      }
      var idx := selectedImgIdx.value;
      if idx == |imgs| - 1 {
        imgs := RotateRight(imgs);
        OnSelectImageURI(0);
        return;
      }
      imgs := Swap(imgs, idx, idx + 1);
      OnSelectImageURI(idx + 1);
    }

    method RotateAction(rotate90: Bitmap -> Bitmap)
      requires Valid()
      modifies SelectedObjects()
      ensures State() == old(State())
      ensures old(selectedImgIdx).Some? ==>
        var img := imgs[selectedImgIdx.value];
        img.Img == rotate90(old(img.Img)) &&
        img.Filename == old(img.Filename) && img.Type == old(img.Type)
    {
      if selectedImgIdx.None? {
        return;
      }
      var img := imgs[selectedImgIdx.value];
      img.Img := rotate90(img.Img);
    }

    method CutAction()
      requires Valid()
      modifies this, SelectedObjects()
      ensures Valid()
      ensures old(selectedImgIdx).None? ==> State() == old(State())
      ensures old(selectedImgIdx).Some? ==>
        var i := old(selectedImgIdx).value;
        var img := old(imgs)[i];
        |imgs| == |old(imgs)| + 1 && fresh(imgs[i + 1]) &&
        State() == C.InsertAfterSelected(old(State()), imgs[i + 1]) &&
        Value(img) == ImageValue(old(img.Filename) + "_1", LeftHalf(old(img.Img)), old(img.Type)) &&
        Value(imgs[i + 1]) == ImageValue(old(img.Filename) + "_2", RightHalf(old(img.Img)), old(img.Type))
    {
      if selectedImgIdx.None? {
        return;
      }
      var idx := selectedImgIdx.value;
      var img := imgs[idx];
      var filename := img.Filename;
      var imgType := img.Type;
      var img1 := LeftHalf(img.Img);
      var img2 := RightHalf(img.Img);
      img.Filename := filename + "_1";
      img.Img := img1;
      var newImg := new Image(filename + "_2", img2, imgType);
      imgs := Splice(imgs, idx + 1, [newImg]);
      assert imgs[idx + 1] == newImg;
    }

    /** The file name downloadAction proposes: none without a selection. */
    function DownloadFileName(): (r: Option<string>)
      reads this, SelectedObjects()
      requires Valid()
      ensures r.None? <==> selectedImgIdx.None?
      ensures r.Some? ==> StripExt(r.value) == imgs[selectedImgIdx.value].Filename && Ext(r.value) == ".jpg"
    {
      if selectedImgIdx.None? then None else Some(DownloadName(imgs[selectedImgIdx.value].Filename))
    }
  }
}
