# goimgpack core, modelled in Dafny

goimgpack is a desktop tool. It gathers images from image files, zip or cbz
archives, directories and PDF documents into one ordered collection. The user
reorders, duplicates, rotates and halves the images, and exports the collection
as a zip archive of JPEG files or as a PDF document. This project models the
core of that tool and proves properties of the model.

The model covers four parts:

- **The image table.** This is an ordered list of references to image objects,
  plus an optional selected index. There are three versions of it:
  - the guarded table of `imgpack/imgstable/imgstable.go` (module `Imgstable`), which keeps its selection valid and fires change callbacks;
  - the older unguarded table of `imgpack/optable.go` (module `Optable`), in which a dangling selection makes Go panic;
  - the list-editing handlers of `imgpack/app.go` (module `App`).

  All three are classes whose methods change their fields. Each method is
  proved against a pure transition on a `Table` value, and those transitions
  are in module `Collection`. Module `ListOps` holds the pure list edits they
  are built from:
  - `slices.Insert`;
  - `slices.Delete`;
  - swaps;
  - the two rotations, and the duplicating `append`.
- **The import side.**
  - `internal/imgutil/read.go` (module `ImgutilRead`) covers a single file, an archive, a directory and a PDF document, including how PDF images are named and sorted.
  - `internal/imgutil/imgs.go` (module `ImgutilImgs`) is the older revision. It opens the path itself and picks the reader by extension before asking the file system.
  - `imgpack/imgs.go` (module `ImgpackImgs`) is the oldest revision, in which archive member names are not flattened.
  - The image entity, with its constructors and `Clone`, is in module `Images`.
  - Go's `filepath.Ext`, `strings.TrimSuffix`, `path.Base` and `filepath.Join` are in module `Paths`.
- **The export side.** `internal/imgutil/save.go` (module `ImgutilSave`) covers
  how zip members are named, their order, and what an encoder or writer failure
  leaves written. It also covers the PDF export and the export of one image.
- **Number formatting.**
  - `CountDigits` of `internal/util/digits.go` is in module `Digits`. It is modelled over unbounded `int`, and `Digits.DigitCountInt64` bounds the count for 64-bit values. Go's `-n` wraps at the smallest 64-bit value, and the wrapped loop still counts 20, the count the model gives.
  - `PaddingZero` of `internal/util/format.go`, which is the `%0<width>d` verb of `fmt`, is in module `Format`.
  - Go's byte-wise string order, used by `slices.Sort`, is in module `Lex`.
  - The names given to PDF images are in module `PdfNames`.

The model has no bodyless declarations. The outside world is passed in instead:
- reading a file, listing a directory, `os.Stat`, creating a file;
- the image decoder and the JPEG encoder;
- unzipping and the zip writer's `Create`;
- pdfcpu's page count, raw image extraction and image import;
- `imaging.Rotate90`.

Each of these is a function-typed parameter, and a failure is a `Fail` result.
A reader's result is proved equal to a specification function of these
parameters. That function's properties are then proved as lemmas: which inputs
succeed, the names, the order and the contents.

## Model

| member | source | states |
|---|---|---|
| Digits.CountDigits | internal/util/digits.go:4-21 | the loop returns the number of characters of the decimal form of n, sign included, and at least 1 |
| Digits.DigitCountZero | internal/util/digits.go:5-7 | zero has one digit |
| Digits.DigitCountNegative | internal/util/digits.go:10-13 | a negative number counts one more than its magnitude, for the minus sign |
| Digits.DigitCountBounds | internal/util/digits.go:15-18 | for n > 0 the count k satisfies 10^(k-1) <= n < 10^k, so it is the number of decimal digits |
| Digits.DigitCountPositive | internal/util/digits.go:4-21 | the count is never below 1 |
| Digits.DigitCountMonotone | internal/util/digits.go:15-18 | a larger non-negative number never has fewer digits |
| Digits.DigitCountInt64 | internal/util/digits.go:4-21 | a 64-bit int has at most 20 characters, and at most 19 when non-negative |
| Format.Decimal | internal/util/format.go:6-9 | the unpadded decimal form of a natural number has CountDigits characters, all digits |
| Format.Signed | internal/util/format.go:6-9 | `%d` of any int has as many characters as CountDigits counts |
| Format.PaddingZero | internal/util/format.go:6-9 | the length of `%0<w>d` is the larger of w and the digit count; a negative w gives length -w when that exceeds the digit count |
| Format.PaddingZeroShape | internal/util/format.go:6-9 | for n >= 0, the result is all digits: zeros followed by the decimal form of n |
| Format.PaddingZeroNoTruncation | internal/util/format.go:6-9 | a width no larger than the digit count changes nothing: the result is plain `%d` |
| Format.ParsePaddingZero | internal/util/format.go:6-9 | reading the padded form of n >= 0 as a decimal number gives back n |
| Format.NegativePaddingMagnitude | internal/util/format.go:6-9 | for n < 0 the result is '-' followed by digits that read back as -n |
| Format.NegativePaddingForm | internal/util/format.go:6-9 | for n < 0 the zeros go between the sign and the magnitude |
| Format.PaddingZeroInjective | internal/util/format.go:6-9 | at one non-negative width, different numbers give different strings |
| Format.PaddingZeroOrder | internal/util/format.go:6-9 | padded to a common width that fits both, non-negative numbers sort as strings exactly as they sort as numbers |
| Format.DigitStringOrder | internal/util/format.go:6-9 | digit strings of equal length compare as strings exactly as their values compare |
| Format.ParseDecimal | internal/util/format.go:6-9 | the decimal form of n reads back as n |
| Lex.SortCorrect | internal/imgutil/read.go:162-163 | sorting returns a permutation of its input in Go's string order |
| Lex.SortDistinct | internal/imgutil/read.go:162-163 | sorting the distinct keys of a map gives a strictly increasing list of exactly those keys |
| Lex.SortedUnique | internal/imgutil/read.go:162-163 | only one strictly increasing list holds a given set of strings, so the map's iteration order cannot affect the sorted key list |
| Lex.InsertSorted | internal/imgutil/read.go:163 | insertion keeps a list sorted and adds exactly the new element |
| Lex.SortedElements | internal/imgutil/read.go:162-163 | the sorted key list is strictly increasing and holds exactly the set's members |
| Paths.ExtShape | internal/imgutil/read.go:21 | `filepath.Ext` is a suffix of the path. It is empty or starts with its only '.', and holds no '/'. It is empty only when every '.' is followed by a '/' |
| Paths.TrimSuffixSpec | internal/imgutil/imgs.go:55 | `strings.TrimSuffix` removes the suffix exactly when the string ends with it, and otherwise changes nothing |
| Paths.StripExtSplits | internal/imgutil/imgs.go:54-55 | the name without its extension, followed by the extension, is the original name |
| Paths.ExtOfDotless | internal/imgutil/imgs.go:54-55 | a name without '.' has no extension and keeps its name |
| Paths.ExtOfAppended | internal/imgutil/save.go:30 | appending an extension makes it the extension, and removing it gives back the stem |
| Paths.Flatten | internal/imgutil/read.go:98-99 | every '/' becomes '_', every other character stays, and the result holds no '/' |
| Paths.ExtOfFlatten | internal/imgutil/read.go:88-101 | flattening does not change a non-empty extension |
| Paths.StripFlattened | internal/imgutil/read.go:99-101 | flattening then removing the extension is the same as removing the extension then flattening |
| Paths.FlattenExample | internal/imgutil/read.go:99-101 | member "sub/dir/photo.png" is named "sub_dir_photo" |
| Paths.StripExtExample | internal/imgutil/imgs.go:55 | only the last extension is removed: "a.b.png" becomes "a.b" |
| Paths.BaseShape | internal/imgutil/imgs.go:45 | `path.Base` is never empty, and is "/" or holds no '/' |
| Paths.BaseOfJoin | internal/imgutil/read.go:59 | the base of a directory joined with a slash-free entry name is that name |
| Images.CropColumns | imgpack/imgstable/imgstable.go:225-226 | a crop keeps the number of rows |
| Images.CutHalves | imgpack/imgstable/imgstable.go:220-226 | the halves keep the height. The left half is W/2 wide and the right half W - W/2. Side by side they give back the original bitmap |
| Images.Image.constructor | internal/imgutil/imgs.go:27-36 | a new image holds the given name, bitmap and codec name |
| Images.Image.Clone | internal/imgutil/imgs.go:64-74 | a fresh object with the same name, the same pixels and the same codec name |
| Images.Values | internal/imgutil/imgs.go:27-36 | the value list of a list of images has one value per image, in order |
| Images.DecodeImage | internal/imgutil/imgs.go:48-62 | decoding succeeds exactly when the codec does, and keeps the codec's pixels and format name |
| Images.NewImg | internal/imgutil/imgs.go:48-62 | a fresh image when the data decodes, named after the hint without its extension, and a failure otherwise |
| Images.NewImgByFilepath | internal/imgutil/imgs.go:38-46 | opening and decoding the path, named after its base name without its extension |
| Images.LoadedNameHasNoDirectory | internal/imgutil/imgs.go:38-46 | an image loaded from a path has no '/' in its name, unless the path's base is "/" |
| Images.LoadedJoinedName | internal/imgutil/read.go:59 | an image loaded from a directory entry is named after the entry without its extension |
| ListOps.SpliceAt | imgpack/imgstable/imgstable.go:110 | `slices.Insert` keeps the prefix, puts the new items at the index and shifts the rest; the multiset grows by the new items |
| ListOps.RemoveAtShifts | imgpack/imgstable/imgstable.go:129 | `slices.Delete` of one index keeps the prefix, shifts the rest down and removes exactly that element |
| ListOps.SwapPermutes | imgpack/imgstable/imgstable.go:166 | the swap exchanges the two positions, leaves the others alone and permutes the list |
| ListOps.PrependFirstDuplicates | imgpack/imgstable/imgstable.go:160 | `append(s[:1], s[0:]...)` puts the first element twice in front of the whole list |
| ListOps.RotationsPermute | imgpack/imgstable/imgstable.go:182 | both rotations permute the list, move the end element round, and undo each other |
| Collection.TransitionsKeepSelectionValid | imgpack/imgstable/imgstable.go:64-194 | every transition of the guarded table keeps the selection absent or pointing into the list |
| Collection.SelectGuard | imgpack/imgstable/imgstable.go:64-75 | Select takes an in-range index and ignores any other, and the list is unchanged |
| Collection.InsertPlacement | imgpack/imgstable/imgstable.go:103-113 | insert appends without a selection and otherwise splices right after the selected image; the rest of the list and the selection are kept |
| Collection.DeleteRemovesSelected | imgpack/imgstable/imgstable.go:123-135 | delete removes exactly the selected image; the selection stays on the index, and becomes none when the last image was removed |
| Collection.InsertAfterSelectedPlacement | imgpack/imgstable/imgstable.go:138-150 | the new image lands right after the selected one, and everything else keeps its order |
| Collection.MoveUpSwaps | imgpack/imgstable/imgstable.go:166-168 | away from the top, move-up swaps with the previous image and follows it with the selection; the list is permuted |
| Collection.MoveUpAtTopDuplicates | imgpack/imgstable/imgstable.go:159-163 | at the top, move-up as written adds a second reference to the first image and selects the new last index |
| Collection.MoveUpThenMoveDownChangesList | imgpack/imgstable/imgstable.go:153-194 | on [a, b] with a selected, move-up then move-down gives [b, a, a], not the original list |
| Collection.MoveDownPermutes | imgpack/imgstable/imgstable.go:175-194 | move-down permutes the list; at the bottom the last image goes to the front and is selected; the selection follows the moved image |
| Collection.MoveUpRotatingPermutes | imgpack/app.go:436-450 | move-up with wrap-around permutes the list; at the top the first image goes to the end and is selected |
| Collection.MovesUndoEachOther | imgpack/app.go:436-466 | move-up with wrap-around and move-down undo each other on every valid table |
| Collection.MoveDownUndoesMoveUp | imgpack/app.go:436-466 | move-down undoes move-up with wrap-around when an image is selected |
| Collection.MoveUpUndoesMoveDown | imgpack/app.go:436-466 | move-up with wrap-around undoes move-down when an image is selected |
| Collection.TabKeyWraps | imgpack/app.go:255-276 | the arrow keys leave the list alone, wrap from top to bottom and back, and undo each other |
| Imgstable.ImgsTable.constructor | imgpack/imgstable/imgstable.go:20-26 | an empty table, no selection, no callbacks fired |
| Imgstable.ImgsTable.GetSelectedImg | imgpack/imgstable/imgstable.go:85-91 | the selected image object when there is a selection, nil otherwise |
| Imgstable.ImgsTable.Select | imgpack/imgstable/imgstable.go:64-75 | the guarded select; the index-change callback fires only when the selection really changes |
| Imgstable.ImgsTable.Unselect | imgpack/imgstable/imgstable.go:93-100 | no selection afterwards; the callback fires only if there was one |
| Imgstable.ImgsTable.Insert | imgpack/imgstable/imgstable.go:103-113 | the insert transition; the list-change callback fires only on the selected path |
| Imgstable.ImgsTable.Clear | imgpack/imgstable/imgstable.go:116-120 | empty list and no selection; the list callback fires, then the index callback if something was selected |
| Imgstable.ImgsTable.Delete | imgpack/imgstable/imgstable.go:123-135 | the delete transition; the callbacks are list change, then index change when the last image went |
| Imgstable.ImgsTable.Duplicate | imgpack/imgstable/imgstable.go:138-150 | a fresh copy of the selected image, equal in value, is inserted right after it |
| Imgstable.ImgsTable.MoveUp | imgpack/imgstable/imgstable.go:153-172 | the move-up transition as written; no callbacks at the top, where the method returns early |
| Imgstable.ImgsTable.MoveDown | imgpack/imgstable/imgstable.go:175-194 | the move-down transition; no callbacks at the bottom, where the method returns early |
| Imgstable.ImgsTable.Rotate | imgpack/imgstable/imgstable.go:197-206 | only the selected object's bitmap is replaced by its rotation; the list, the selection, names and codec names are unchanged |
| Imgstable.ImgsTable.Cut | imgpack/imgstable/imgstable.go:210-241 | the selected image becomes the left half named "_1", and a fresh right half named "_2" with the same codec follows it |
| Imgstable.AliasAfterMoveUp | imgpack/imgstable/imgstable.go:159-164 | after move-up at the top, [a, b] holds a twice, and rotating the second row rotates the first row as well |
| Optable.Selected | imgpack/optable.go:24-30 | nothing without a selection, the selected image when it is in range, a panic when it dangles |
| Optable.Inserted | imgpack/optable.go:36-44 | insert panics exactly when selection + 1 lies outside 0..len; otherwise it keeps the selection and adds exactly the new images |
| Optable.Cleared | imgpack/optable.go:46-48 | clear empties the list and keeps the selection |
| Optable.Deleted | imgpack/optable.go:53-60 | delete panics on a dangling selection; otherwise it removes one image and keeps the selection |
| Optable.Extended | imgpack/optable.go:62-73 | duplicate's list change panics on a dangling selection and keeps the selection |
| Optable.MovedUp | imgpack/optable.go:75-91 | move-up panics exactly on a dangling selection |
| Optable.MovedDown | imgpack/optable.go:93-109 | move-down panics exactly on a dangling selection |
| Optable.AgreesWithGuardedTable | imgpack/optable.go:36-109 | with a valid selection the unguarded table never panics and edits the list as the guarded one does; the selections differ only after deleting the last image |
| Optable.DeleteLastDangles | imgpack/optable.go:53-60 | deleting the last image leaves the selection one past the end. The next read or delete panics, and so does the next move-up when at least one image is left |
| Optable.ClearKeepsDanglingSelection | imgpack/optable.go:46-48 | after clear with a selection, reading or duplicating panics, and insert works only for selection -1 |
| Optable.SelectMinusOneInsertsAtFront | imgpack/optable.go:16-18 | Select(-1) is accepted, and the next insert puts the images in front |
| Optable.ImgsTable.constructor | imgpack/optable.go:11-14 | an empty table without a selection |
| Optable.ImgsTable.Select | imgpack/optable.go:16-18 | any index is stored as the selection |
| Optable.ImgsTable.GetSelected | imgpack/optable.go:24-30 | as Selected on the current state |
| Optable.ImgsTable.IsSelected | imgpack/optable.go:20-22 | true exactly when a selection is stored |
| Optable.ImgsTable.Unselect | imgpack/optable.go:32-34 | no selection, list unchanged |
| Optable.ImgsTable.Insert | imgpack/optable.go:36-44 | panics exactly as Inserted does, with the state unchanged, and otherwise takes Inserted's state |
| Optable.ImgsTable.Clear | imgpack/optable.go:46-48 | takes Cleared's state |
| Optable.ImgsTable.Remove | imgpack/optable.go:50-51 | changes nothing |
| Optable.ImgsTable.Delete | imgpack/optable.go:53-60 | panics exactly as Deleted does, and otherwise takes Deleted's state |
| Optable.ImgsTable.Duplicate | imgpack/optable.go:62-73 | panics on a dangling selection; otherwise a fresh equal copy goes right after the selected image |
| Optable.ImgsTable.MoveUp | imgpack/optable.go:75-91 | panics exactly as MovedUp does, and otherwise takes MovedUp's state |
| Optable.ImgsTable.MoveDown | imgpack/optable.go:93-109 | panics exactly as MovedDown does, and otherwise takes MovedDown's state |
| Optable.ImgsTable.Rotate | imgpack/optable.go:111-118 | panics on a dangling selection; otherwise only the selected bitmap is rotated |
| Optable.ImgsTable.Cut | imgpack/optable.go:120-148 | panics on a dangling selection; otherwise the image is replaced by its halves, as in the guarded table |
| App.DropAll | imgpack/app.go:236-253 | dropping files keeps the selection and a valid table |
| App.DropAllOrder | imgpack/app.go:236-253 | without a selection, files are appended in drop order. With one, each file goes right after the selected image, so the files end up in reverse order; failed reads add nothing |
| App.DropAllAppends | imgpack/app.go:244-245 | without a selection, the images of all successful reads are appended in order |
| App.DropAllSplices | imgpack/app.go:246-249 | with a selection, the reads land after the selected image, last read first |
| App.DownloadName | imgpack/app.go:382 | the suggested file name has extension ".jpg" and the image's name as its stem |
| App.ImgpackApp.constructor | imgpack/app.go:53-64 | an empty list and no selection |
| App.ImgpackApp.DropFiles | imgpack/app.go:236-253 | the loop over the dropped files reaches DropAll's state |
| App.ImgpackApp.AddAction | imgpack/app.go:327-341 | one read inserted as in dropFiles; a failed read changes nothing |
| App.ImgpackApp.OnTabKey | imgpack/app.go:255-276 | the arrow keys make the TabKey transition; other keys change nothing |
| App.ImgpackApp.ClearSelected | imgpack/app.go:278-290 | no selection, list unchanged |
| App.ImgpackApp.ClearAction | imgpack/app.go:292-305 | nothing on an empty list or an unconfirmed dialog; otherwise an empty list and no selection |
| App.ImgpackApp.OnSelectImageURI | imgpack/app.go:388-389 | the widget's row becomes the selection |
| App.ImgpackApp.DeleteAction | imgpack/app.go:406-420 | the delete transition of the guarded table |
| App.ImgpackApp.DupAction | imgpack/app.go:422-434 | a fresh equal copy right after the selected image |
| App.ImgpackApp.MoveUpAction | imgpack/app.go:436-450 | move-up with wrap-around: at the top the first image goes to the end |
| App.ImgpackApp.MoveDownAction | imgpack/app.go:452-466 | the move-down transition |
| App.ImgpackApp.RotateAction | imgpack/app.go:506-515 | only the selected bitmap is rotated |
| App.ImgpackApp.CutAction | imgpack/app.go:517-549 | the selected image is replaced by its named halves |
| App.ImgpackApp.DownloadFileName | imgpack/app.go:352-382 | no name without a selection; otherwise the selected image's name with the extension ".jpg" |
| PdfNames.PdfName | internal/imgutil/read.go:151 | a PDF image's name holds no '.' and no '/', so it has no extension to strip and no directory |
| PdfNames.PaddingZeroCharset | internal/imgutil/read.go:151 | the padded key holds only digits and '-', and never the separator '_' |
| PdfNames.PdfNameInjective | internal/imgutil/read.go:148-159 | different (key, page) pairs get different names, so no image of the map is overwritten |
| PdfNames.PdfNameOrder | internal/imgutil/read.go:151-163 | names sort by key first, numerically, and then by page index as an unpadded string |
| PdfNames.PageTenBeforePageTwo | internal/imgutil/read.go:151-163 | for one key, page 10 sorts before page 2 |
| PdfNames.KeyMax | internal/imgutil/read.go:140-145 | the larger of 0 and the largest key of one map |
| PdfNames.JdxMax | internal/imgutil/read.go:140-145 | the larger of 0 and the largest key of every map |
| PdfNames.JdxMaxUnique | internal/imgutil/read.go:140-145 | that maximum does not depend on the order the maps are visited in |
| PdfNames.KeyWidth | internal/imgutil/read.go:146 | the width is between 1 and 19, and wide enough for every non-negative key |
| PdfNames.PageNamesInjective | internal/imgutil/read.go:150-151 | within one page, different keys give different names |
| PdfNames.PageSourcesHave | internal/imgutil/read.go:150-158 | every image of a page is stored under its own name |
| PdfNames.PageSourcesNamed | internal/imgutil/read.go:150-158 | every name a page stores is the name of one of its images |
| PdfNames.SourcesHaveImage | internal/imgutil/read.go:148-160 | after the first n pages, each of their images is in the map under its own name |
| PdfNames.SourcesAreNamed | internal/imgutil/read.go:148-160 | every name in the map belongs to an image of those pages |
| ImgutilRead.Then | internal/imgutil/read.go:64 | images gathered so far come first, and a failure stays a failure |
| ImgutilRead.CollectOk | internal/imgutil/read.go:54-65 | a filtered load loop succeeds exactly when every kept entry loads |
| ImgutilRead.CollectValues | internal/imgutil/read.go:54-65 | on success it yields one image per kept entry, in entry order |
| ImgutilRead.CollectSpec | internal/imgutil/read.go:54-65 | both of the above together |
| ImgutilRead.CollectStep | internal/imgutil/read.go:54-65 | one loop step: a skipped entry, a failing entry or one more image |
| ImgutilRead.ZipImage | internal/imgutil/read.go:92-104 | a member becomes an image exactly when it opens and decodes, named by its (flattened) name |
| ImgutilRead.ZipImagesSpec | internal/imgutil/read.go:82-109 | reading members succeeds exactly when every wanted member opens and decodes; the images are those members in archive order |
| ImgutilRead.ZipImageName | internal/imgutil/read.go:88-101 | a wanted member's image is named after its path, flattened, without the extension, and so holds no '/' |
| ImgutilRead.ZipSkip | internal/imgutil/read.go:84-90 | a directory or unsupported member is skipped |
| ImgutilRead.ZipFail | internal/imgutil/read.go:92-104 | a wanted member that fails to open or decode fails the whole read |
| ImgutilRead.ZipLoad | internal/imgutil/read.go:101-106 | a wanted member that decodes adds its image |
| ImgutilRead.VisitMember | internal/imgutil/read.go:84-106 | one member: skipped, a failure, or a fresh image of its value |
| ImgutilRead.ReadZipEntries | internal/imgutil/read.go:82-109 | the member loop returns fresh, distinct images whose values are the archive's images |
| ImgutilRead.ReadImgsInZip | internal/imgutil/read.go:71-110 | read all, unzip, then the member loop; any failure fails the read |
| ImgutilRead.ZipFileImages | internal/imgutil/read.go:71-80 | success requires that both the read and the unzip succeeded |
| ImgutilRead.FileLoaderApplies | internal/imgutil/read.go:59 | an entry is loaded from the directory joined with its name |
| ImgutilRead.DirImagesSpec | internal/imgutil/read.go:53-67 | the directory read succeeds exactly when every non-directory entry loads. The images are those entries in listing order, each named after its entry without the extension |
| ImgutilRead.DirSkip | internal/imgutil/read.go:55-57 | a sub-directory is skipped |
| ImgutilRead.DirFail | internal/imgutil/read.go:59-62 | an entry that fails to load fails the read |
| ImgutilRead.DirLoad | internal/imgutil/read.go:59-64 | an entry that loads adds its image |
| ImgutilRead.VisitEntry | internal/imgutil/read.go:54-64 | one entry: skipped, a failure, or a fresh image of its value |
| ImgutilRead.ReadDirEntries | internal/imgutil/read.go:53-67 | the entry loop returns fresh, distinct images whose values are the directory's images |
| ImgutilRead.ReadImgsInDir | internal/imgutil/read.go:47-68 | list the directory, then the entry loop; a listing failure fails the read |
| ImgutilRead.DirFileImages | internal/imgutil/read.go:48-51 | success requires a successful listing |
| ImgutilRead.Pages | internal/imgutil/read.go:130-133 | one page selector per page |
| ImgutilRead.PageNumbers | internal/imgutil/read.go:130-133 | the loop writes "1".."n", the decimal number of each page |
| ImgutilRead.MaxKey | internal/imgutil/read.go:140-145 | the nested loop computes the larger of 0 and the largest key |
| ImgutilRead.PageSourcesKeys | internal/imgutil/read.go:150-151 | the names one page stores are its keys' names |
| ImgutilRead.StoreImage | internal/imgutil/read.go:153-158 | decode one image and store a fresh object under its name, or fail without storing |
| ImgutilRead.StorePage | internal/imgutil/read.go:150-159 | one page's loop stores every image of the page under its name, or fails on one that does not decode |
| ImgutilRead.ReadPages | internal/imgutil/read.go:148-160 | the map holds exactly the named images of all pages, each a distinct object, and fails exactly when one does not decode |
| ImgutilRead.CollectKeys | internal/imgutil/read.go:162 | the keys of the map, each once |
| ImgutilRead.ImagesOfKeys | internal/imgutil/read.go:165-168 | the i-th image is the map's image under the i-th key |
| ImgutilRead.SortedImages | internal/imgutil/read.go:162-168 | taking the map's images in sorted key order gives the document's images, all distinct |
| ImgutilRead.ReadPdfPages | internal/imgutil/read.go:140-170 | from the extracted maps to distinct images whose values are the document's images |
| ImgutilRead.ReadImgsInPDF | internal/imgutil/read.go:113-171 | read, count pages, extract, then name, decode and sort; every failure fails the read |
| ImgutilRead.PdfImagesSucceed | internal/imgutil/read.go:153-156 | a document read succeeds exactly when every extracted image decodes |
| ImgutilRead.PdfImageNamed | internal/imgutil/read.go:151-167 | the p-th image is the one stored under the p-th smallest name, and carries that name |
| ImgutilRead.PdfImagesSorted | internal/imgutil/read.go:162-163 | the images come out strictly ordered by name |
| ImgutilRead.PdfImageAt | internal/imgutil/read.go:148-168 | every extracted image appears in the result under its name |
| ImgutilRead.PdfImageSource | internal/imgutil/read.go:148-168 | every result image is an extracted image under its name |
| ImgutilRead.PdfImagesOrder | internal/imgutil/read.go:151-163 | two images are ordered by key, and then by page index as a string |
| ImgutilRead.ReadImgsInFile | internal/imgutil/read.go:20-44 | an archive or a document by its extension; anything else is decoded as one image |
| ImgutilRead.SinglePicture | internal/imgutil/read.go:38-43 | a file of any other extension gives one image named after the file without its extension, with the decoder's pixels |
| ImgutilRead.ExtensionCaseMatters | internal/imgutil/read.go:21-22 | the extension test is case-sensitive: "book.CBZ" is decoded as one picture named "book" |
| ImgutilImgs.ReadImgsInZip | internal/imgutil/imgs.go:138-173 | the path opened and read as an archive, with flattened member names as in the later revision; fresh, distinct images |
| ImgutilImgs.ReadImgsInPDF | internal/imgutil/imgs.go:175-239 | the path opened and read as a document, as in the later revision |
| ImgutilImgs.ReadImgs | internal/imgutil/imgs.go:76-113 | an archive or a document by extension; otherwise a directory or a single image, as the file system says |
| ImgutilImgs.ExtensionBeforeStat | internal/imgutil/imgs.go:76-92 | on an archive or document extension, the file system's answer about directories makes no difference |
| ImgutilImgs.SingleFilePath | internal/imgutil/imgs.go:107-112 | a plain file gives one image named after its base name without its extension |
| ImgutilImgs.DirectoryPath | internal/imgutil/imgs.go:99-105 | a directory is read by the directory reader, whatever its name |
| ImgpackImgs.OldZipImages | imgpack/imgs.go:86-118 | success requires that both the open and the unzip succeeded |
| ImgpackImgs.ReadImgsInZip | imgpack/imgs.go:86-118 | the member loop without flattening; fresh, distinct images whose values are the archive's images |
| ImgpackImgs.ReadImgs | imgpack/imgs.go:68-84 | an archive by extension, anything else as one image; the images are fresh and distinct |
| ImgpackImgs.OnlyArchivesOrImages | imgpack/imgs.go:68-84 | there is no document or directory branch: any other path is one decoded image named after its base |
| ImgpackImgs.MemberNameKeepsDirectory | imgpack/imgs.go:109 | here member "sub/dir/photo.png" is named "sub/dir/photo"; the later readers name it "sub_dir_photo" |
| ImgpackImgs.SaveImgsAsZip | imgpack/imgs.go:120-148 | a file that cannot be created gets nothing; otherwise the members are written as by the later writer, at quality 90 |
| ImgutilSave.ZipExportMembers | internal/imgutil/save.go:29-43 | the members written so far are named and encoded from the images in order, never more than there are images |
| ImgutilSave.ZipExportOk | internal/imgutil/save.go:29-45 | the export succeeds exactly when every member is created and encoded, and then it holds one member per image |
| ImgutilSave.ZipExportStop | internal/imgutil/save.go:34-42 | a failed export stops at the first image that fails. Everything before it is written, plus that image's member if it was created |
| ImgutilSave.ZipExportSpec | internal/imgutil/save.go:24-46 | the three lemmas above together |
| ImgutilSave.ZipExportStep | internal/imgutil/save.go:34-43 | one loop step that writes one member and goes on |
| ImgutilSave.ZipExportUncreated | internal/imgutil/save.go:34-37 | a member that cannot be created stops the export with nothing more written |
| ImgutilSave.ZipExportUnencoded | internal/imgutil/save.go:39-42 | an encoder failure stops the export after the incomplete member |
| ImgutilSave.SaveImgsAsZip | internal/imgutil/save.go:24-46 | the loop writes exactly the members of the export and reports its outcome |
| ImgutilSave.PrependedNamesSorted | internal/imgutil/save.go:28-33 | with digits prepended, member names sort in the collection's order, whatever the images' names |
| ImgutilSave.PrefixSlashFree | internal/imgutil/save.go:32 | the digit prefix holds no '/' |
| ImgutilSave.MemberReadsBack | internal/imgutil/save.go:30 | a member "stem.jpg" is wanted by the zip reader and read back under the stem |
| ImgutilSave.StemsReadBack | internal/imgutil/save.go:29-43 | an archive written with slash-free stems reads back as one image per member, under those stems |
| ImgutilSave.StemNames | internal/imgutil/save.go:30-33 | every member name is its stem plus ".jpg", and the stem is slash-free when the image names are |
| ImgutilSave.ExportReadsBack | internal/imgutil/save.go:24-46 | a successful export of slash-free names reads back with the zip reader as the same number of images, in order, named by their stems |
| ImgutilSave.StemReadsBack | internal/imgutil/save.go:30 | flattening "stem.jpg" and removing the extension gives the stem back |
| ImgutilSave.EncodeAllSpec | internal/imgutil/save.go:50-59 | encoding succeeds exactly when every image encodes, and gives one buffer per image in order |
| ImgutilSave.SaveImgsAsPDF | internal/imgutil/save.go:49-67 | the loop fills the buffers and imports them, failing on the first encoder failure |
| ImgutilSave.SaveImg | internal/imgutil/save.go:14-21 | the JPEG encoding of the image's bitmap at the quality |
| ImgutilSave.ImageFileIgnoresName | internal/imgutil/save.go:14-21 | the name and codec of the image play no part in the file written |

## Left out

- The GUI is not modelled. That covers the widgets, menus, toolbars, dialogs, the image view, the status bar and the preference storage, in `imgpack/app.go`, `dialog.go`, `enabled.go`, `preference*.go`, `conf.go`, `assets/` and `imgpack_gui/`. A dialog's outcome (confirmed or not, the read's result) is a parameter of the handler.
- `main.go`, `internal/util/errors.go` and `internal/util/image.go` are not part of this model. Errors are a plain `Fail`, with no wrapping or message.
- File systems, readers and writers, the image codecs, `archive/zip`, pdfcpu and `imaging` are function-typed parameters. What is modelled is how the core calls them and what it does with their results, not what they compute. `imaging.Rotate90` is such a parameter, so its direction is not modelled.
- The zip writer's `Create` is a function of the member name alone, and the JPEG encoder is a function of the pixels and the quality alone. In Go both can also fail because of the state of the underlying writer. So in the model two members with the same name always get the same creation outcome, and two images with the same pixels the same encoding outcome. The export lemmas are stated for any such functions.
- `imaging.Crop` is modelled as taking columns of rows from (0, 0), which is what Cut asks of it on a bitmap whose bounds start at the origin.
- `Images.CutHalves`: for an empty rectangle `imaging.Crop` returns a 0x0 image. That is the left half whenever the width is 1, and both halves when it is 0. `Images.LeftHalf` keeps one empty row per row of the bitmap instead, so in these cases its height is not 0 as Go's is.
- `Image.Clone` copies pixels through `draw.Draw` into a new RGBA image. It is modelled as a fresh object with the same pixel values. The colour model conversion is not modelled.
- Map iteration in ReadImgsInPDF is modelled as an arbitrary choice (`:|`). The result is proved the same for every choice.
- The three change callbacks of the guarded table are recorded as a ghost event log (`Imgstable.Event`), in the order the source calls them; what they do is not modelled.
- `Paths.Join` does not apply `filepath.Clean` to its result. It is used only to load an entry of a directory, where what matters is the base name, which Clean keeps.
- The extension lists of `imgpack/imgs.go` are declared outside the files modelled, so they are parameters of that module.
- `ImgutilRead.ReadImgsInPDF`: does not state that the returned images are freshly allocated. It states that they are distinct and equal in value to the document's images.
- `ImgutilRead.ReadPdfPages`: does not state freshness, for the same reason.
- `ImgutilRead.ReadImgsInFile`: does not state freshness, because its PDF branch does not.
- `ImgutilImgs.ReadImgs`: does not state freshness, because its PDF branch does not.
- `ImgutilImgs.ReadImgsInPDF`: does not state freshness, for the same reason.
- Go slices are modelled as Dafny sequences. Capacity, and the sharing of a backing array between a slice and what `append` returns, are not modelled. For the appends these methods use, the resulting contents are the same.
- `Format.PaddingZero`: widths beyond 10^6 in magnitude are excluded by a precondition. Widths are digit counts of a slice length or of the largest PDF image key at every call site, so they are at most 20.
- `Optable.ImgsTable.MoveUp`, `Optable.MovedUp`, `Optable.DeleteLastDangles`: the empty list with selection 0 is modelled as a panic, as for the nil slice Clear leaves. Slice capacity is not modelled. After Delete removes the only image, the empty slice keeps capacity 1, so Go's `imgs[:1]` succeeds there. MoveUp then gives a list holding one nil reference, with selection 0, and does not panic. For that reason DeleteLastDangles states the move-up panic only when at least one image is left.
- The extra `Select` calls that `onTabKey`, `moveUpAction` and `moveDownAction` make on the list widget are modelled as the direct assignment that `onSelectImageURI` performs. `deleteAction` makes no such call: it calls `onSelectImageURI` or `clearSelected` itself, and `App.ImgpackApp.DeleteAction` models those calls directly.

## Findings

| source | as written | input that shows it | evidently intended | confidence | as-written member | corrected member |
|---|---|---|---|---|---|---|
| imgpack/imgstable/imgstable.go:159-164 | at index 0, move-up does `append(imgs[:1], imgs[0:]...)`. This puts a second reference to the first image in front and selects the new last index, without firing callbacks. The same code is at imgpack/optable.go:81-86 | list [a, b] with a selected gives [a, a, b] with index 2 selected. A move-down then gives [b, a, a]. Rotating index 1 of [a, a, b] also rotates index 0 | a rotation that moves the first image to the end and selects it, as moveUpAction in imgpack/app.go:442-445 does, so that move-up and move-down undo each other | not executed | Collection.MoveUpAtTopDuplicates | Collection.MovesUndoEachOther |

The as-written and corrected members work as follows:

- **As written.** `Collection.MoveUp` is the move-up of the table as written, and `Imgstable.ImgsTable.MoveUp` and `Optable.ImgsTable.MoveUp` follow it. Three members exhibit the fault:
  - `Collection.MoveUpAtTopDuplicates`;
  - `Collection.MoveUpThenMoveDownChangesList`;
  - `Imgstable.AliasAfterMoveUp`.
- **Corrected.** `Collection.MoveUpRotating` is the corrected move-up, proved to be undone by move-down by `Collection.MovesUndoEachOther`. The application's handler `App.ImgpackApp.MoveUpAction` uses it.
