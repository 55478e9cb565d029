/** imgpack/imgs.go, the oldest revision of the import and export code:
    its `Img` (fields filename, img and imgType) is the entity Images.Image
    models, newImg and newImgByFilepath are Images.NewImg and
    Images.NewImgByFilepath, and Clone is Images.Image.Clone. It reads
    either an archive or a single image file, keeps the members' names as
    they are, and writes archives at a fixed JPEG quality. The extension
    lists it uses are defined outside the files modelled here, so they are
    parameters. */
module ImgpackImgs {
  import opened Wrappers
  import opened Paths
  import opened Images
  import opened ImgutilRead
  import opened ImgutilSave

  /** The JPEG quality saveImgsAsZip writes at. */
  const Quality: int := 90

  /** What readImgsInZip gives for a path: the archive's image members,
      decoded under their own names. */
  function OldZipImages(filename: string, imageExts: seq<string>, open: OpenFile, unzip: Unzip, decode: Decoder)
      : (r: Result<seq<ImageValue>>)
    ensures r.Ok? ==> open(filename).Ok? && unzip(open(filename).value).Ok?
  {
    match open(filename)
    case Fail => Fail
    case Ok(data) =>
      match unzip(data)
      case Fail => Fail
      case Ok(es) => ZipImages(es, imageExts, false, decode)
  }

  /** readImgsInZip: zip.OpenReader on the path, then the member loop
      without flattening. */
  method ReadImgsInZip(filename: string, imageExts: seq<string>, open: OpenFile, unzip: Unzip, decode: Decoder)
      returns (r: Result<seq<Image>>)
    ensures r.Ok? <==> OldZipImages(filename, imageExts, open, unzip, decode).Ok?
    ensures r.Ok? ==> Values(r.value) == OldZipImages(filename, imageExts, open, unzip, decode).value
    ensures r.Ok? ==> forall i, j :: 0 <= i < j < |r.value| ==> r.value[i] != r.value[j]
    ensures r.Ok? ==> forall i :: 0 <= i < |r.value| ==> fresh(r.value[i])
  {
    var f := open(filename);
    if f.Fail? {
      return Fail;
    }
    var zr := unzip(f.value);
    if zr.Fail? {
      return Fail;
    }
    r := ReadZipEntries(zr.value, imageExts, false, decode);
  }

  /** What readImgs gives for a path: an archive by its extension,
      anything else as one image. */
  function OldPathImages(filename: string, imageExts: seq<string>, archiveExts: seq<string>,
                         open: OpenFile, unzip: Unzip, decode: Decoder): Result<seq<ImageValue>>
  {
    if Ext(filename) in archiveExts then OldZipImages(filename, imageExts, open, unzip, decode)
    else match LoadImage(filename, open, decode)
      case Fail => Fail
      case Ok(v) => Ok([v])
  }

  /** readImgs. */
  method ReadImgs(filename: string, imageExts: seq<string>, archiveExts: seq<string>,
                  open: OpenFile, unzip: Unzip, decode: Decoder) returns (r: Result<seq<Image>>)
    ensures r.Ok? <==> OldPathImages(filename, imageExts, archiveExts, open, unzip, decode).Ok?
    ensures r.Ok? ==> Values(r.value) == OldPathImages(filename, imageExts, archiveExts, open, unzip, decode).value
    ensures r.Ok? ==> forall i, j :: 0 <= i < j < |r.value| ==> r.value[i] != r.value[j]
    ensures r.Ok? ==> forall i :: 0 <= i < |r.value| ==> fresh(r.value[i])
  {
    var fileExt := Ext(filename);
    if fileExt in archiveExts {
      r := ReadImgsInZip(filename, imageExts, open, unzip, decode);
      return;
    }
    var img := NewImgByFilepath(filename, open, decode);
    if img.Fail? {
      return Fail;
    }
    return Ok([img.value]);
  }

  /** There is no document or directory branch: every path that is not an
      archive, a .pdf included, is decoded as one image. */
  lemma OnlyArchivesOrImages(filename: string, imageExts: seq<string>, archiveExts: seq<string>,
                             open: OpenFile, unzip: Unzip, decode: Decoder)
    requires Ext(filename) !in archiveExts
    ensures var r := OldPathImages(filename, imageExts, archiveExts, open, unzip, decode);
      (r.Ok? <==> open(filename).Ok? && decode(open(filename).value).Ok?) &&
      (r.Ok? ==> |r.value| == 1 && r.value[0].filename == StripExt(Base(filename)))
  {
  }

  /** Member names are not flattened here: a member in a sub-directory
      keeps the directory in its name, where the later readers turn every
      '/' into '_'. */
  lemma MemberNameKeepsDirectory(data: seq<byte>, decode: Decoder)
    requires decode(data).Ok?
    ensures var e := ZipEntry("sub/dir/photo.png", false, Ok(data));
      ZipImage(e, false, decode).value.filename == "sub/dir/photo" &&
      ZipImage(e, true, decode).value.filename == "sub_dir_photo"
  {
    ExtOfAppended("sub/dir/photo", ".png");
    assert "sub/dir/photo" + ".png" == "sub/dir/photo.png";
    FlattenExample();
  }

  /** saveImgsAsZip: the archive file created at the path, then the
      members written as the later SaveImgsAsZip writes them, at quality
      90. A failure to create the file writes nothing. */
  method SaveImgsAsZip(imgs: seq<Image>, filepath: string, prependDigit: bool,
                       createFile: string -> bool, create: Create, encode: Encoder)
      returns (ok: bool, written: seq<Member>)
    requires |imgs| < MaxLen
    ensures !createFile(filepath) ==> !ok && written == []
    ensures createFile(filepath) ==> Export(written, ok) == ZipExport(Values(imgs), 0, MemberNames(Values(imgs), prependDigit), Quality, create, encode)
  {
    if !createFile(filepath) {
      return false, [];
    }
    ok, written := ImgutilSave.SaveImgsAsZip(imgs, prependDigit, Quality, create, encode);
  }
}
