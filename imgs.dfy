/** internal/imgutil/imgs.go, an older revision of the import side in which
    the readers take a path and open it themselves: ReadImgs picks the
    reader by extension first and asks the file system whether the path is
    a directory only after that. Its directory reader, NewImg,
    NewImgByFilepath, Clone and the writers are the ones of the later
    files (modules ImgutilRead, Images and ImgutilSave). */
module ImgutilImgs {
  import opened Wrappers
  import opened Paths
  import opened Images
  import opened ImgutilRead

  /** ReadImgsInZip of this revision: zip.OpenReader on the path, that is
      the file read whole and opened as an archive, then the member loop
      of the later revision, names flattened. */
  method ReadImgsInZip(filename: string, fs: Fs, unzip: Unzip, decode: Decoder) returns (r: Result<seq<Image>>)
    ensures r.Ok? <==> ZipFileImages(fs.open(filename), unzip, decode).Ok?
    ensures r.Ok? ==> Values(r.value) == ZipFileImages(fs.open(filename), unzip, decode).value
    ensures r.Ok? ==> forall i, j :: 0 <= i < j < |r.value| ==> r.value[i] != r.value[j]
    ensures r.Ok? ==> forall i :: 0 <= i < |r.value| ==> fresh(r.value[i])
  {
    var f := fs.open(filename);
    r := ImgutilRead.ReadImgsInZip(f, unzip, decode);
  }

  /** ReadImgsInPDF of this revision: os.Open and io.Copy of the path, then
      the page counting, extraction, naming and sorting of the later
      revision. */
  method ReadImgsInPDF(filename: string, fs: Fs, pdf: Pdf, decode: Decoder) returns (r: Result<seq<Image>>)
    ensures r.Ok? <==> PdfFileImages(fs.open(filename), pdf, decode).Ok?
    ensures r.Ok? ==> Values(r.value) == PdfFileImages(fs.open(filename), pdf, decode).value
    ensures r.Ok? ==> forall i, j :: 0 <= i < j < |r.value| ==> r.value[i] != r.value[j]
  {
    var f := fs.open(filename);
    r := ImgutilRead.ReadImgsInPDF(f, pdf, decode);
  }

  /** What ReadImgs gives for a path: an archive or a document by its
      extension, otherwise a directory or a single image as os.Stat says. */
  ghost function PathImages(filename: string, fs: Fs, unzip: Unzip, pdf: Pdf, decode: Decoder): Result<seq<ImageValue>>
  {
    var fileExt := Ext(filename);
    if fileExt in SupportedArchiveExts then ZipFileImages(fs.open(filename), unzip, decode)
    else if fileExt == ".pdf" then PdfFileImages(fs.open(filename), pdf, decode)
    else match fs.stat(filename)
      case Fail => Fail
      case Ok(isDir) =>
        if isDir then DirFileImages(filename, fs, decode)
        else match LoadImage(filename, fs.open, decode)
          case Fail => Fail
          case Ok(v) => Ok([v])
  }

  /** ReadImgs. */
  method ReadImgs(filename: string, fs: Fs, unzip: Unzip, pdf: Pdf, decode: Decoder) returns (r: Result<seq<Image>>)
    ensures r.Ok? <==> PathImages(filename, fs, unzip, pdf, decode).Ok?
    ensures r.Ok? ==> Values(r.value) == PathImages(filename, fs, unzip, pdf, decode).value
    ensures r.Ok? ==> forall i, j :: 0 <= i < j < |r.value| ==> r.value[i] != r.value[j]
  {
    var fileExt := Ext(filename);
    if fileExt in SupportedArchiveExts {
      r := ReadImgsInZip(filename, fs, unzip, decode);
      return;
    }
    if fileExt == ".pdf" {
      r := ReadImgsInPDF(filename, fs, pdf, decode);
      return;
    }
    var fileStat := fs.stat(filename);
    if fileStat.Fail? {
      return Fail;
    }
    if fileStat.value {
      r := ReadImgsInDir(filename, fs, decode);
      return;
    }
    var img := NewImgByFilepath(filename, fs.open, decode);
    if img.Fail? {
      return Fail;
    }
    return Ok([img.value]);
  }

  /** The extension is looked at before the file system: a path ending in
      an archive or document extension is never listed as a directory, so
      what os.Stat says about it makes no difference. */
  lemma ExtensionBeforeStat(filename: string, fs: Fs, fs': Fs, unzip: Unzip, pdf: Pdf, decode: Decoder)
    requires Ext(filename) in SupportedArchiveExts || Ext(filename) in SupportedPDFExts
    requires fs.open == fs'.open
    ensures PathImages(filename, fs, unzip, pdf, decode) == PathImages(filename, fs', unzip, pdf, decode)
  {
  }

  /** A path of any other extension that is not a directory is read as one
      image, named after the last element of the path without its
      extension. */
  lemma SingleFilePath(filename: string, fs: Fs, unzip: Unzip, pdf: Pdf, decode: Decoder)
    requires Ext(filename) !in SupportedArchiveExts && Ext(filename) !in SupportedPDFExts
    requires fs.stat(filename) == Ok(false)
    ensures var r := PathImages(filename, fs, unzip, pdf, decode);
      (r.Ok? <==> fs.open(filename).Ok? && decode(fs.open(filename).value).Ok?) &&
      (r.Ok? ==> |r.value| == 1 && r.value[0].filename == StripExt(Base(filename)))
  {
  }

  /** A directory is read by the directory reader, whatever its entries'
      extensions. */
  lemma DirectoryPath(filename: string, fs: Fs, unzip: Unzip, pdf: Pdf, decode: Decoder)
    requires Ext(filename) !in SupportedArchiveExts && Ext(filename) !in SupportedPDFExts
    requires fs.stat(filename) == Ok(true)
    ensures PathImages(filename, fs, unzip, pdf, decode) == DirFileImages(filename, fs, decode)
  {
  }
}
