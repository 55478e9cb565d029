/** internal/imgutil/read.go: reading images from a single image file, a zip
    archive, a directory or a PDF document. Reading a file, listing a
    directory, unzipping, the PDF library and the image codecs are
    parameters; what the readers do with them is modelled. */
module ImgutilRead {
  import opened Wrappers
  import opened Digits
  import opened Lex
  import opened Format
  import opened Paths
  import opened Images
  import opened PdfNames

  /** internal/imgutil/decode.go. */
  const SupportedImageExts: seq<string> := [".png", ".jpg", ".jpeg", ".webp", ".bmp", ".tiff", ".gif"]

  /** internal/imgutil/imgs.go. */
  const SupportedArchiveExts: seq<string> := [".zip", ".cbz"]
  const SupportedPDFExts: seq<string> := [".pdf"]

  /** vs put in front of the images r holds; a failure stays a failure. */
  function Then(vs: seq<ImageValue>, r: Result<seq<ImageValue>>): (t: Result<seq<ImageValue>>)
    ensures t.Ok? <==> r.Ok?
    ensures t.Ok? ==> t.value == vs + r.value
  {
    if r.Fail? then Fail else Ok(vs + r.value)
  }

  lemma ThenNothing(r: Result<seq<ImageValue>>)
    ensures Then([], r) == r
  {
    if r.Ok? {
      assert [] + r.value == r.value;
    }
  }

  /** The loop shared by the readers: the entries es visited in order, those
      that `keep` rejects skipped, each other one loaded, the first failure
      ending the whole read. */
  function Collect<E>(es: seq<E>, keep: E -> bool, load: E -> Result<ImageValue>): Result<seq<ImageValue>>
  {
    if es == [] then Ok([])
    else
      var rest := Collect(es[1..], keep, load);
      if !keep(es[0]) then rest
      else if load(es[0]).Fail? then Fail
      else Then([load(es[0]).value], rest)
  }

  /** The entries the loop loads, in order. */
  function Kept<E>(es: seq<E>, keep: E -> bool): (ks: seq<E>)
    ensures forall i :: 0 <= i < |ks| ==> ks[i] in es && keep(ks[i])
  {
    if es == [] then []
    else (if keep(es[0]) then [es[0]] else []) + Kept(es[1..], keep)
  }

  /** The kept entries of a non-empty sequence: its first entry when kept,
      then the kept entries of the rest. */
  lemma KeptCons<E>(es: seq<E>, keep: E -> bool)
    requires es != []
    ensures keep(es[0]) ==> Kept(es, keep) == [es[0]] + Kept(es[1..], keep)
    ensures !keep(es[0]) ==> Kept(es, keep) == Kept(es[1..], keep)
  {
  }

  /** The read succeeds exactly when every kept entry loads. */
  lemma {:induction false} CollectOk<E>(es: seq<E>, keep: E -> bool, load: E -> Result<ImageValue>)
    ensures var ks := Kept(es, keep);
      Collect(es, keep, load).Ok? <==> forall i :: 0 <= i < |ks| ==> load(ks[i]).Ok?
  {
    if es != [] {
      CollectOk(es[1..], keep, load);
      KeptCons(es, keep);
      var ks, tail := Kept(es, keep), Kept(es[1..], keep);
      if keep(es[0]) {
        assert ks[0] == es[0];
        assert forall i :: 0 < i < |ks| ==> ks[i] == tail[i - 1];
        assert forall i :: 0 <= i < |tail| ==> ks[i + 1] == tail[i];
      }
    }
  }

  /** A read that succeeds gives one image per kept entry, in the entries'
      order. */
  lemma {:induction false} CollectValues<E>(es: seq<E>, keep: E -> bool, load: E -> Result<ImageValue>)
    requires Collect(es, keep, load).Ok?
    ensures var ks, vs := Kept(es, keep), Collect(es, keep, load).value;
      |vs| == |ks| && forall i :: 0 <= i < |ks| ==> load(ks[i]).Ok? && vs[i] == load(ks[i]).value
  {
    if es != [] {
      CollectValues(es[1..], keep, load);
      KeptCons(es, keep);
      var ks, tail := Kept(es, keep), Kept(es[1..], keep);
      if keep(es[0]) {
        var vs, rest := Collect(es, keep, load).value, Collect(es[1..], keep, load).value;
        assert vs == [load(es[0]).value] + rest;
        assert ks[0] == es[0];
        assert forall i :: 0 < i < |ks| ==> ks[i] == tail[i - 1] && vs[i] == rest[i - 1];
      }
    }
  }

  /** The read succeeds exactly when every kept entry loads, and then gives
      one image per kept entry, in the entries' order. */
  lemma CollectSpec<E>(es: seq<E>, keep: E -> bool, load: E -> Result<ImageValue>)
    ensures var ks := Kept(es, keep);
      Collect(es, keep, load).Ok? <==> forall i :: 0 <= i < |ks| ==> load(ks[i]).Ok?
    ensures var ks := Kept(es, keep);
      Collect(es, keep, load).Ok? ==>
        |Collect(es, keep, load).value| == |ks| &&
        forall i :: 0 <= i < |ks| ==> Collect(es, keep, load).value[i] == load(ks[i]).value
  {
    CollectOk(es, keep, load);
    if Collect(es, keep, load).Ok? {
      CollectValues(es, keep, load);
    }
  }

  /** The loop invariant of the readers: what has been loaded so far, then
      what the remaining entries give. */
  lemma CollectStep<E>(es: seq<E>, k: nat, keep: E -> bool, load: E -> Result<ImageValue>)
    requires k < |es|
    ensures es[k..][1..] == es[k + 1..]
    ensures !keep(es[k]) ==> Collect(es[k..], keep, load) == Collect(es[k + 1..], keep, load)
    ensures keep(es[k]) && load(es[k]).Fail? ==> Collect(es[k..], keep, load) == Fail
    ensures keep(es[k]) && load(es[k]).Ok? ==>
      forall vs :: Then(vs, Collect(es[k..], keep, load)) == Then(vs + [load(es[k]).value], Collect(es[k + 1..], keep, load))
  {
    assert es[k..][0] == es[k];
    assert es[k..][1..] == es[k + 1..];
    if keep(es[k]) && load(es[k]).Ok? {
      var rest := Collect(es[k + 1..], keep, load);
      forall vs ensures Then(vs, Collect(es[k..], keep, load)) == Then(vs + [load(es[k]).value], rest) {
        if rest.Ok? {
          assert vs + ([load(es[k]).value] + rest.value) == vs + [load(es[k]).value] + rest.value;
        }
      }
    }
  }

  /** One member of a zip archive: its name, whether it is a directory, and
      what opening and reading it gives. */
  datatype ZipEntry = ZipEntry(name: string, isDir: bool, content: Result<seq<byte>>)

  /** zip.NewReader over a whole input: the members in the order of the
      central directory, or an error for an input that is not an archive. */
  type Unzip = seq<byte> -> Result<seq<ZipEntry>>

  /** The readers load a member that is not a directory and whose name has
      one of the image extensions, compared case-sensitively. */
  predicate Wanted(e: ZipEntry, exts: seq<string>)
  {
    !e.isDir && Ext(e.name) in exts
  }

  /** The name handed to NewImg: the member's name with '/' replaced by '_'
      when the reader flattens names, the member's name otherwise. */
  function Hint(name: string, flatten: bool): string
  {
    if flatten then Flatten(name) else name
  }

  /** Opening, reading and decoding one member. */
  function ZipImage(e: ZipEntry, flatten: bool, decode: Decoder): (r: Result<ImageValue>)
    ensures r.Ok? <==> e.content.Ok? && decode(e.content.value).Ok?
    ensures r.Ok? ==> r == DecodeImage(e.content.value, Hint(e.name, flatten), decode)
  {
    match e.content
    case Fail => Fail
    case Ok(data) => DecodeImage(data, Hint(e.name, flatten), decode)
  }

  function WantedIn(exts: seq<string>): ZipEntry -> bool
  {
    e => Wanted(e, exts)
  }

  function ZipLoader(flatten: bool, decode: Decoder): ZipEntry -> Result<ImageValue>
  {
    e => ZipImage(e, flatten, decode)
  }

  /** What the member loop of ReadImgsInZip gives on the members es. */
  function ZipImages(es: seq<ZipEntry>, exts: seq<string>, flatten: bool, decode: Decoder): Result<seq<ImageValue>>
  {
    Collect(es, WantedIn(exts), ZipLoader(flatten, decode))
  }

  /** The members the loop decodes. */
  function WantedEntries(es: seq<ZipEntry>, exts: seq<string>): seq<ZipEntry>
  {
    Kept(es, WantedIn(exts))
  }

  /** Reading an archive's members succeeds exactly when every member that
      is not a directory and has an image extension opens and decodes; it
      then gives one image per such member, in the archive's order, each
      decoded from that member's bytes. */
  lemma ZipImagesSpec(es: seq<ZipEntry>, exts: seq<string>, flatten: bool, decode: Decoder)
    ensures var ws := WantedEntries(es, exts);
      ZipImages(es, exts, flatten, decode).Ok? <==>
        forall i :: 0 <= i < |ws| ==> ws[i].content.Ok? && decode(ws[i].content.value).Ok?
    ensures var ws, r := WantedEntries(es, exts), ZipImages(es, exts, flatten, decode);
      r.Ok? ==> (|r.value| == |ws| &&
        forall i :: 0 <= i < |ws| ==>
          Ok(r.value[i]) == DecodeImage(ws[i].content.value, Hint(ws[i].name, flatten), decode))
  {
    var ws := WantedEntries(es, exts);
    CollectSpec(es, WantedIn(exts), ZipLoader(flatten, decode));
    forall i | 0 <= i < |ws|
      ensures ZipLoader(flatten, decode)(ws[i]) == ZipImage(ws[i], flatten, decode)
      ensures ZipLoader(flatten, decode)(ws[i]).Ok? <==> ws[i].content.Ok? && decode(ws[i].content.value).Ok?
    {
    }
  }

  /** The name of an image read from a member: the member's name without its
      extension; when names are flattened, with its '/' turned into '_', so
      that no directory is left in it. */
  lemma ZipImageName(e: ZipEntry, exts: seq<string>, flatten: bool, decode: Decoder)
    requires forall x :: x in exts ==> x != ""
    requires Wanted(e, exts) && ZipImage(e, flatten, decode).Ok?
    ensures var f := ZipImage(e, flatten, decode).value.filename;
      (flatten ==> f == Flatten(StripExt(e.name)) && forall i :: 0 <= i < |f| ==> f[i] != '/') &&
      (!flatten ==> f == StripExt(e.name))
  {
    if flatten {
      StripFlattened(e.name);
    }
  }

  /** One step of the member loop of ReadImgsInZip. */
  lemma ZipSkip(es: seq<ZipEntry>, k: nat, exts: seq<string>, flatten: bool, decode: Decoder, done: seq<ImageValue>)
    requires k < |es| && !Wanted(es[k], exts)
    ensures Then(done, Collect(es[k..], WantedIn(exts), ZipLoader(flatten, decode))) ==
            Then(done, Collect(es[k + 1..], WantedIn(exts), ZipLoader(flatten, decode)))
  {
    CollectStep(es, k, WantedIn(exts), ZipLoader(flatten, decode));
  }

  lemma ZipFail(es: seq<ZipEntry>, k: nat, exts: seq<string>, flatten: bool, decode: Decoder, done: seq<ImageValue>)
    requires k < |es| && Wanted(es[k], exts) && ZipLoader(flatten, decode)(es[k]).Fail?
    ensures Then(done, Collect(es[k..], WantedIn(exts), ZipLoader(flatten, decode))) == Fail
  {
    CollectStep(es, k, WantedIn(exts), ZipLoader(flatten, decode));
  }

  lemma ZipLoad(es: seq<ZipEntry>, k: nat, exts: seq<string>, flatten: bool, decode: Decoder,
                done: seq<ImageValue>, v: ImageValue)
    requires k < |es| && Wanted(es[k], exts) && ZipLoader(flatten, decode)(es[k]) == Ok(v)
    ensures Then(done, Collect(es[k..], WantedIn(exts), ZipLoader(flatten, decode))) ==
            Then(done + [v], Collect(es[k + 1..], WantedIn(exts), ZipLoader(flatten, decode)))
  {
    CollectStep(es, k, WantedIn(exts), ZipLoader(flatten, decode));
  }

  /** The body of the member loop: a directory or a member of another
      extension is skipped (None); any other member is opened and NewImg
      run on its bytes under its (flattened) name. */
  method VisitMember(f: ZipEntry, exts: seq<string>, flatten: bool, decode: Decoder) returns (r: Result<Option<Image>>)
    ensures !Wanted(f, exts) ==> r == Ok(None)
    ensures Wanted(f, exts) ==> (r.Ok? <==> ZipLoader(flatten, decode)(f).Ok?)
    ensures Wanted(f, exts) && r.Ok? ==>
      r.value.Some? && fresh(r.value.value) && Value(r.value.value) == ZipLoader(flatten, decode)(f).value
  {
    if f.isDir {
      return Ok(None);
    }
    if Ext(f.name) !in exts {
      return Ok(None);
    }
    assert ZipLoader(flatten, decode)(f) == ZipImage(f, flatten, decode);
    if f.content.Fail? {
      return Fail;
    }
    var filename := if flatten then Flatten(f.name) else f.name;
    var img := NewImg(f.content.value, filename, decode);
    if img.Fail? {
      return Fail;
    }
    return Ok(Some(img.value));
  }

  /** The member loop of ReadImgsInZip. */
  method ReadZipEntries(es: seq<ZipEntry>, exts: seq<string>, flatten: bool, decode: Decoder)
      returns (r: Result<seq<Image>>)
    ensures r.Ok? <==> ZipImages(es, exts, flatten, decode).Ok?
    ensures r.Ok? ==> Values(r.value) == ZipImages(es, exts, flatten, decode).value
    ensures r.Ok? ==> forall i :: 0 <= i < |r.value| ==> fresh(r.value[i])
    ensures r.Ok? ==> forall i, j :: 0 <= i < j < |r.value| ==> r.value[i] != r.value[j]
  {
    var imgs: seq<Image> := [];
    ghost var vals: seq<ImageValue> := [];
    ghost var load := ZipLoader(flatten, decode);
    ghost var total := ZipImages(es, exts, flatten, decode);
    assert es[0..] == es;
    ThenNothing(total);
    for k := 0 to |es|
      invariant total == Then(vals, Collect(es[k..], WantedIn(exts), load))
      invariant |vals| == |imgs| && forall i :: 0 <= i < |imgs| ==> Value(imgs[i]) == vals[i]
      invariant forall i :: 0 <= i < |imgs| ==> fresh(imgs[i])
      invariant Unaliased(imgs)
    {
      var img := VisitMember(es[k], exts, flatten, decode);
      match img
      case Fail =>
        ZipFail(es, k, exts, flatten, decode, vals);
        return Fail;
      case Ok(None) =>
        ZipSkip(es, k, exts, flatten, decode, vals);
      case Ok(Some(x)) =>
        ZipLoad(es, k, exts, flatten, decode, vals, Value(x));
        UnaliasedAppend(imgs, x);
        imgs := imgs + [x];
        vals := vals + [Value(x)];
    }
    assert es[|es|..] == [];
    assert Values(imgs) == vals;
    return Ok(imgs);
  }

  /** ReadImgsInZip: the whole input read, opened as an archive, and its
      image members decoded with their names flattened. */
  method ReadImgsInZip(f: Result<seq<byte>>, unzip: Unzip, decode: Decoder) returns (r: Result<seq<Image>>)
    ensures r.Ok? <==> ZipFileImages(f, unzip, decode).Ok?
    ensures r.Ok? ==> Values(r.value) == ZipFileImages(f, unzip, decode).value
    ensures r.Ok? ==> forall i :: 0 <= i < |r.value| ==> fresh(r.value[i])
    ensures r.Ok? ==> forall i, j :: 0 <= i < j < |r.value| ==> r.value[i] != r.value[j]
  {
    if f.Fail? {
      return Fail;
    }
    var zr := unzip(f.value);
    if zr.Fail? {
      return Fail;
    }
    r := ReadZipEntries(zr.value, SupportedImageExts, true, decode);
  }

  /** What ReadImgsInZip gives on an input. */
  function ZipFileImages(f: Result<seq<byte>>, unzip: Unzip, decode: Decoder): (r: Result<seq<ImageValue>>)
    ensures r.Ok? ==> f.Ok? && unzip(f.value).Ok?
  {
    if f.Fail? || unzip(f.value).Fail? then Fail
    else ZipImages(unzip(f.value).value, SupportedImageExts, true, decode)
  }

  /** One entry of a directory listing. */
  datatype DirEntry = DirEntry(name: string, isDir: bool)

  /** The file system as the readers use it: os.ReadDir, reading a whole
      file by its path, and os.Stat's answer to whether a path is a
      directory. */
  datatype Fs = Fs(readDir: string -> Result<seq<DirEntry>>, open: OpenFile, stat: string -> Result<bool>)

  predicate IsFile(e: DirEntry)
  {
    !e.isDir
  }

  function FileFilter(): DirEntry -> bool
  {
    e => IsFile(e)
  }

  function FileLoader(dir: string, open: OpenFile, decode: Decoder): DirEntry -> Result<ImageValue>
  {
    (e: DirEntry) => LoadImage(Join(dir, e.name), open, decode)
  }

  lemma FileLoaderApplies(dir: string, open: OpenFile, decode: Decoder, e: DirEntry)
    ensures FileLoader(dir, open, decode)(e) == LoadImage(Join(dir, e.name), open, decode)
  {
  }

  /** What the entry loop of ReadImgsInDir gives on a listing of dir. */
  function DirImages(dir: string, es: seq<DirEntry>, open: OpenFile, decode: Decoder): Result<seq<ImageValue>>
  {
    Collect(es, FileFilter(), FileLoader(dir, open, decode))
  }

  /** The entries the loop loads: every one that is not a directory,
      whatever its extension. */
  function Files(es: seq<DirEntry>): seq<DirEntry>
  {
    Kept(es, FileFilter())
  }

  /** Reading a directory succeeds exactly when every entry that is not a
      directory loads as an image (there is no extension filter here); it
      then gives one image per such entry, in the listing's order. When the
      listing holds plain names, as os.ReadDir's does, each image is named
      after its file without the extension. */
  lemma DirImagesSpec(dir: string, es: seq<DirEntry>, open: OpenFile, decode: Decoder)
    ensures var fs := Files(es);
      DirImages(dir, es, open, decode).Ok? <==>
        forall i :: 0 <= i < |fs| ==> LoadImage(Join(dir, fs[i].name), open, decode).Ok?
    ensures var fs, r := Files(es), DirImages(dir, es, open, decode);
      r.Ok? ==> (|r.value| == |fs| &&
        forall i :: 0 <= i < |fs| ==> Ok(r.value[i]) == LoadImage(Join(dir, fs[i].name), open, decode))
    ensures var fs, r := Files(es), DirImages(dir, es, open, decode);
      r.Ok? && (forall e :: e in es ==> e.name != "" && forall i :: 0 <= i < |e.name| ==> e.name[i] != '/') ==>
        forall i :: 0 <= i < |fs| ==> r.value[i].filename == StripExt(fs[i].name)
  {
    CollectSpec(es, FileFilter(), FileLoader(dir, open, decode));
    var fs, r := Files(es), DirImages(dir, es, open, decode);
    if r.Ok? && (forall e :: e in es ==> e.name != "" && forall i :: 0 <= i < |e.name| ==> e.name[i] != '/') {
      forall i | 0 <= i < |fs| ensures r.value[i].filename == StripExt(fs[i].name) {
        assert fs[i] in es;
        LoadedJoinedName(dir, fs[i].name, open, decode);
      }
    }
  }

  /** The steps of the entry loop of ReadImgsInDir: a directory is
      skipped, a file that does not load fails the read, and a file that
      loads is appended. */
  lemma DirSkip(dirpath: string, es: seq<DirEntry>, k: nat, open: OpenFile, decode: Decoder, done: seq<ImageValue>)
    requires k < |es| && !IsFile(es[k])
    ensures Then(done, Collect(es[k..], FileFilter(), FileLoader(dirpath, open, decode))) ==
            Then(done, Collect(es[k + 1..], FileFilter(), FileLoader(dirpath, open, decode)))
  {
    CollectStep(es, k, FileFilter(), FileLoader(dirpath, open, decode));
  }

  lemma DirFail(dirpath: string, es: seq<DirEntry>, k: nat, open: OpenFile, decode: Decoder, done: seq<ImageValue>)
    requires k < |es| && IsFile(es[k]) && FileLoader(dirpath, open, decode)(es[k]).Fail?
    ensures Then(done, Collect(es[k..], FileFilter(), FileLoader(dirpath, open, decode))) == Fail
  {
    CollectStep(es, k, FileFilter(), FileLoader(dirpath, open, decode));
  }

  lemma DirLoad(dirpath: string, es: seq<DirEntry>, k: nat, open: OpenFile, decode: Decoder,
                done: seq<ImageValue>, v: ImageValue)
    requires k < |es| && IsFile(es[k]) && FileLoader(dirpath, open, decode)(es[k]) == Ok(v)
    ensures Then(done, Collect(es[k..], FileFilter(), FileLoader(dirpath, open, decode))) ==
            Then(done + [v], Collect(es[k + 1..], FileFilter(), FileLoader(dirpath, open, decode)))
  {
    CollectStep(es, k, FileFilter(), FileLoader(dirpath, open, decode));
  }

  /** The body of the entry loop: a directory is skipped (None); any other
      entry is loaded by NewImgByFilepath on the path joined from the
      directory and the entry's name. */
  method VisitEntry(dirpath: string, entry: DirEntry, open: OpenFile, decode: Decoder) returns (r: Result<Option<Image>>)
    ensures !IsFile(entry) ==> r == Ok(None)
    ensures IsFile(entry) ==> (r.Ok? <==> FileLoader(dirpath, open, decode)(entry).Ok?)
    ensures IsFile(entry) && r.Ok? ==>
      r.value.Some? && fresh(r.value.value) && Value(r.value.value) == FileLoader(dirpath, open, decode)(entry).value
  {
    if entry.isDir {
      return Ok(None);
    }
    FileLoaderApplies(dirpath, open, decode, entry);
    var img := NewImgByFilepath(Join(dirpath, entry.name), open, decode);
    if img.Fail? {
      return Fail;
    }
    return Ok(Some(img.value));
  }

  /** The entry loop of ReadImgsInDir. */
  method ReadDirEntries(dirpath: string, es: seq<DirEntry>, open: OpenFile, decode: Decoder)
      returns (r: Result<seq<Image>>)
    ensures r.Ok? <==> DirImages(dirpath, es, open, decode).Ok?
    ensures r.Ok? ==> Values(r.value) == DirImages(dirpath, es, open, decode).value
    ensures r.Ok? ==> forall i :: 0 <= i < |r.value| ==> fresh(r.value[i])
    ensures r.Ok? ==> forall i, j :: 0 <= i < j < |r.value| ==> r.value[i] != r.value[j]
  {
    var imgs: seq<Image> := [];
    ghost var vals: seq<ImageValue> := [];
    ghost var keep, load := FileFilter(), FileLoader(dirpath, open, decode);
    ghost var total := DirImages(dirpath, es, open, decode);
    assert es[0..] == es;
    ThenNothing(total);
    for k := 0 to |es|
      invariant total == Then(vals, Collect(es[k..], FileFilter(), load))
      invariant |vals| == |imgs| && forall i :: 0 <= i < |imgs| ==> Value(imgs[i]) == vals[i]
      invariant forall i :: 0 <= i < |imgs| ==> fresh(imgs[i])
      invariant Unaliased(imgs)
    {
      var img := VisitEntry(dirpath, es[k], open, decode);
      match img
      case Fail =>
        DirFail(dirpath, es, k, open, decode, vals);
        return Fail;
      case Ok(None) =>
        DirSkip(dirpath, es, k, open, decode, vals);
      case Ok(Some(x)) =>
        DirLoad(dirpath, es, k, open, decode, vals, Value(x));
        UnaliasedAppend(imgs, x);
        imgs := imgs + [x];
        vals := vals + [Value(x)];
    }
    assert es[|es|..] == [];
    assert Values(imgs) == vals;
    return Ok(imgs);
  }

  /** ReadImgsInDir, not recursive. */
  method ReadImgsInDir(dirpath: string, fs: Fs, decode: Decoder) returns (r: Result<seq<Image>>)
    ensures r.Ok? <==> DirFileImages(dirpath, fs, decode).Ok?
    ensures r.Ok? ==> Values(r.value) == DirFileImages(dirpath, fs, decode).value
    ensures r.Ok? ==> forall i :: 0 <= i < |r.value| ==> fresh(r.value[i])
    ensures r.Ok? ==> forall i, j :: 0 <= i < j < |r.value| ==> r.value[i] != r.value[j]
  {
    var dir := fs.readDir(dirpath);
    if dir.Fail? {
      return Fail;
    }
    r := ReadDirEntries(dirpath, dir.value, fs.open, decode);
  }

  /** What ReadImgsInDir gives on a directory path. */
  function DirFileImages(dirpath: string, fs: Fs, decode: Decoder): (r: Result<seq<ImageValue>>)
    ensures r.Ok? ==> fs.readDir(dirpath).Ok?
  {
    match fs.readDir(dirpath)
    case Fail => Fail
    case Ok(es) => DirImages(dirpath, es, fs.open, decode)
  }

  /** What the PDF library offers the reader (pdfcpu in relaxed validation
      mode): api.PageCount, and api.ExtractImagesRaw for a list of page
      selections, giving one map per page it returns, from an image's
      object number to the image's bytes. */
  datatype Pdf = Pdf(pageCount: seq<byte> -> Result<nat>,
                     extractImages: (seq<byte>, seq<string>) -> Result<seq<map<int64, seq<byte>>>>)

  /** The page selections "1" to "n". */
  function Pages(n: nat): (ps: seq<string>)
    ensures |ps| == n
  {
    seq(n, i requires 0 <= i < n => Decimal(i + 1))
  }

  /** The allPagesStr loop: the selection of page i+1 at position i. */
  method PageNumbers(n: nat) returns (pages: seq<string>)
    ensures |pages| == n
    ensures forall i :: 0 <= i < n ==> pages[i] == Signed(i + 1)
    ensures pages == Pages(n)
  {
    var a := new string[n];
    for i := 0 to n
      invariant forall j :: 0 <= j < i ==> a[j] == Decimal(j + 1)
    {
      a[i] := Signed(i + 1);
    }
    pages := a[..];
  }

  /** The page maps the library extracts from a document: every page
      counted, then all of them requested. */
  function Extraction(data: seq<byte>, pdf: Pdf): Result<seq<map<int64, seq<byte>>>>
  {
    match pdf.pageCount(data)
    case Fail => Fail
    case Ok(n) => pdf.extractImages(data, Pages(n))
  }

  /** imgsMap's content as bytes: every extracted image under its name,
      the key width taken from the largest key. */
  ghost function PdfEntries(ms: seq<map<int64, seq<byte>>>): map<string, seq<byte>>
  {
    Sources(ms, KeyWidth(ms), |ms|)
  }

  ghost predicate AllDecode(e: map<string, seq<byte>>, decode: Decoder)
  {
    forall k :: k in e ==> decode(e[k]).Ok?
  }

  /** What ReadImgsInPDF gives for the extracted page maps: a failure when
      any image does not decode, and otherwise every image, named by
      PdfName, in the order of the sorted names. */
  ghost function PdfPageImages(ms: seq<map<int64, seq<byte>>>, decode: Decoder): Result<seq<ImageValue>>
  {
    var e := PdfEntries(ms);
    if !AllDecode(e, decode) then Fail
    else
      var ks := SortedElements(e.Keys);
      Ok(seq(|ks|, i requires 0 <= i < |ks| => DecodeImage(e[ks[i]], ks[i], decode).value))
  }

  /** What ReadImgsInPDF gives on an input: a failure when it cannot be
      read, when the library fails, or when an image does not decode. */
  ghost function PdfFileImages(f: Result<seq<byte>>, pdf: Pdf, decode: Decoder): Result<seq<ImageValue>>
  {
    if f.Fail? then Fail
    else match Extraction(f.value, pdf)
      case Fail => Fail
      case Ok(ms) => PdfPageImages(ms, decode)
  }

  /** The jdxMax loop: 0 or the largest key of all pages, visiting each
      page's keys in no particular order. */
  method MaxKey<V>(ms: seq<map<int64, V>>) returns (jdxMax: int)
    ensures jdxMax == JdxMax(ms)
  {
    jdxMax := 0;
    for i := 0 to |ms|
      invariant jdxMax >= 0
      invariant forall i', k :: 0 <= i' < i && k in ms[i'] ==> k as int <= jdxMax
      invariant jdxMax == 0 || exists i', k :: 0 <= i' < i && k in ms[i'] && k as int == jdxMax
    {
      var keys := ms[i].Keys;
      while keys != {}
        invariant keys <= ms[i].Keys
        invariant jdxMax >= 0
        invariant forall i', k :: 0 <= i' < i && k in ms[i'] ==> k as int <= jdxMax
        invariant forall k :: k in ms[i] && k !in keys ==> k as int <= jdxMax
        invariant jdxMax == 0 || exists i', k :: 0 <= i' <= i && k in ms[i'] && k as int == jdxMax
        decreases keys
      {
        var jdx :| jdx in keys;
        jdxMax := if jdxMax >= jdx as int then jdxMax else jdx as int;
        keys := keys - {jdx};
      }
    }
    JdxMaxUnique(ms, jdxMax);
  }

  /** The names one page's images get. */
  lemma PageSourcesKeys<V>(m: map<int64, V>, width: int, idx: nat)
    requires 0 <= width <= MaxFmtWidth
    ensures PageSources(m, width, idx).Keys == KeyNames(m.Keys, PageNamer(width, idx))
  {
    forall name | name in PageSources(m, width, idx) ensures exists j :: j in m && name == PdfName(j, width, idx) {
      PageSourcesNamed(m, width, idx, name);
    }
    forall j | j in m ensures PdfName(j, width, idx) in PageSources(m, width, idx) {
      PageSourcesHave(m, width, idx, j);
    }
  }

  /** Everything the map loop has stored so far is the decoded image of
      the bytes stored under that name in the complete map e. */
  ghost predicate StoredDecoded(imgsMap: map<string, Image>, e: map<string, seq<byte>>, decode: Decoder)
    reads set k | k in imgsMap :: imgsMap[k]
  {
    forall k :: k in imgsMap ==>
      k in e && DecodeImage(e[k], k, decode).Ok? && Value(imgsMap[k]) == DecodeImage(e[k], k, decode).value
  }

  /** No two names share an image object. */
  ghost predicate Unshared(imgsMap: map<string, Image>)
  {
    forall k1, k2 :: k1 in imgsMap && k2 in imgsMap && k1 != k2 ==> imgsMap[k1] != imgsMap[k2]
  }

  /** Storing a new image decoded from the bytes under its name keeps both. */
  lemma StoreOne(m: map<string, Image>, e: map<string, seq<byte>>, decode: Decoder, k: string, img: Image)
    requires StoredDecoded(m, e, decode) && Unshared(m)
    requires k in e && DecodeImage(e[k], k, decode).Ok? && Value(img) == DecodeImage(e[k], k, decode).value
    requires forall k' :: k' in m ==> m[k'] != img
    ensures StoredDecoded(m[k := img], e, decode) && Unshared(m[k := img])
  {
  }

  /** One step of the inner loop: `imgsMap[filename] = img` for the image
      decoded from data, which is what e holds under that name. */
  method StoreImage(m: map<string, Image>, ghost e: map<string, seq<byte>>, decode: Decoder, filename: string, data: seq<byte>)
      returns (r: Result<map<string, Image>>)
    requires filename in e && e[filename] == data
    requires StoredDecoded(m, e, decode) && Unshared(m)
    ensures r.Fail? ==> decode(data).Fail?
    ensures r.Ok? ==> r.value.Keys == m.Keys + {filename}
    ensures r.Ok? ==> StoredDecoded(r.value, e, decode) && Unshared(r.value)
  {
    var img := NewImg(data, filename, decode);
    if img.Fail? {
      return Fail;
    }
    StoreOne(m, e, decode, filename, img.value);
    return Ok(m[filename := img.value]);
  }

  /** How the page at idx names the image under key j. */
  function PageNamer(width: int, idx: nat): int64 -> string
    requires 0 <= width <= MaxFmtWidth
  {
    j => PdfName(j, width, idx)
  }

  /** The names of a page's images with the given keys. */
  function KeyNames(done: set<int64>, name: int64 -> string): set<string>
  {
    set j | j in done :: name(j)
  }

  /** Taking key jdx out of the keys still to visit adds its name to the
      names stored so far. */
  lemma KeyNamesStep(stored: set<string>, before: set<string>, after: set<string>,
                     all: set<int64>, keys: set<int64>, jdx: int64, name: int64 -> string)
    requires jdx in keys && keys <= all
    requires before == stored + KeyNames(all - keys, name)
    requires after == before + {name(jdx)}
    ensures after == stored + KeyNames(all - (keys - {jdx}), name)
  {
    assert all - (keys - {jdx}) == (all - keys) + {jdx};
  }

  /** The inner loop of the imgsMap loop, over the keys of one page's map
      in no particular order: each image is decoded and stored under the
      name name(jdx); e is where every image of the page is found under its
      name. On a failure, bad is a key whose image does not decode. */
  method StorePage(page: map<int64, seq<byte>>, name: int64 -> string, imgsMap: map<string, Image>,
                   ghost e: map<string, seq<byte>>, decode: Decoder)
      returns (r: Result<map<string, Image>>, ghost bad: int64)
    requires forall j :: j in page ==> name(j) in e && e[name(j)] == page[j]
    requires StoredDecoded(imgsMap, e, decode) && Unshared(imgsMap)
    ensures r.Fail? ==> bad in page && decode(page[bad]).Fail?
    ensures r.Ok? ==> r.value.Keys == imgsMap.Keys + KeyNames(page.Keys, name)
    ensures r.Ok? ==> StoredDecoded(r.value, e, decode) && Unshared(r.value)
  {
    var m := imgsMap;
    var keys := page.Keys;
    assert KeyNames(page.Keys - keys, name) == {};
    while keys != {}
      invariant keys <= page.Keys
      invariant m.Keys == imgsMap.Keys + KeyNames(page.Keys - keys, name)
      invariant StoredDecoded(m, e, decode) && Unshared(m)
      decreases keys
    {
      var jdx :| jdx in keys;
      var next := StoreImage(m, e, decode, name(jdx), page[jdx]);
      if next.Fail? {
        return Fail, jdx;
      }
      KeyNamesStep(imgsMap.Keys, m.Keys, next.value.Keys, page.Keys, keys, jdx, name);
      m := next.value;
      keys := keys - {jdx};
    }
    assert page.Keys - keys == page.Keys;
    return Ok(m), 0;
  }

  /** The imgsMap loop: every page's images decoded and stored under their
      names; the first image that does not decode ends the read. */
  method ReadPages(ms: seq<map<int64, seq<byte>>>, width: int, decode: Decoder)
      returns (r: Result<map<string, Image>>)
    requires 0 <= width <= MaxFmtWidth
    ensures r.Ok? <==> AllDecode(Sources(ms, width, |ms|), decode)
    ensures r.Ok? ==> r.value.Keys == Sources(ms, width, |ms|).Keys
    ensures r.Ok? ==> StoredDecoded(r.value, Sources(ms, width, |ms|), decode) && Unshared(r.value)
  {
    ghost var e := Sources(ms, width, |ms|);
    var imgsMap: map<string, Image> := map[];
    for idx := 0 to |ms|
      invariant imgsMap.Keys == Sources(ms, width, idx).Keys
      invariant StoredDecoded(imgsMap, e, decode) && Unshared(imgsMap)
    {
      forall j | j in ms[idx] ensures PdfName(j, width, idx) in e && e[PdfName(j, width, idx)] == ms[idx][j] {
        SourcesHaveImage(ms, width, |ms|, idx, j);
      }
      var next, j := StorePage(ms[idx], PageNamer(width, idx), imgsMap, e, decode);
      if next.Fail? {
        assert PdfName(j, width, idx) in e;
        return Fail;
      }
      PageSourcesKeys(ms[idx], width, idx);
      imgsMap := next.value;
    }
    forall k | k in e ensures decode(e[k]).Ok? {
      assert k in imgsMap;
    }
    return Ok(imgsMap);
  }

  /** `slices.Collect(maps.Keys(imgsMap))`: every name once, in no
      particular order. */
  method CollectKeys(imgsMap: map<string, Image>) returns (keys: seq<string>)
    ensures Distinct(keys)
    ensures forall k :: k in keys <==> k in imgsMap
  {
    keys := [];
    var rest := imgsMap.Keys;
    while rest != {}
      invariant rest <= imgsMap.Keys
      invariant Distinct(keys)
      invariant forall k :: k in keys <==> k in imgsMap && k !in rest
      decreases rest
    {
      var k :| k in rest;
      keys := keys + [k];
      rest := rest - {k};
    }
  }

  /** The last loop of ReadImgsInPDF: `imgs[i] = imgsMap[key]` for the
      i-th key. */
  method ImagesOfKeys(imgsMap: map<string, Image>, keys: seq<string>) returns (imgs: seq<Image>)
    requires forall i :: 0 <= i < |keys| ==> keys[i] in imgsMap
    ensures |imgs| == |keys|
    ensures forall i :: 0 <= i < |keys| ==> imgs[i] == imgsMap[keys[i]]
  {
    imgs := [];
    for i := 0 to |keys|
      invariant |imgs| == i
      invariant forall p :: 0 <= p < i ==> imgs[p] == imgsMap[keys[p]]
    {
      imgs := imgs + [imgsMap[keys[i]]];
    }
  }

  /** The images of a complete imgsMap, in the sorted order of its names,
      are what PdfPageImages specifies, each object once. */
  lemma SortedImages(ms: seq<map<int64, seq<byte>>>, decode: Decoder, imgsMap: map<string, Image>, imgs: seq<Image>)
    requires AllDecode(PdfEntries(ms), decode)
    requires imgsMap.Keys == PdfEntries(ms).Keys
    requires StoredDecoded(imgsMap, PdfEntries(ms), decode) && Unshared(imgsMap)
    requires var ks := SortedElements(PdfEntries(ms).Keys);
      |imgs| == |ks| && forall i :: 0 <= i < |ks| ==> imgs[i] == imgsMap[ks[i]]
    ensures PdfPageImages(ms, decode).Ok? && Values(imgs) == PdfPageImages(ms, decode).value
    ensures forall i, j :: 0 <= i < j < |imgs| ==> imgs[i] != imgs[j]
  {
    var e := PdfEntries(ms);
    var ks := SortedElements(e.Keys);
    var vs := PdfPageImages(ms, decode).value;
    forall p | 0 <= p < |imgs| ensures Values(imgs)[p] == vs[p] {
      assert ks[p] in imgsMap;
      assert Value(imgsMap[ks[p]]) == DecodeImage(e[ks[p]], ks[p], decode).value;
    }
    forall i, j | 0 <= i < j < |imgs| ensures imgs[i] != imgs[j] {
      LessIrreflexive(ks[i]);
      assert ks[i] in imgsMap && ks[j] in imgsMap;
    }
  }

  /** ReadImgsInPDF from the extracted page maps on: the jdxMax loop, the
      imgsMap loop, the sorted names and the slice of images built from
      them. */
  method ReadPdfPages(ms: seq<map<int64, seq<byte>>>, decode: Decoder) returns (r: Result<seq<Image>>)
    ensures r.Ok? <==> PdfPageImages(ms, decode).Ok?
    ensures r.Ok? ==> Values(r.value) == PdfPageImages(ms, decode).value
    ensures r.Ok? ==> forall i, j :: 0 <= i < j < |r.value| ==> r.value[i] != r.value[j]
  {
    var jdxMax := MaxKey(ms);
    var jdxMaxDigits := CountDigits(jdxMax);
    assert jdxMaxDigits == KeyWidth(ms);
    var imgsMap := ReadPages(ms, jdxMaxDigits, decode);
    if imgsMap.Fail? {
      return Fail;
    }
    var unsorted := CollectKeys(imgsMap.value);
    var keys := Sort(unsorted);
    SortDistinct(unsorted);
    SortedUnique(keys, SortedElements(PdfEntries(ms).Keys));
    var imgs := ImagesOfKeys(imgsMap.value, keys);
    SortedImages(ms, decode, imgsMap.value, imgs);
    return Ok(imgs);
  }

  /** ReadImgsInPDF: the input copied into a buffer, its pages counted, the
      images of all of them extracted, decoded, named and sorted by name. */
  method ReadImgsInPDF(f: Result<seq<byte>>, pdf: Pdf, decode: Decoder) returns (r: Result<seq<Image>>)
    ensures r.Ok? <==> PdfFileImages(f, pdf, decode).Ok?
    ensures r.Ok? ==> Values(r.value) == PdfFileImages(f, pdf, decode).value
    ensures r.Ok? ==> forall i, j :: 0 <= i < j < |r.value| ==> r.value[i] != r.value[j]
  {
    if f.Fail? {
      return Fail;
    }
    var allPages := pdf.pageCount(f.value);
    if allPages.Fail? {
      return Fail;
    }
    var allPagesStr := PageNumbers(allPages.value);
    var imgsInPDF := pdf.extractImages(f.value, allPagesStr);
    if imgsInPDF.Fail? {
      return Fail;
    }
    r := ReadPdfPages(imgsInPDF.value, decode);
  }

  /** A PDF read succeeds exactly when every image of every page decodes. */
  lemma PdfImagesSucceed(ms: seq<map<int64, seq<byte>>>, decode: Decoder)
    ensures PdfPageImages(ms, decode).Ok? <==>
      forall i, j :: 0 <= i < |ms| && j in ms[i] ==> decode(ms[i][j]).Ok?
  {
    var w, e := KeyWidth(ms), PdfEntries(ms);
    if AllDecode(e, decode) {
      forall i, j | 0 <= i < |ms| && j in ms[i] ensures decode(ms[i][j]).Ok? {
        SourcesHaveImage(ms, w, |ms|, i, j);
      }
    }
    if forall i, j :: 0 <= i < |ms| && j in ms[i] ==> decode(ms[i][j]).Ok? {
      forall k | k in e ensures decode(e[k]).Ok? {
        var i, j := SourcesAreNamed(ms, w, |ms|, k);
        SourcesHaveImage(ms, w, |ms|, i, j);
      }
    }
  }

  /** The image at position p is decoded from the bytes stored under the
      p-th name in sorted order, and is named by that name: the names
      have no extension to strip. */
  lemma PdfImageNamed(ms: seq<map<int64, seq<byte>>>, decode: Decoder, p: nat)
    requires PdfPageImages(ms, decode).Ok? && p < |PdfPageImages(ms, decode).value|
    ensures var e, ks := PdfEntries(ms), SortedElements(PdfEntries(ms).Keys);
      p < |ks| && ks[p] in e &&
      Ok(PdfPageImages(ms, decode).value[p]) == DecodeImage(e[ks[p]], ks[p], decode) &&
      PdfPageImages(ms, decode).value[p].filename == ks[p]
  {
    var w, e := KeyWidth(ms), PdfEntries(ms);
    var ks := SortedElements(e.Keys);
    assert ks[p] in e;
    var i, j := SourcesAreNamed(ms, w, |ms|, ks[p]);
    ExtOfDotless(ks[p]);
  }

  /** No name appears twice, and the images come in the sorted order of
      their names. */
  lemma PdfImagesSorted(ms: seq<map<int64, seq<byte>>>, decode: Decoder)
    requires PdfPageImages(ms, decode).Ok?
    ensures var vs := PdfPageImages(ms, decode).value;
      forall p, q :: 0 <= p < q < |vs| ==> Less(vs[p].filename, vs[q].filename)
  {
    var vs := PdfPageImages(ms, decode).value;
    forall p, q | 0 <= p < q < |vs| ensures Less(vs[p].filename, vs[q].filename) {
      PdfImageNamed(ms, decode, p);
      PdfImageNamed(ms, decode, q);
    }
  }

  /** Every image of every page is in the result: the image under key j
      of page i is at position p, decoded from its bytes and named
      PdfName(j, width, i) for the width of the largest key. */
  lemma PdfImageAt(ms: seq<map<int64, seq<byte>>>, decode: Decoder, i: nat, j: int64) returns (p: nat)
    requires PdfPageImages(ms, decode).Ok?
    requires i < |ms| && j in ms[i]
    ensures var vs := PdfPageImages(ms, decode).value;
      p < |vs| &&
      Ok(vs[p]) == DecodeImage(ms[i][j], PdfName(j, KeyWidth(ms), i), decode) &&
      vs[p].filename == PdfName(j, KeyWidth(ms), i)
  {
    var w, e := KeyWidth(ms), PdfEntries(ms);
    var ks := SortedElements(e.Keys);
    var name := PdfName(j, w, i);
    SourcesHaveImage(ms, w, |ms|, i, j);
    assert name in ks;
    p :| 0 <= p < |ks| && ks[p] == name;
    PdfImageNamed(ms, decode, p);
  }

  /** Every image in the result is the image under some key j of some
      page i, named after them. */
  lemma PdfImageSource(ms: seq<map<int64, seq<byte>>>, decode: Decoder, p: nat) returns (i: nat, j: int64)
    requires PdfPageImages(ms, decode).Ok? && p < |PdfPageImages(ms, decode).value|
    ensures var vs := PdfPageImages(ms, decode).value;
      i < |ms| && j in ms[i] &&
      Ok(vs[p]) == DecodeImage(ms[i][j], PdfName(j, KeyWidth(ms), i), decode) &&
      vs[p].filename == PdfName(j, KeyWidth(ms), i)
  {
    var w, e := KeyWidth(ms), PdfEntries(ms);
    var ks := SortedElements(e.Keys);
    PdfImageNamed(ms, decode, p);
    i, j := SourcesAreNamed(ms, w, |ms|, ks[p]);
    SourcesHaveImage(ms, w, |ms|, i, j);
  }

  /** With non-negative keys (the library's object numbers), the result is
      ordered by key first and then by the page index compared as a
      string: on one key, page 10 comes before page 2. */
  lemma PdfImagesOrder(ms: seq<map<int64, seq<byte>>>, decode: Decoder, i1: nat, j1: int64, i2: nat, j2: int64)
      returns (p1: nat, p2: nat)
    requires PdfPageImages(ms, decode).Ok?
    requires i1 < |ms| && j1 in ms[i1] && i2 < |ms| && j2 in ms[i2]
    requires 0 <= j1 && 0 <= j2
    ensures var vs := PdfPageImages(ms, decode).value;
      p1 < |vs| && p2 < |vs| &&
      vs[p1].filename == PdfName(j1, KeyWidth(ms), i1) &&
      vs[p2].filename == PdfName(j2, KeyWidth(ms), i2)
    ensures p1 < p2 <==> j1 < j2 || (j1 == j2 && Less(Decimal(i1), Decimal(i2)))
  {
    var w := KeyWidth(ms);
    var vs := PdfPageImages(ms, decode).value;
    p1 := PdfImageAt(ms, decode, i1, j1);
    p2 := PdfImageAt(ms, decode, i2, j2);
    PdfImagesSorted(ms, decode);
    PdfNameOrder(j1, i1, j2, i2, w);
    if Less(vs[p1].filename, vs[p2].filename) && p1 >= p2 {
      if p1 == p2 {
        LessIrreflexive(vs[p1].filename);
      } else {
        LessAsymmetric(vs[p1].filename, vs[p2].filename);
      }
    }
  }

  /** What ReadImgsInFile gives for an input and its file name: the
      extension alone, compared exactly, picks the reader. */
  ghost function FileImages(f: Result<seq<byte>>, filename: string, unzip: Unzip, pdf: Pdf, decode: Decoder): Result<seq<ImageValue>>
  {
    var ext := Ext(filename);
    if ext in SupportedArchiveExts then ZipFileImages(f, unzip, decode)
    else if ext in SupportedPDFExts then PdfFileImages(f, pdf, decode)
    else if f.Fail? then Fail
    else match DecodeImage(f.value, filename, decode)
      case Fail => Fail
      case Ok(v) => Ok([v])
  }

  /** ReadImgsInFile. */
  method ReadImgsInFile(f: Result<seq<byte>>, filename: string, unzip: Unzip, pdf: Pdf, decode: Decoder)
      returns (r: Result<seq<Image>>)
    ensures r.Ok? <==> FileImages(f, filename, unzip, pdf, decode).Ok?
    ensures r.Ok? ==> Values(r.value) == FileImages(f, filename, unzip, pdf, decode).value
    ensures r.Ok? ==> forall i, j :: 0 <= i < j < |r.value| ==> r.value[i] != r.value[j]
  {
    var fileExt := Ext(filename);
    if fileExt in SupportedArchiveExts {
      r := ReadImgsInZip(f, unzip, decode);
      return;
    }
    if fileExt in SupportedPDFExts {
      r := ReadImgsInPDF(f, pdf, decode);
      return;
    }
    if f.Fail? {
      return Fail;
    }
    var img := NewImg(f.value, filename, decode);
    if img.Fail? {
      return Fail;
    }
    return Ok([img.value]);
  }

  /** Any other extension is read as one picture, named after the file
      without that extension. */
  lemma SinglePicture(f: Result<seq<byte>>, filename: string, unzip: Unzip, pdf: Pdf, decode: Decoder)
    requires Ext(filename) !in SupportedArchiveExts && Ext(filename) !in SupportedPDFExts
    ensures var r := FileImages(f, filename, unzip, pdf, decode);
      (r.Ok? <==> f.Ok? && decode(f.value).Ok?) &&
      (r.Ok? ==> |r.value| == 1 && r.value[0].filename == StripExt(filename) &&
                 r.value[0].pixels == decode(f.value).value.pixels)
  {
  }

  /** The extensions are compared exactly: an upper-case archive extension
      is not an archive, so such a file is decoded as one picture. */
  lemma ExtensionCaseMatters(f: Result<seq<byte>>, unzip: Unzip, pdf: Pdf, decode: Decoder)
    ensures var r := FileImages(f, "book.CBZ", unzip, pdf, decode);
      (r.Ok? <==> f.Ok? && decode(f.value).Ok?) &&
      (r.Ok? ==> |r.value| == 1 && r.value[0].filename == "book")
  {
    ExtOfAppended("book", ".CBZ");
    assert "book" + ".CBZ" == "book.CBZ";
    SinglePicture(f, "book.CBZ", unzip, pdf, decode);
  }
}
