/** internal/imgutil/save.go: writing the collection as a zip archive of
    JPEG files, as a PDF document with one page per image, or one image as
    a JPEG file. The JPEG encoder, the zip writer's Create and pdfcpu's
    ImportImages are parameters; the naming, the order and the error
    handling are modelled. internal/imgutil/imgs.go:241-292 holds the same
    three functions in an older revision. */
module ImgutilSave {
  import opened Wrappers
  import opened Digits
  import opened Format
  import opened Lex
  import opened Paths
  import opened Images
  import opened ImgutilRead

  /** jpeg.Encode of a bitmap at a quality; left abstract. */
  type Encoder = (Bitmap, int) -> Result<seq<byte>>

  /** zipWriter.Create: whether a member of that name can be started;
      left abstract. */
  type Create = string -> bool

  /** api.ImportImages: a document with one page per encoded image, or a
      failure; left abstract. */
  type ImportImages = seq<seq<byte>> -> Result<seq<byte>>

  /** One member the zip writer was given: its name and what the encoder
      wrote into it (a failure leaves it incomplete). */
  datatype Member = Member(name: string, data: Result<seq<byte>>)

  /** The members written and whether SaveImgsAsZip returned without an
      error. */
  datatype Export = Export(members: seq<Member>, ok: bool)

  /** Go's `len` is an `int`. */
  const MaxLen: int := 0x8000_0000_0000_0000

  /** The prefix of the image at index i when digits are prepended:
      i padded to the digit count of the number of images, then '_'. */
  function Prefix(i: nat, n: nat): (p: string)
    requires n < MaxLen
  {
    DigitCountInt64(n as int64);
    PaddingZero(i, DigitCount(n)) + "_"
  }

  /** The member name of the image at index i of n: `Filename + ".jpg"`,
      with Prefix(i, n) in front when digits are prepended. */
  function EntryName(filename: string, i: nat, n: nat, prepend: bool): string
    requires n < MaxLen
  {
    if prepend then Prefix(i, n) + (filename + ".jpg") else filename + ".jpg"
  }

  /** The names SaveImgsAsZip gives the images of vs, by index. */
  function MemberNames(vs: seq<ImageValue>, prepend: bool): nat -> string
    requires |vs| < MaxLen
  {
    i => if 0 <= i < |vs| then EntryName(vs[i].filename, i, |vs|, prepend) else ""
  }

  /** What SaveImgsAsZip writes for the images vs[k..] when the image at
      index i is stored under name(i): each member is created, then filled
      with the encoded image; the first failure of either ends the export. */
  function ZipExport(vs: seq<ImageValue>, k: nat, name: nat -> string, quality: int, create: Create, encode: Encoder): Export
    requires k <= |vs|
    decreases |vs| - k
  {
    if k == |vs| then Export([], true)
    else
      if !create(name(k)) then Export([], false)
      else match encode(vs[k].pixels, quality)
        case Fail => Export([Member(name(k), Fail)], false)
        case Ok(data) =>
          var rest := ZipExport(vs, k + 1, name, quality, create, encode);
          Export([Member(name(k), Ok(data))] + rest.members, rest.ok)
  }

  /** The members ws written before the rest of the export. */
  function After(ws: seq<Member>, e: Export): Export
  {
    Export(ws + e.members, e.ok)
  }

  /** One image written by the export from index k on. */
  predicate Written(vs: seq<ImageValue>, k: nat, name: nat -> string, quality: int, create: Create, encode: Encoder)
    requires k < |vs|
  {
    create(name(k)) && encode(vs[k].pixels, quality).Ok?
  }

  /** The members of the export from index k on are named and filled in
      order, at most one per image; every member but a failing last one
      holds its encoded image. */
  lemma {:induction false} ZipExportMembers(vs: seq<ImageValue>, k: nat, name: nat -> string, quality: int, create: Create, encode: Encoder)
    requires k <= |vs|
    decreases |vs| - k
    ensures |ZipExport(vs, k, name, quality, create, encode).members| <= |vs| - k
    ensures var e := ZipExport(vs, k, name, quality, create, encode);
      forall i :: 0 <= i < |e.members| ==>
        e.members[i].name == name(k + i) &&
        e.members[i].data == encode(vs[k + i].pixels, quality)
  {
    if k < |vs| && Written(vs, k, name, quality, create, encode) {
      var rest := ZipExport(vs, k + 1, name, quality, create, encode);
      var e := ZipExport(vs, k, name, quality, create, encode);
      ZipExportMembers(vs, k + 1, name, quality, create, encode);
      assert e.members == [Member(name(k), encode(vs[k].pixels, quality))] + rest.members;
      forall i | 0 < i < |e.members|
        ensures e.members[i].name == name(k + i)
        ensures e.members[i].data == encode(vs[k + i].pixels, quality)
      {
        var i' := i - 1;
        assert e.members[i] == rest.members[i'];
        assert k + i == (k + 1) + i';
      }
    }
  }

  /** The export from index k on succeeds exactly when every image from k
      is created and encoded, and then writes one member per image. */
  lemma {:induction false} ZipExportOk(vs: seq<ImageValue>, k: nat, name: nat -> string, quality: int, create: Create, encode: Encoder)
    requires k <= |vs|
    decreases |vs| - k
    ensures var e := ZipExport(vs, k, name, quality, create, encode);
      e.ok <==> forall i :: k <= i < |vs| ==> Written(vs, i, name, quality, create, encode)
    ensures var e := ZipExport(vs, k, name, quality, create, encode);
      e.ok ==> |e.members| == |vs| - k
  {
    if k < |vs| {
      if Written(vs, k, name, quality, create, encode) {
        ZipExportOk(vs, k + 1, name, quality, create, encode);
      } else {
        assert !Written(vs, k, name, quality, create, encode);
      }
    }
  }

  /** A failed export stops at the first image that fails: the members
      written are those of the images before it, then the failing one
      itself when Create succeeded for it and the encoder failed. */
  lemma {:induction false} ZipExportStop(vs: seq<ImageValue>, k: nat, name: nat -> string, quality: int, create: Create, encode: Encoder)
      returns (stop: nat)
    requires k <= |vs|
    decreases |vs| - k
    ensures var e := ZipExport(vs, k, name, quality, create, encode);
      !e.ok ==> (k <= stop < |vs| && !Written(vs, stop, name, quality, create, encode) &&
        (forall i :: k <= i < stop ==> Written(vs, i, name, quality, create, encode)) &&
        |e.members| == stop - k + (if create(name(stop)) then 1 else 0))
  {
    stop := k;
    if k < |vs| && Written(vs, k, name, quality, create, encode) {
      stop := ZipExportStop(vs, k + 1, name, quality, create, encode);
    }
  }

  /** The export from index k on, all of the above together. */
  lemma ZipExportSpec(vs: seq<ImageValue>, k: nat, name: nat -> string, quality: int, create: Create, encode: Encoder)
      returns (stop: nat)
    requires k <= |vs|
    ensures |ZipExport(vs, k, name, quality, create, encode).members| <= |vs| - k
    ensures var e := ZipExport(vs, k, name, quality, create, encode);
      forall i :: 0 <= i < |e.members| ==>
        e.members[i].name == name(k + i) &&
        e.members[i].data == encode(vs[k + i].pixels, quality)
    ensures var e := ZipExport(vs, k, name, quality, create, encode);
      e.ok <==> forall i :: k <= i < |vs| ==> Written(vs, i, name, quality, create, encode)
    ensures var e := ZipExport(vs, k, name, quality, create, encode);
      e.ok ==> |e.members| == |vs| - k
    ensures var e := ZipExport(vs, k, name, quality, create, encode);
      !e.ok ==> (k <= stop < |vs| && !Written(vs, stop, name, quality, create, encode) &&
        (forall i :: k <= i < stop ==> Written(vs, i, name, quality, create, encode)) &&
        |e.members| == stop - k + (if create(name(stop)) then 1 else 0))
  {
    ZipExportMembers(vs, k, name, quality, create, encode);
    ZipExportOk(vs, k, name, quality, create, encode);
    stop := ZipExportStop(vs, k, name, quality, create, encode);
  }

  /** The export written so far, then the rest: the invariant of the
      member loop. */
  lemma ZipExportStep(vs: seq<ImageValue>, k: nat, name: nat -> string, quality: int, create: Create, encode: Encoder,
                      ws: seq<Member>)
    requires k < |vs|
    requires Written(vs, k, name, quality, create, encode)
    ensures var m := Member(name(k), encode(vs[k].pixels, quality));
      After(ws, ZipExport(vs, k, name, quality, create, encode)) ==
      After(ws + [m], ZipExport(vs, k + 1, name, quality, create, encode))
  {
    var rest := ZipExport(vs, k + 1, name, quality, create, encode);
    var m := Member(name(k), encode(vs[k].pixels, quality));
    assert ws + ([m] + rest.members) == ws + [m] + rest.members;
  }

  /** The export ends, unsuccessfully and with nothing more written, at an
      image whose member cannot be created. */
  lemma ZipExportUncreated(vs: seq<ImageValue>, k: nat, name: nat -> string, quality: int, create: Create, encode: Encoder,
                           ws: seq<Member>)
    requires k < |vs| && !create(name(k))
    ensures After(ws, ZipExport(vs, k, name, quality, create, encode)) == Export(ws, false)
  {
    assert ws + [] == ws;
  }

  /** The export ends, unsuccessfully, at an image the encoder fails on,
      after writing that image's incomplete member. */
  lemma ZipExportUnencoded(vs: seq<ImageValue>, k: nat, name: nat -> string, quality: int, create: Create, encode: Encoder,
                           ws: seq<Member>)
    requires k < |vs| && create(name(k)) && encode(vs[k].pixels, quality).Fail?
    ensures After(ws, ZipExport(vs, k, name, quality, create, encode)) ==
            Export(ws + [Member(name(k), encode(vs[k].pixels, quality))], false)
  {
  }

  /** SaveImgsAsZip: the members written, in the collection's order, and
      whether it returned without an error. */
  method SaveImgsAsZip(imgs: seq<Image>, prependDigit: bool, quality: int, create: Create, encode: Encoder)
      returns (ok: bool, written: seq<Member>)
    requires |imgs| < MaxLen
    ensures Export(written, ok) == ZipExport(Values(imgs), 0, MemberNames(Values(imgs), prependDigit), quality, create, encode)
  {
    ghost var vs := Values(imgs);
    ghost var names := MemberNames(vs, prependDigit);
    ghost var total := ZipExport(vs, 0, names, quality, create, encode);
    var imgLenDigits := CountDigits(|imgs|);
    DigitCountInt64(|imgs| as int64);
    written := [];
    assert total == After(written, total);
    for i := 0 to |imgs|
      invariant total == After(written, ZipExport(vs, i, names, quality, create, encode))
    {
      var img := imgs[i];
      var filename := img.Filename + ".jpg";
      if prependDigit {
        filename := PaddingZero(i, imgLenDigits) + "_" + filename;
      }
      assert filename == names(i);
      if !create(filename) {
        ZipExportUncreated(vs, i, names, quality, create, encode, written);
        return false, written;
      }
      var data := encode(img.Img, quality);
      if data.Fail? {
        ZipExportUnencoded(vs, i, names, quality, create, encode, written);
        return false, written + [Member(filename, data)];
      }
      ZipExportStep(vs, i, names, quality, create, encode, written);
      written := written + [Member(filename, data)];
    }
    return true, written;
  }

  /** With digits prepended every prefix has the same width, so the member
      names sort in the collection's order, whatever the file names are. */
  lemma PrependedNamesSorted(fi: string, fj: string, i: nat, j: nat, n: nat)
    requires i < j < n < MaxLen
    ensures Less(EntryName(fi, i, n, true), EntryName(fj, j, n, true))
  {
    DigitCountInt64(n as int64);
    var w := DigitCount(n);
    var p, q := PaddingZero(i, w), PaddingZero(j, w);
    DigitCountMonotone(i, n);
    DigitCountMonotone(j, n);
    PaddingZeroOrder(i, j, w);
    if p == q {
      PaddingZeroInjective(i, j, w);
    }
    assert EntryName(fi, i, n, true) == p + ("_" + (fi + ".jpg"));
    assert EntryName(fj, j, n, true) == q + ("_" + (fj + ".jpg"));
    LessDifferentPrefix(p, q, "_" + (fi + ".jpg"), "_" + (fj + ".jpg"));
  }

  /** The members as an archive reader lists them. */
  function Archive(ms: seq<Member>): (es: seq<ZipEntry>)
    ensures |es| == |ms|
  {
    seq(|ms|, i requires 0 <= i < |ms| => ZipEntry(ms[i].name, false, ms[i].data))
  }

  lemma {:induction false} KeptAll<E>(es: seq<E>, keep: E -> bool)
    requires forall i :: 0 <= i < |es| ==> keep(es[i])
    ensures Kept(es, keep) == es
  {
    if es != [] {
      assert forall i :: 0 <= i < |es[1..]| ==> es[1..][i] == es[i + 1];
      KeptAll(es[1..], keep);
      assert es == [es[0]] + es[1..];
    }
  }

  lemma FlattenSlashFree(s: string)
    requires forall i :: 0 <= i < |s| ==> s[i] != '/'
    ensures Flatten(s) == s
  {
  }

  /** The prefix holds digits and '_', never '/'. */
  lemma PrefixSlashFree(i: nat, n: nat)
    requires n < MaxLen
    ensures forall k :: 0 <= k < |Prefix(i, n)| ==> Prefix(i, n)[k] != '/'
  {
    DigitCountInt64(n as int64);
    PaddingZeroShape(i, DigitCount(n));
  }

  /** The name of the image at index i of vs without the ".jpg". */
  function Stem(vs: seq<ImageValue>, i: nat, prepend: bool): string
    requires i < |vs| < MaxLen
  {
    (if prepend then Prefix(i, |vs|) else "") + vs[i].filename
  }

  /** A member saved under `stem + ".jpg"` is one the zip reader decodes,
      and it is named back by its stem. */
  lemma MemberReadsBack(stem: string, data: seq<byte>, decode: Decoder)
    requires forall k :: 0 <= k < |stem| ==> stem[k] != '/'
    requires decode(data).Ok?
    ensures var e := ZipEntry(stem + ".jpg", false, Ok(data));
      WantedIn(SupportedImageExts)(e) &&
      ZipLoader(true, decode)(e).Ok? && ZipLoader(true, decode)(e).value.filename == stem
  {
    StemReadsBack(stem);
    ExtOfAppended(stem, ".jpg");
  }

  /** A complete export whose member names are slash-free stems followed
      by ".jpg", of images the decoder accepts once encoded, is read back
      by ReadImgsInZip's member loop as one image per member, named by the
      stems. */
  lemma StemsReadBack(vs: seq<ImageValue>, name: nat -> string, stems: seq<string>, quality: int,
                      create: Create, encode: Encoder, decode: Decoder)
    requires ZipExport(vs, 0, name, quality, create, encode).ok
    requires |stems| == |vs|
    requires forall i :: 0 <= i < |vs| ==> name(i) == stems[i] + ".jpg"
    requires forall i :: 0 <= i < |vs| ==> forall k :: 0 <= k < |stems[i]| ==> stems[i][k] != '/'
    requires forall i :: 0 <= i < |vs| ==>
      encode(vs[i].pixels, quality).Ok? && decode(encode(vs[i].pixels, quality).value).Ok?
    ensures var es := Archive(ZipExport(vs, 0, name, quality, create, encode).members);
      var r := ZipImages(es, SupportedImageExts, true, decode);
      r.Ok? && |r.value| == |vs| && forall i :: 0 <= i < |vs| ==> r.value[i].filename == stems[i]
  {
    var ms := ZipExport(vs, 0, name, quality, create, encode).members;
    ZipExportMembers(vs, 0, name, quality, create, encode);
    ZipExportOk(vs, 0, name, quality, create, encode);
    var es := Archive(ms);
    forall i | 0 <= i < |es|
      ensures WantedIn(SupportedImageExts)(es[i])
      ensures ZipLoader(true, decode)(es[i]).Ok? && ZipLoader(true, decode)(es[i]).value.filename == stems[i]
    {
      assert es[i] == ZipEntry(stems[i] + ".jpg", false, Ok(encode(vs[i].pixels, quality).value));
      MemberReadsBack(stems[i], encode(vs[i].pixels, quality).value, decode);
    }
    KeptAll(es, WantedIn(SupportedImageExts));
    CollectSpec(es, WantedIn(SupportedImageExts), ZipLoader(true, decode));
  }

  /** The stems of the member names: the prefix, when digits are
      prepended, then the image's file name, with no '/' when the file
      names have none. */
  lemma StemNames(vs: seq<ImageValue>, prepend: bool)
    requires |vs| < MaxLen
    requires forall i :: 0 <= i < |vs| ==> forall k :: 0 <= k < |vs[i].filename| ==> vs[i].filename[k] != '/'
    ensures forall i :: 0 <= i < |vs| ==> MemberNames(vs, prepend)(i) == Stem(vs, i, prepend) + ".jpg"
    ensures forall i :: 0 <= i < |vs| ==> forall k :: 0 <= k < |Stem(vs, i, prepend)| ==> Stem(vs, i, prepend)[k] != '/'
  {
    forall i | 0 <= i < |vs|
      ensures MemberNames(vs, prepend)(i) == Stem(vs, i, prepend) + ".jpg"
      ensures forall k :: 0 <= k < |Stem(vs, i, prepend)| ==> Stem(vs, i, prepend)[k] != '/'
    {
      if prepend {
        PrefixSlashFree(i, |vs|);
        assert Prefix(i, |vs|) + (vs[i].filename + ".jpg") == (Prefix(i, |vs|) + vs[i].filename) + ".jpg";
      } else {
        assert Stem(vs, i, prepend) == vs[i].filename;
      }
    }
  }

  /** Reading back a complete export with ReadImgsInZip's member loop
      gives one image per saved image, in the same order, named as before
      with the prefix in front when digits were prepended, provided the
      names have no '/' and the decoder accepts what the encoder wrote. */
  lemma ExportReadsBack(vs: seq<ImageValue>, prepend: bool, quality: int, create: Create, encode: Encoder, decode: Decoder)
    requires |vs| < MaxLen
    requires ZipExport(vs, 0, MemberNames(vs, prepend), quality, create, encode).ok
    requires forall i :: 0 <= i < |vs| ==> forall k :: 0 <= k < |vs[i].filename| ==> vs[i].filename[k] != '/'
    requires forall i :: 0 <= i < |vs| ==>
      encode(vs[i].pixels, quality).Ok? && decode(encode(vs[i].pixels, quality).value).Ok?
    ensures var es := Archive(ZipExport(vs, 0, MemberNames(vs, prepend), quality, create, encode).members);
      var r := ZipImages(es, SupportedImageExts, true, decode);
      r.Ok? && |r.value| == |vs| &&
      forall i :: 0 <= i < |vs| ==> r.value[i].filename == Stem(vs, i, prepend)
  {
    var stems := seq(|vs|, i requires 0 <= i < |vs| => Stem(vs, i, prepend));
    StemNames(vs, prepend);
    StemsReadBack(vs, MemberNames(vs, prepend), stems, quality, create, encode, decode);
  }

  /** A slash-free stem saved as `stem + ".jpg"` is read back as the stem. */
  lemma StemReadsBack(stem: string)
    requires forall k :: 0 <= k < |stem| ==> stem[k] != '/'
    ensures StripExt(Flatten(stem + ".jpg")) == stem
  {
    var p := stem + ".jpg";
    ExtOfAppended(stem, ".jpg");
    StripFlattened(p);
    FlattenSlashFree(stem);
  }

  /** The images encoded in order, or a failure at the first that does not
      encode. */
  function EncodeAll(vs: seq<ImageValue>, quality: int, encode: Encoder): Result<seq<seq<byte>>>
  {
    if vs == [] then Ok([])
    else match encode(vs[0].pixels, quality)
      case Fail => Fail
      case Ok(buf) =>
        match EncodeAll(vs[1..], quality, encode)
        case Fail => Fail
        case Ok(bufs) => Ok([buf] + bufs)
  }

  /** Encoding succeeds exactly when every image encodes, and then gives
      one buffer per image, in the collection's order. */
  lemma {:induction false} EncodeAllSpec(vs: seq<ImageValue>, quality: int, encode: Encoder)
    ensures EncodeAll(vs, quality, encode).Ok? <==> forall i :: 0 <= i < |vs| ==> encode(vs[i].pixels, quality).Ok?
    ensures EncodeAll(vs, quality, encode).Ok? ==>
      var bufs := EncodeAll(vs, quality, encode).value;
      |bufs| == |vs| && forall i :: 0 <= i < |vs| ==> bufs[i] == encode(vs[i].pixels, quality).value
  {
    if vs != [] {
      EncodeAllSpec(vs[1..], quality, encode);
      assert forall i :: 0 < i < |vs| ==> vs[i] == vs[1..][i - 1];
    }
  }

  /** What SaveImgsAsPDF gives: the document ImportImages makes of the
      encoded images, which it is handed only when every image encoded. */
  function PdfExport(vs: seq<ImageValue>, quality: int, encode: Encoder, importImages: ImportImages): Result<seq<byte>>
  {
    match EncodeAll(vs, quality, encode)
    case Fail => Fail
    case Ok(bufs) => importImages(bufs)
  }

  /** SaveImgsAsPDF: the imgsReader array filled with one buffer per image,
      in order, then the document imported from it. */
  method SaveImgsAsPDF(imgs: seq<Image>, quality: int, encode: Encoder, importImages: ImportImages)
      returns (r: Result<seq<byte>>)
    ensures r == PdfExport(Values(imgs), quality, encode, importImages)
  {
    ghost var vs := Values(imgs);
    EncodeAllSpec(vs, quality, encode);
    var imgsReader := new seq<byte>[|imgs|];
    for i := 0 to |imgs|
      invariant forall j :: 0 <= j < i ==>
        encode(vs[j].pixels, quality).Ok? && imgsReader[j] == encode(vs[j].pixels, quality).value
    {
      var buf := encode(imgs[i].Img, quality);
      if buf.Fail? {
        return Fail;
      }
      imgsReader[i] := buf.value;
    }
    assert imgsReader[..] == EncodeAll(vs, quality, encode).value;
    r := importImages(imgsReader[..]);
  }

  /** What SaveImg writes: the encoded pixels. */
  function ImageFile(v: ImageValue, quality: int, encode: Encoder): Result<seq<byte>>
  {
    encode(v.pixels, quality)
  }

  /** SaveImg. */
  method SaveImg(img: Image, quality: int, encode: Encoder) returns (r: Result<seq<byte>>)
    ensures r == ImageFile(Value(img), quality, encode)
  {
    r := encode(img.Img, quality);
  }

  /** The file SaveImg writes depends on the pixels and the quality only,
      not on the name or the codec the image came from. */
  lemma ImageFileIgnoresName(v: ImageValue, w: ImageValue, quality: int, encode: Encoder)
    requires v.pixels == w.pixels
    ensures ImageFile(v, quality, encode) == ImageFile(w, quality, encode)
  {
  }
}
