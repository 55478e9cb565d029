/** The image entity of internal/imgutil/imgs.go (and its older twin `Img`
    in imgpack/imgs.go): a decoded bitmap with a display name and the name
    of the codec it came from. The list of the collection holds references
    to these objects, so the entity is a class. */
module Images {
  import opened Wrappers
  import opened Paths

  /** One pixel; its colour model is the codec's business. */
  type Pixel(==)

  type byte = bv8

  /** A bitmap as rows of pixels, its bounds starting at (0, 0). */
  type Bitmap = seq<seq<Pixel>>

  function Width(b: Bitmap): nat
  {
    if |b| == 0 then 0 else |b[0]|
  }

  function Height(b: Bitmap): nat
  {
    |b|
  }

  /** Every row has the width of the first one. */
  predicate Rectangular(b: Bitmap)
  {
    forall r :: 0 <= r < |b| ==> |b[r]| == Width(b)
  }

  function Min(a: nat, b: nat): nat
  {
    if a <= b then a else b
  }

  /** imaging.Crop(img, image.Rect(x0, 0, x1, height)): columns x0 up to x1
      of every row. */
  function CropColumns(b: Bitmap, x0: nat, x1: nat): (c: Bitmap)
    requires x0 <= x1
    ensures |c| == |b|
  {
    seq(|b|, r requires 0 <= r < |b| => b[r][Min(x0, |b[r]|)..Min(x1, |b[r]|)])
  }

  /** Two bitmaps of one height side by side. */
  function Beside(l: Bitmap, r: Bitmap): (c: Bitmap)
    requires |l| == |r|
  {
    seq(|l|, i requires 0 <= i < |l| => l[i] + r[i])
  }

  /** The left half of a cut: W/2 columns. */
  function LeftHalf(b: Bitmap): Bitmap
  {
    CropColumns(b, 0, Width(b) / 2)
  }

  /** The right half of a cut: the remaining W - W/2 columns, the wider half
      on odd widths. */
  function RightHalf(b: Bitmap): Bitmap
  {
    CropColumns(b, Width(b) / 2, Width(b))
  }

  /** Cutting a bitmap of width W and height H gives halves of widths W/2 and
      W - W/2, both of height H, that put side by side give the bitmap back. */
  lemma CutHalves(b: Bitmap)
    requires Rectangular(b)
    ensures Height(LeftHalf(b)) == Height(b) && Height(RightHalf(b)) == Height(b)
    ensures Rectangular(LeftHalf(b)) && Rectangular(RightHalf(b))
    ensures |b| > 0 ==> Width(LeftHalf(b)) == Width(b) / 2
    ensures |b| > 0 ==> Width(RightHalf(b)) == Width(b) - Width(b) / 2
    ensures Beside(LeftHalf(b), RightHalf(b)) == b
  {
    var w := Width(b);
    forall i | 0 <= i < |b| ensures Beside(LeftHalf(b), RightHalf(b))[i] == b[i] {
      assert b[i] == b[i][..w / 2] + b[i][w / 2..w];
    }
  }

  /** What a decoder returns: the pixels and the codec's format name. */
  datatype Decoded = Decoded(pixels: Bitmap, format: string)

  /** The codec (image.DecodeConfig, then imaging.Decode with EXIF
      orientation for JPEG or image.Decode otherwise), left abstract. */
  type Decoder = seq<byte> -> Result<Decoded>

  /** The observable content of an image object. */
  datatype ImageValue = ImageValue(filename: string, pixels: Bitmap, format: string)

  class Image {
    /** The base name of the image file without its extension. */
    var Filename: string
    var Img: Bitmap
    /** The codec the image was decoded with. */
    var Type: string

    constructor (filename: string, pixels: Bitmap, format: string)
      ensures Filename == filename && Img == pixels && Type == format
    {
      Filename := filename;
      Img := pixels;
      Type := format;
    }

    /** Clone: a new object with the same name, type and pixels; the pixels
        are copied into a new buffer (image.NewRGBA and draw.Draw). */
    method Clone() returns (c: Image)
      ensures fresh(c)
      ensures c.Filename == Filename && c.Img == Img && c.Type == Type
    {
      c := new Image(Filename, Img, Type);
    }
  }

  function Value(img: Image): ImageValue
    reads img
  {
    ImageValue(img.Filename, img.Img, img.Type)
  }

  function Values(imgs: seq<Image>): (vs: seq<ImageValue>)
    reads set i | 0 <= i < |imgs| :: imgs[i]
    ensures |vs| == |imgs|
    ensures forall i :: 0 <= i < |imgs| ==> vs[i] == Value(imgs[i])
  {
    seq(|imgs|, i reads imgs requires 0 <= i < |imgs| => Value(imgs[i]))
  }

  /** No object is at two positions of the list. */
  ghost predicate Unaliased(imgs: seq<Image>)
  {
    forall i, j :: 0 <= i < j < |imgs| ==> imgs[i] != imgs[j]
  }

  lemma UnaliasedAppend(imgs: seq<Image>, img: Image)
    requires Unaliased(imgs) && img !in imgs
    ensures Unaliased(imgs + [img])
  {
  }

  lemma ValuesAppend(imgs: seq<Image>, img: Image)
    ensures Values(imgs + [img]) == Values(imgs) + [Value(img)]
  {
  }

  /** What NewImg builds from the bytes of one image and a file name: the
      name without its last extension, the decoder's pixels and format; a
      decoding failure gives no image. */
  function DecodeImage(data: seq<byte>, hint: string, decode: Decoder): (r: Result<ImageValue>)
    ensures r.Ok? <==> decode(data).Ok?
    ensures r.Ok? ==> r.value.pixels == decode(data).value.pixels
    ensures r.Ok? ==> r.value.format == decode(data).value.format
  {
    match decode(data)
    case Fail => Fail
    case Ok(d) => Ok(ImageValue(StripExt(hint), d.pixels, d.format))
  }

  /** NewImg. */
  method NewImg(data: seq<byte>, hint: string, decode: Decoder) returns (r: Result<Image>)
    ensures r.Ok? <==> DecodeImage(data, hint, decode).Ok?
    ensures r.Ok? ==> fresh(r.value) && Value(r.value) == DecodeImage(data, hint, decode).value
  {
    var d := decode(data);
    if d.Fail? {
      return Fail;
    }
    var filename := TrimSuffix(hint, Ext(hint));
    var img := new Image(filename, d.value.pixels, d.value.format);
    return Ok(img);
  }

  /** Reading a whole file by its path (os.Open, then reading it to the end);
      left abstract. */
  type OpenFile = string -> Result<seq<byte>>

  /** What NewImgByFilepath builds: the file's bytes decoded with the path's
      base name as the hint. */
  function LoadImage(path: string, open: OpenFile, decode: Decoder): Result<ImageValue>
  {
    match open(path)
    case Fail => Fail
    case Ok(data) => DecodeImage(data, Base(path), decode)
  }

  /** NewImgByFilepath. */
  method NewImgByFilepath(path: string, open: OpenFile, decode: Decoder) returns (r: Result<Image>)
    ensures r.Ok? <==> LoadImage(path, open, decode).Ok?
    ensures r.Ok? ==> fresh(r.value) && Value(r.value) == LoadImage(path, open, decode).value
  {
    var data := open(path);
    if data.Fail? {
      return Fail;
    }
    r := NewImg(data.value, Base(path), decode);
  }

  /** The directory part of a path never reaches the Filename: unless the
      path is made of slashes only, the name has no '/'; for a file joined to
      a directory it is the file's own name without its extension. */
  lemma LoadedNameHasNoDirectory(path: string, open: OpenFile, decode: Decoder)
    requires LoadImage(path, open, decode).Ok?
    ensures var f := LoadImage(path, open, decode).value.filename;
      Base(path) != "/" ==> forall i :: 0 <= i < |f| ==> f[i] != '/'
  {
    var b := Base(path);
    BaseShape(path);
    StripExtSplits(b);
    var f := LoadImage(path, open, decode).value.filename;
    assert f == StripExt(b);
    if b != "/" {
      forall i | 0 <= i < |f| ensures f[i] != '/' {
        assert f[i] == (f + Ext(b))[i];
      }
    }
  }

  lemma LoadedJoinedName(dir: string, name: string, open: OpenFile, decode: Decoder)
    requires name != "" && forall i :: 0 <= i < |name| ==> name[i] != '/'
    requires LoadImage(Join(dir, name), open, decode).Ok?
    ensures LoadImage(Join(dir, name), open, decode).value.filename == StripExt(name)
  {
    BaseOfJoin(dir, name);
  }
}
