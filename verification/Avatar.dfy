/** Recoding a picture to avatar limits, for any encoder. */
module Avatar {
  import opened Options

  datatype Image = Image(width: nat, height: nat, pixels: int)
  datatype Format = Png | Jpeg | OtherFormat
  type Bytes = seq<int>

  /** A stored picture: the file and the image it shows. */
  datatype Blob = Blob(bytes: Bytes, image: Image)

  /** The image library. Encoding may fail. */
  datatype Tools = Tools(
    encode: (Image, Format) -> Option<Bytes>,
    resize: (Image, nat) -> Image,
    whiten: Image -> Image)

  predicate Within(img: Image, side: nat) { img.width <= side && img.height <= side }

  /** Resizing fits the box, and a white background does not change the size. */
  ghost predicate Sound(t: Tools) {
    && (forall img: Image, n: nat :: n >= 1 && img.width >= 1 && img.height >= 1 ==> Within(t.resize(img, n), n))
    && (forall img: Image :: t.whiten(img).width == img.width && t.whiten(img).height == img.height)
  }

  predicate Exceeds(t: Tools, img: Image, fmt: Format, maxBytes: nat) {
    t.encode(img, fmt).Some? && |t.encode(img, fmt).value| > maxBytes
  }

  /** The picture at the first side that gives a small enough encoding, starting
      from `target` and going on with seven eighths of it, down to below 20. */
  function Scaled(t: Tools, img: Image, fmt: Format, target: nat, maxBytes: nat): Option<Blob>
    decreases target
  {
    var small := t.resize(img, target);
    match t.encode(small, fmt)
    case None => None
    case Some(bytes) =>
      if |bytes| <= maxBytes then Some(Blob(bytes, small))
      else if target < 20 then None
      else Scaled(t, img, fmt, target * 7 / 8, maxBytes)
  }

  function OutputFormat(file: Blob, fmt: Format, maxBytes: nat): Format {
    if fmt.Png? && |file.bytes| <= maxBytes then Png else Jpeg
  }

  /** JPEG pictures have no transparency and need no white background. */
  function Upright(t: Tools, file: Blob, fmt: Format): Image {
    if fmt.Jpeg? then file.image else t.whiten(file.image)
  }

  function StartSide(img: Image, maxSide: nat): nat {
    var longest := if img.width > img.height then img.width else img.height;
    var side := if maxSide < longest then maxSide else longest;
    if side < 65535 then side else 65535
  }

  predicate NeedsScaling(t: Tools, file: Blob, fmt: Format, exif: bool, maxSide: nat, maxBytes: nat) {
    || |file.bytes| > maxBytes || !Within(file.image, maxSide)
    || (exif && Exceeds(t, Upright(t, file, fmt), OutputFormat(file, fmt, maxBytes), maxBytes))
  }

  /** The whole picture, encoded at its own size. */
  function Whole(t: Tools, img: Image, fmt: Format): Option<Blob> {
    match t.encode(img, fmt)
    case None => None
    case Some(bytes) => Some(Blob(bytes, img))
  }

  /** What recoding gives: the file itself if nothing is to be done. An encoding
      without a byte is replaced by that of the whole picture. */
  function Recoded(t: Tools, file: Blob, fmt: Format, exif: bool, maxSide: nat, maxBytes: nat): Option<Blob> {
    var img, ofmt := Upright(t, file, fmt), OutputFormat(file, fmt, maxBytes);
    if NeedsScaling(t, file, fmt, exif, maxSide, maxBytes) then
      var scaled := Scaled(t, img, ofmt, StartSide(img, maxSide), maxBytes);
      if scaled.Some? && scaled.value.bytes == [] then Whole(t, img, ofmt) else scaled
    else if exif then Whole(t, img, ofmt)
    else Some(file)
  }

  // ------------------------------------------------------------ the program

  method ScaleDown(t: Tools, img: Image, fmt: Format, start: nat, maxBytes: nat) returns (res: Option<Blob>)
    requires start <= 65535
    ensures res == Scaled(t, img, fmt, start, maxBytes)
  {
    var target: nat := start;
    while true
      invariant target <= start
      invariant Scaled(t, img, fmt, target, maxBytes) == Scaled(t, img, fmt, start, maxBytes)
      decreases target
    {
      var small := t.resize(img, target);
      var encoded := t.encode(small, fmt);
      if encoded.None? { return None; }
      if |encoded.value| <= maxBytes { return Some(Blob(encoded.value, small)); }
      if target < 20 { return None; }
      assert target * 7 < 0x1_0000_0000;
      target := target * 7 / 8;
    }
  }

  /** Recodes the picture `file`, already turned upright; `exif` says that it carries
      metadata. Returns the new blob, or nothing on failure. */
  method RecodeAvatar(t: Tools, file: Blob, fmt: Format, exif: bool, maxSide: nat, maxBytes: nat)
    returns (res: Option<Blob>)
    requires Sound(t)
    ensures res == Recoded(t, file, fmt, exif, maxSide, maxBytes)
  {
    var img := file.image;
    var addWhite := !fmt.Jpeg?;
    var exceedsBytes := |file.bytes| > maxBytes;
    var ofmt := if fmt.Png? && !exceedsBytes then Png else Jpeg;
    var encoded: Bytes := [];
    var doScale := exceedsBytes || img.width > maxSide || img.height > maxSide;
    var shown := img;
    if !doScale && exif {
      if addWhite { img, addWhite := t.whiten(img), false; }
      shown := img;
      var e := t.encode(img, ofmt);
      if e.None? { return None; }
      encoded := e.value;
      doScale := |encoded| > maxBytes;
    }
    if doScale {
      var longest := if img.width > img.height then img.width else img.height;
      var target := if maxSide < longest then maxSide else longest;
      if target >= 65535 { target := 65535; }
      if addWhite { img, addWhite := t.whiten(img), false; }
      var scaled := ScaleDown(t, img, ofmt, target, maxBytes);
      if scaled.None? { return None; }
      encoded, shown := scaled.value.bytes, scaled.value.image;
    }
    if !doScale && !exif { return Some(file); }
    if encoded == [] {
      if addWhite { img := t.whiten(img); }
      var e := t.encode(img, ofmt);
      if e.None? { return None; }
      encoded, shown := e.value, img;
    }
    res := Some(Blob(encoded, shown));
  }

  // ------------------------------------------------------------- the limits

  lemma {:induction false} ScaledFits(t: Tools, img: Image, fmt: Format, target: nat, maxBytes: nat)
    requires Sound(t) && img.width >= 1 && img.height >= 1 && target >= 1
    ensures var r := Scaled(t, img, fmt, target, maxBytes);
            r.Some? ==> |r.value.bytes| <= maxBytes && Within(r.value.image, target)
                        && t.encode(r.value.image, fmt) == Some(r.value.bytes)
    decreases target
  {
    if 20 <= target { ScaledFits(t, img, fmt, target * 7 / 8, maxBytes); }
  }

  /** The sides that are tried. */
  function Side(start: nat, k: nat): nat {
    if k == 0 then start else Side(start, k - 1) * 7 / 8
  }

  lemma {:induction false} SideStep(start: nat, k: nat)
    ensures Side(start, k + 1) == Side(start * 7 / 8, k)
  {
    if k > 0 { SideStep(start, k - 1); }
  }

  /** Try `j` gives too many bytes, and there is a next one. */
  predicate GoesOn(t: Tools, img: Image, fmt: Format, start: nat, maxBytes: nat, j: nat) {
    Side(start, j) >= 20 && Exceeds(t, t.resize(img, Side(start, j)), fmt, maxBytes)
  }

  /** Tries before `k` go on. */
  ghost predicate GoesOnTo(t: Tools, img: Image, fmt: Format, start: nat, maxBytes: nat, k: nat) {
    forall j :: 0 <= j < k ==> GoesOn(t, img, fmt, start, maxBytes, j)
  }

  lemma GoesOnFrom(t: Tools, img: Image, fmt: Format, start: nat, maxBytes: nat, k: nat)
    ensures GoesOnTo(t, img, fmt, start, maxBytes, k + 1) <==>
              GoesOn(t, img, fmt, start, maxBytes, 0) && GoesOnTo(t, img, fmt, start * 7 / 8, maxBytes, k)
  {
    if GoesOnTo(t, img, fmt, start, maxBytes, k + 1) {
      forall j | 0 <= j < k ensures GoesOn(t, img, fmt, start * 7 / 8, maxBytes, j) {
        SideStep(start, j);
        assert GoesOn(t, img, fmt, start, maxBytes, j + 1);
      }
    }
    if GoesOn(t, img, fmt, start, maxBytes, 0) && GoesOnTo(t, img, fmt, start * 7 / 8, maxBytes, k) {
      forall j | 0 <= j < k + 1 ensures GoesOn(t, img, fmt, start, maxBytes, j) {
        if j > 0 {
          SideStep(start, j - 1);
          assert GoesOn(t, img, fmt, start * 7 / 8, maxBytes, j - 1);
        }
      }
    }
  }

  /** Any try that the ones before it lead to, and that fits, is the result. */
  lemma {:induction false} FirstFitIsScaled(t: Tools, img: Image, fmt: Format, start: nat, maxBytes: nat, k: nat)
    requires GoesOnTo(t, img, fmt, start, maxBytes, k)
    requires var e := t.encode(t.resize(img, Side(start, k)), fmt); e.Some? && |e.value| <= maxBytes
    ensures var small := t.resize(img, Side(start, k));
            Scaled(t, img, fmt, start, maxBytes) == Some(Blob(t.encode(small, fmt).value, small))
    decreases k
  {
    if k > 0 {
      GoesOnFrom(t, img, fmt, start, maxBytes, k - 1);
      SideStep(start, k - 1);
      FirstFitIsScaled(t, img, fmt, start * 7 / 8, maxBytes, k - 1);
    }
  }

  /** The result is the first try that fits: all sides before it were too large. */
  lemma {:induction false} ScaledIsFirstFit(t: Tools, img: Image, fmt: Format, start: nat, maxBytes: nat)
    returns (k: nat)
    requires Scaled(t, img, fmt, start, maxBytes).Some?
    ensures Scaled(t, img, fmt, start, maxBytes).value.image == t.resize(img, Side(start, k))
    ensures t.encode(t.resize(img, Side(start, k)), fmt) == Some(Scaled(t, img, fmt, start, maxBytes).value.bytes)
    ensures GoesOnTo(t, img, fmt, start, maxBytes, k)
    decreases start
  {
    if Exceeds(t, t.resize(img, start), fmt, maxBytes) {
      var k' := ScaledIsFirstFit(t, img, fmt, start * 7 / 8, maxBytes);
      k := k' + 1;
      SideStep(start, k');
      GoesOnFrom(t, img, fmt, start, maxBytes, k');
    } else {
      k := 0;
    }
  }

  /** Some try gives no bytes at all, and all tries before it too many. */
  ghost predicate ComesOutEmpty(t: Tools, img: Image, fmt: Format, start: nat, maxBytes: nat) {
    exists k :: GoesOnTo(t, img, fmt, start, maxBytes, k) && t.encode(t.resize(img, Side(start, k)), fmt) == Some([])
  }

  lemma EmptyScaled(t: Tools, img: Image, fmt: Format, start: nat, maxBytes: nat)
    ensures ComesOutEmpty(t, img, fmt, start, maxBytes) <==>
              var r := Scaled(t, img, fmt, start, maxBytes); r.Some? && r.value.bytes == []
  {
    if ComesOutEmpty(t, img, fmt, start, maxBytes) {
      var k :| GoesOnTo(t, img, fmt, start, maxBytes, k)
               && t.encode(t.resize(img, Side(start, k)), fmt) == Some([]);
      FirstFitIsScaled(t, img, fmt, start, maxBytes, k);
    } else if Scaled(t, img, fmt, start, maxBytes).Some? {
      var k := ScaledIsFirstFit(t, img, fmt, start, maxBytes);
    }
  }

  /** The picture has to be scaled, a try gives no bytes at all, and the picture as it
      is breaks one of the limits. */
  ghost predicate Defeated(t: Tools, file: Blob, fmt: Format, exif: bool, maxSide: nat, maxBytes: nat) {
    var img, ofmt := Upright(t, file, fmt), OutputFormat(file, fmt, maxBytes);
    && NeedsScaling(t, file, fmt, exif, maxSide, maxBytes)
    && ComesOutEmpty(t, img, ofmt, StartSide(img, maxSide), maxBytes)
    && (!Within(img, maxSide) || Exceeds(t, img, ofmt, maxBytes))
  }

  /** The first side tried is the largest within the picture, the box and what JPEG can
      hold. */
  lemma FirstSide(img: Image, maxSide: nat, n: nat)
    ensures var side := StartSide(img, maxSide);
            && side <= maxSide && side <= 65535 && (side <= img.width || side <= img.height)
            && (n <= maxSide && n <= 65535 && (n <= img.width || n <= img.height) ==> n <= side)
  {
  }

  /** The picture that is worked on: transparent formats get a white background. */
  predicate IsUpright(t: Tools, file: Blob, fmt: Format, img: Image) {
    if fmt == Jpeg then img == file.image else img == t.whiten(file.image)
  }

  /** What recoding does, by the file alone. A file without metadata that keeps both
      limits stays as it is. One with metadata is encoded anew at its own size, if that
      is small enough. All others are scaled from the first side on. Small PNG files stay
      PNG; all else becomes JPEG. */
  lemma RecodedMeaning(t: Tools, file: Blob, fmt: Format, exif: bool, maxSide: nat, maxBytes: nat,
                       img: Image, ofmt: Format)
    requires IsUpright(t, file, fmt, img)
    requires if fmt == Png && |file.bytes| <= maxBytes then ofmt == Png else ofmt == Jpeg
    ensures var r := Recoded(t, file, fmt, exif, maxSide, maxBytes);
            var fits := |file.bytes| <= maxBytes && file.image.width <= maxSide && file.image.height <= maxSide;
            var e := t.encode(img, ofmt);
            var scaled := Scaled(t, img, ofmt, StartSide(img, maxSide), maxBytes);
            if fits && !exif then r == Some(file)
            else if fits && e.None? then r == None
            else if fits && |e.value| <= maxBytes then r == Some(Blob(e.value, img))
            else if scaled == None then r == None
            else if scaled.value.bytes != [] then r == scaled
            else r == if e.None? then None else Some(Blob(e.value, img))
  {
  }

  /** For any encoder, a recoded avatar keeps both limits exactly if it is not defeated
      by a try that gives no bytes. In any case it is an encoding of the picture it
      shows, or else the file itself, and that only if the file carries no metadata. */
  lemma AvatarKeepsLimits(t: Tools, file: Blob, fmt: Format, exif: bool, maxSide: nat, maxBytes: nat)
    requires Sound(t)
    requires maxSide >= 1 && file.image.width >= 1 && file.image.height >= 1
    requires Recoded(t, file, fmt, exif, maxSide, maxBytes).Some?
    ensures var r := Recoded(t, file, fmt, exif, maxSide, maxBytes).value;
            && (|r.bytes| <= maxBytes && Within(r.image, maxSide) <==>
                !Defeated(t, file, fmt, exif, maxSide, maxBytes))
            && (t.encode(r.image, OutputFormat(file, fmt, maxBytes)) == Some(r.bytes) || (r == file && !exif))
  {
    var img, ofmt := Upright(t, file, fmt), OutputFormat(file, fmt, maxBytes);
    var start := StartSide(img, maxSide);
    ScaledFits(t, img, ofmt, start, maxBytes);
    EmptyScaled(t, img, ofmt, start, maxBytes);
  }

  /** So an encoder that always gives bytes keeps the limits, on every path. */
  lemma FaithfulEncoderKeepsLimits(t: Tools, file: Blob, fmt: Format, exif: bool, maxSide: nat, maxBytes: nat)
    requires Sound(t) && forall img, f :: t.encode(img, f) != Some([])
    requires maxSide >= 1 && file.image.width >= 1 && file.image.height >= 1
    ensures var r := Recoded(t, file, fmt, exif, maxSide, maxBytes);
            r.Some? ==> |r.value.bytes| <= maxBytes && Within(r.value.image, maxSide)
  {
    if Recoded(t, file, fmt, exif, maxSide, maxBytes).Some? {
      AvatarKeepsLimits(t, file, fmt, exif, maxSide, maxBytes);
    }
  }

  /** An encoder that gives no bytes for small pictures defeats the limits: then the
      picture is stored at full size. */
  lemma EmptyEncodingDefeatsLimits()
    ensures exists t: Tools, file: Blob ::
              Sound(t) && Recoded(t, file, Jpeg, false, 256, 20000) == Some(file) && !Within(file.image, 256)
  {
    var t := Tools(
      (img: Image, fmt) => Some(if img.width <= 256 then [] else [1]),
      (img: Image, n: nat) => Image(n, n, img.pixels),
      (img: Image) => img);
    var file := Blob([1], Image(300, 300, 0));
    assert t.resize(file.image, 256) == Image(256, 256, 0);
    assert t.encode(Image(256, 256, 0), Jpeg) == Some([]);
    assert t.encode(file.image, Jpeg) == Some([1]);
    assert StartSide(file.image, 256) == 256;
    assert Sound(t) && Recoded(t, file, Jpeg, false, 256, 20000) == Some(file) && !Within(file.image, 256);
  }
}
