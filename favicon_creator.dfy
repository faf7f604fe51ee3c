/**
 * The favicon maker: near-white pixels of an RGBA image are made transparent in
 * place, then one resized frame per requested size goes into the ICO file and
 * the last one is also written as a PNG beside it.
 *
 * Decoding, resampling and encoding belong to PIL and are not modelled: a frame
 * records only the bound it was resized to.
 */
module FaviconCreator {
  import opened Wrappers
  import opened Text

  /** One 8-bit colour or alpha channel. */
  type Channel = x: int | 0 <= x < 256

  datatype Pixel = Pixel(r: Channel, g: Channel, b: Channel, a: Channel)

  /** "White or very light": every colour channel strictly above 240. */
  predicate NearWhite(p: Pixel) {
    p.r > 240 && p.g > 240 && p.b > 240
  }

  /** A pixel after the mask: near-white pixels lose their alpha, nothing else changes. */
  function Masked(p: Pixel): (q: Pixel)
    ensures q.r == p.r && q.g == p.g && q.b == p.b
    ensures NearWhite(p) ==> q.a == 0
    ensures !NearWhite(p) ==> q == p
  {
    if NearWhite(p) then Pixel(p.r, p.g, p.b, 0) else p
  }

  /** Masking twice is masking once. */
  lemma MaskedIdempotent(p: Pixel)
    ensures Masked(Masked(p)) == Masked(p)
  {
  }

  /** The test is strict: a colour channel at exactly 240 keeps the pixel opaque as it was. */
  lemma MaskThresholdIsStrict(p: Pixel)
    requires p.r == 240 || p.g == 240 || p.b == 240
    ensures Masked(p) == p
  {
  }

  /** `(x1, y1)` comes before `(x2, y2)` when scanning column by column. */
  predicate ScanBefore(a: (int, int), b: (int, int)) {
    a.0 < b.0 || (a.0 == b.0 && a.1 < b.1)
  }

  /** An RGBA image whose pixels are updated in place; `pixels[x, y]` is the pixel at column x, row y. */
  class RgbaImage {
    const pixels: array2<Pixel>

    constructor (pixels: array2<Pixel>)
      ensures this.pixels == pixels
    {
      this.pixels := pixels;
    }

    function Width(): nat {
      pixels.Length0
    }

    function Height(): nat {
      pixels.Length1
    }

    /** `img.getpixel((x, y))`. */
    function GetPixel(x: nat, y: nat): Pixel
      requires x < Width() && y < Height()
      reads pixels
    {
      pixels[x, y]
    }

    /** `img.putpixel((x, y), p)`: that pixel changes, no other. */
    method PutPixel(x: nat, y: nat, p: Pixel)
      requires x < Width() && y < Height()
      modifies pixels
      ensures pixels[x, y] == p
      ensures forall i, j :: 0 <= i < Width() && 0 <= j < Height() && (i, j) != (x, y) ==>
        pixels[i, j] == old(pixels[i, j])
    {
      pixels[x, y] := p;
    }

    /**
     * The masking loops of `create_favicon`: every pixel is visited once, column
     * by column, and replaced by its masked value. `visits` records the order.
     */
    method MakeWhiteTransparent() returns (ghost visits: seq<(int, int)>)
      modifies pixels
      ensures forall x, y :: 0 <= x < Width() && 0 <= y < Height() ==>
        pixels[x, y] == Masked(old(pixels[x, y]))
      ensures forall k, l :: 0 <= k < l < |visits| ==> ScanBefore(visits[k], visits[l])
      ensures forall x, y :: (x, y) in visits <==> 0 <= x < Width() && 0 <= y < Height()
    {
      visits := [];
      for x := 0 to Width()
        invariant forall i, j :: 0 <= i < Width() && 0 <= j < Height() ==>
          pixels[i, j] == (if i < x then Masked(old(pixels[i, j])) else old(pixels[i, j]))
        invariant forall k, l :: 0 <= k < l < |visits| ==> ScanBefore(visits[k], visits[l])
        invariant forall k :: 0 <= k < |visits| ==> visits[k].0 < x
        invariant forall i, j :: (i, j) in visits <==> 0 <= i < x && 0 <= j < Height()
      {
        for y := 0 to Height()
          invariant forall i, j :: 0 <= i < Width() && 0 <= j < Height() ==>
            pixels[i, j] == (if i < x || (i == x && j < y) then Masked(old(pixels[i, j])) else old(pixels[i, j]))
          invariant forall k, l :: 0 <= k < l < |visits| ==> ScanBefore(visits[k], visits[l])
          invariant forall k :: 0 <= k < |visits| ==> ScanBefore(visits[k], (x, y))
          invariant forall i, j :: (i, j) in visits <==> (0 <= i < x && 0 <= j < Height()) || (i == x && 0 <= j < y)
        {
          var p := GetPixel(x, y);
          if p.r > 240 && p.g > 240 && p.b > 240 {
            PutPixel(x, y, Pixel(p.r, p.g, p.b, 0));
          }
          visits := visits + [(x, y)];
        }
      }
    }
  }

  /** One resized copy of the masked image: `img.copy()` then `thumbnail((size, size))`. */
  datatype Frame = Frame(bound: int)

  /** The resize loop: one frame per requested size, in the order given. */
  method ResizeAll(sizes: seq<int>) returns (frames: seq<Frame>)
    ensures |frames| == |sizes|
    ensures forall i :: 0 <= i < |sizes| ==> frames[i].bound == sizes[i]
  {
    frames := [];
    for i := 0 to |sizes|
      invariant |frames| == i
      invariant forall k :: 0 <= k < i ==> frames[k].bound == sizes[k]
    {
      frames := frames + [Frame(sizes[i])];
    }
  }

  /** The two files written: the ICO with all frames, the first leading, and the PNG of the last frame. */
  datatype FaviconFiles = FaviconFiles(icoPath: string, icoFrames: seq<Frame>, pngPath: string, pngFrame: Frame)

  /**
   * `create_favicon` on an opened image. The mask is applied first; with no
   * sizes, `resized_images[0]` raises and nothing is saved.
   */
  method CreateFavicon(image: RgbaImage, outputPath: string, sizes: seq<int>)
    returns (r: Result<FaviconFiles, string>)
    modifies image.pixels
    ensures forall x, y :: 0 <= x < image.Width() && 0 <= y < image.Height() ==>
      image.pixels[x, y] == Masked(old(image.pixels[x, y]))
    ensures r.Err? <==> sizes == []
    ensures r.Ok? ==>
      && r.value.icoPath == outputPath
      && |r.value.icoFrames| == |sizes|
      && (forall i :: 0 <= i < |sizes| ==> r.value.icoFrames[i].bound == sizes[i])
      && r.value.pngFrame.bound == sizes[|sizes| - 1]
      && r.value.pngPath == Root(outputPath) + ".png"
  {
    var _ := image.MakeWhiteTransparent();
    var frames := ResizeAll(sizes);
    r := SaveFavicon(outputPath, frames);
  }

  /**
   * The two `save` calls: `resized_images[0]` raises on no frames; otherwise the
   * ICO gets every frame and the PNG the last one, beside the ICO.
   */
  function SaveFavicon(outputPath: string, frames: seq<Frame>): (r: Result<FaviconFiles, string>)
    ensures r.Err? <==> frames == []
    ensures r.Ok? ==>
      && r.value.icoPath == outputPath && r.value.icoFrames == frames
      && r.value.pngFrame == frames[|frames| - 1] && r.value.pngPath == Root(outputPath) + ".png"
  {
    if |frames| == 0 then Err("IndexError: list index out of range")
    else Ok(FaviconFiles(outputPath, frames, Root(outputPath) + ".png", frames[|frames| - 1]))
  }

  /** The defaults of `create_favicon`'s `output_path` and `sizes` parameters. */
  const DefaultOutputPath: string := "favicon.ico"
  const DefaultSizes: seq<int> := [16, 32, 48, 64, 128, 256]

  /**
   * `create_favicon(input_image)` as the script's entry point calls it, on the
   * defaults: the ICO holds six frames from 16 to 256 pixels and `favicon.png`
   * holds the 256-pixel one.
   */
  method CreateDefaultFavicon(image: RgbaImage) returns (r: Result<FaviconFiles, string>)
    modifies image.pixels
    ensures forall x, y :: 0 <= x < image.Width() && 0 <= y < image.Height() ==>
      image.pixels[x, y] == Masked(old(image.pixels[x, y]))
    ensures r.Ok?
    ensures r.value.icoPath == "favicon.ico" && r.value.pngPath == "favicon.png"
    ensures |r.value.icoFrames| == |DefaultSizes|
    ensures forall i :: 0 <= i < |DefaultSizes| ==> r.value.icoFrames[i].bound == DefaultSizes[i]
    ensures r.value.icoFrames[0].bound == 16 && r.value.pngFrame.bound == 256
  {
    DefaultPngPath();
    r := CreateFavicon(image, DefaultOutputPath, DefaultSizes);
  }

  /** The default output `favicon.ico` puts the PNG at `favicon.png`. */
  lemma DefaultPngPath()
    ensures Root(DefaultOutputPath) + ".png" == "favicon.png"
  {
    assert "favicon"[0] != '.' && '/' !in "favicon"[0..];
    PngBesideIco("favicon");
    assert "favicon" + ".ico" == DefaultOutputPath;
    assert "favicon" + ".png" == "favicon.png";
  }

  /** The PNG lands beside the ICO under the same stem: `favicon.ico` gives `favicon.png`. */
  lemma PngBesideIco(stem: string)
    ensures Root(stem + ".ico") == stem <==>
      exists k :: 0 <= k < |stem| && stem[k] != '.' && '/' !in stem[k..]
    ensures Root(stem + ".ico") != stem ==> Root(stem + ".ico") == stem + ".ico"
  {
    if exists k :: 0 <= k < |stem| && stem[k] != '.' && '/' !in stem[k..] {
      var k :| 0 <= k < |stem| && stem[k] != '.' && '/' !in stem[k..];
      IcoStrippedFromNamedStem(stem, k);
    } else {
      IcoKeptOnDotsOnlyStem(stem);
      assert |stem + ".ico"| != |stem|;
    }
  }

  /** The `.` before `ico` is the last dot of `stem + ".ico"`. */
  lemma IcoLastDot(stem: string)
    ensures LastIndexOf(stem + ".ico", '.') == |stem|
  {
    var rest := ".ico"[1..];
    assert |rest| == 3 && rest[0] == 'i' && rest[1] == 'c' && rest[2] == 'o';
    Text.LastIndexOfAfter(stem, ".ico", '.');
  }

  /** No `/` follows the stem in `stem + ".ico"`. */
  lemma IcoNoSlashAfterStem(stem: string)
    ensures LastIndexOf(stem + ".ico", '/') < |stem|
  {
    var suffix := ".ico";
    assert |suffix| == 4 && suffix[0] == '.' && suffix[1] == 'i' && suffix[2] == 'c' && suffix[3] == 'o';
    Text.LastIndexOfAppend(stem, suffix, '/');
  }

  /** A last component holding a character other than `.` keeps `.ico` as the extension. */
  lemma IcoStrippedFromNamedStem(stem: string, k: nat)
    requires k < |stem| && stem[k] != '.' && '/' !in stem[k..]
    ensures Root(stem + ".ico") == stem
  {
    var p := stem + ".ico";
    IcoLastDot(stem);
    IcoNoSlashAfterStem(stem);
    var sep := LastIndexOf(p, '/');
    forall j | k <= j < |stem| ensures p[j] != '/' {
      assert p[j] == stem[k..][j - k];
    }
    assert sep < k;
    assert p[k] == stem[k];
    assert Extension(p) == p[|stem|..];
    assert p[|stem|..] == ".ico";
  }

  /** A last component of dots only (or none) makes `.ico` a leading-dot name with no extension. */
  lemma IcoKeptOnDotsOnlyStem(stem: string)
    requires !exists k :: 0 <= k < |stem| && stem[k] != '.' && '/' !in stem[k..]
    ensures Root(stem + ".ico") == stem + ".ico"
  {
    var p := stem + ".ico";
    IcoLastDot(stem);
    IcoNoSlashAfterStem(stem);
    var sep := LastIndexOf(p, '/');
    forall j | sep < j < |stem| ensures p[j] == '.' {
      assert p[j] == stem[j];
      assert '/' !in stem[j..] by {
        forall i | 0 <= i < |stem[j..]| ensures stem[j..][i] != '/' {
          assert stem[j..][i] == p[j + i];
        }
      }
    }
    assert Extension(p) == [];
  }
}
