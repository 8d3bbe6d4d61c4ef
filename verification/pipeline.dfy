/**
 The mask-building pipeline of `main` (lines 97-117) with its stages in their
 fixed order: noise map, threshold, border suppression, optional dilation,
 optional hole filling.
 */
module Pipeline {
  import opened Grids
  import NoiseMap
  import Masking
  import Dilation
  import HoleFill

  /** The command-line knobs that reach the core; `dilate` is a pass count, so never negative. */
  datatype Params = Params(threshold: real, boxsize: int, dilate: nat, fillHoles: bool)

  /** The noise map (written out when `--savenoise` is given) and the final mask. */
  datatype Products = Products(noise: Image, mask: Mask)

  /** Lines 110-117: the optional dilation passes, then the optional hole filling. */
  function Morphology(m: Mask, p: Params): (r: Mask)
    requires IsRect(m)
    ensures SameShape(m, r)
    ensures Subset(m, r)
    ensures p.dilate == 0 ==> forall i, j :: InGrid(m, i, j) && OnBorder(m, i, j) && !m[i][j] ==> !r[i][j]
  {
    var dilated := if p.dilate != 0 then Dilation.Dilate(m, p.dilate) else m;
    var filled := if p.fillHoles then HoleFill.FillHoles(dilated) else dilated;
    assert Subset(m, filled) by {
      SubsetReflexive(m);
      if p.fillHoles {
        HoleFill.FillHolesExtensive(dilated);
        SubsetTransitive(m, dilated, filled);
      }
    }
    assert p.dilate == 0 ==> forall i, j :: InGrid(m, i, j) && OnBorder(m, i, j) && !m[i][j] ==> !filled[i][j] by {
      if p.dilate == 0 && p.fillHoles {
        HoleFill.FillHolesKeepsBorder(dilated);
      }
    }
    filled
  }

  /** Dilation and hole filling both preserve inclusion, so their composition does. */
  lemma MorphologyMonotone(a: Mask, b: Mask, p: Params)
    requires IsRect(a) && Subset(a, b)
    ensures Subset(Morphology(a, p), Morphology(b, p))
  {
    assert IsRect(b);
    var da := if p.dilate != 0 then Dilation.Dilate(a, p.dilate) else a;
    var db := if p.dilate != 0 then Dilation.Dilate(b, p.dilate) else b;
    if p.dilate != 0 {
      Dilation.DilateMonotone(a, b, p.dilate);
    }
    if p.fillHoles {
      HoleFill.FillHolesMonotone(da, db);
    }
  }

  /** Neither dilation nor hole filling creates a pixel from an empty mask. */
  lemma MorphologyOfEmpty(m: Mask, p: Params)
    requires IsRect(m)
    requires forall i, j :: InGrid(m, i, j) ==> !m[i][j]
    ensures forall i, j :: InGrid(m, i, j) ==> !Morphology(m, p)[i][j]
  {
    var dilated := if p.dilate != 0 then Dilation.Dilate(m, p.dilate) else m;
    if p.dilate != 0 {
      Dilation.DilateReach(m, p.dilate);
      assert forall i, j :: !Dilation.NearTrue(m, i, j, p.dilate);
    }
    assert forall i, j :: InGrid(m, i, j) ==> !dilated[i][j];
    if p.fillHoles {
      HoleFill.AllFalseStaysFalse(dilated);
    }
  }

  /** Lines 103-117: the mask derived from an image and its noise map. */
  function MaskFromNoise(img: Image, noise: Image, p: Params): (m: Mask)
    requires SameShape(img, noise)
    ensures SameShape(img, m)
    ensures Subset(Masking.SuppressBorder(Masking.Threshold(img, noise, p.threshold)), m)
    ensures p.dilate == 0 ==> forall i, j :: InGrid(img, i, j) && OnBorder(img, i, j) ==> !m[i][j]
  {
    Morphology(Masking.SuppressBorder(Masking.Threshold(img, noise, p.threshold)), p)
  }

  /**
   Lines 97-117: the noise map, then the mask. No box size is rejected: one of
   1 or less makes the minimum filter a copy of the image.
   */
  function BuildMask(img: Image, ratio: real, p: Params): (r: Products)
    requires IsRect(img) && ratio > 0.0
    ensures r.noise == NoiseMap.MakeNoiseMap(img, p.boxsize, ratio)
    ensures SameShape(img, r.noise) && SameShape(img, r.mask)
    ensures Subset(Masking.SuppressBorder(Masking.Threshold(img, r.noise, p.threshold)), r.mask)
    ensures p.dilate == 0 ==> forall i, j :: InGrid(img, i, j) && OnBorder(img, i, j) ==> !r.mask[i][j]
  {
    var noise := NoiseMap.MakeNoiseMap(img, p.boxsize, ratio);
    Products(noise, MaskFromNoise(img, noise, p))
  }

  /** Every interior pixel brighter than threshold times its noise survives to the final mask. */
  lemma MaskKeepsDetections(img: Image, noise: Image, p: Params)
    requires SameShape(img, noise)
    ensures forall i, j :: InGrid(img, i, j) && !OnBorder(img, i, j) && img[i][j] > p.threshold * noise[i][j] ==>
      MaskFromNoise(img, noise, p)[i][j]
  {
    var bordered := Masking.SuppressBorder(Masking.Threshold(img, noise, p.threshold));
    assert forall i, j :: InGrid(img, i, j) && !OnBorder(img, i, j) && img[i][j] > p.threshold * noise[i][j] ==>
      bordered[i][j];
  }

  /** With a non-negative noise map, a higher threshold yields a smaller final mask, whatever the other stages do. */
  lemma MaskThresholdAntitone(img: Image, noise: Image, p1: Params, p2: Params)
    requires SameShape(img, noise)
    requires forall i, j :: InGrid(noise, i, j) ==> noise[i][j] >= 0.0
    requires p1.threshold <= p2.threshold
    requires p1.dilate == p2.dilate && p1.fillHoles == p2.fillHoles
    ensures Subset(MaskFromNoise(img, noise, p2), MaskFromNoise(img, noise, p1))
  {
    var raw1, raw2 := Masking.Threshold(img, noise, p1.threshold), Masking.Threshold(img, noise, p2.threshold);
    Masking.ThresholdAntitone(img, noise, p1.threshold, p2.threshold);
    Masking.SuppressBorderProperties(raw2, raw1);
    var b1, b2 := Masking.SuppressBorder(raw1), Masking.SuppressBorder(raw2);
    MorphologyMonotone(b2, b1, p2);
    assert Morphology(b1, p2) == Morphology(b1, p1);
  }

  /** The whole pipeline is antitone in the threshold: the noise map does not depend on it. */
  lemma BuildMaskThresholdAntitone(img: Image, ratio: real, p1: Params, p2: Params)
    requires IsRect(img) && ratio > 0.0
    requires p1.threshold <= p2.threshold && p1.boxsize == p2.boxsize
    requires p1.dilate == p2.dilate && p1.fillHoles == p2.fillHoles
    ensures Subset(BuildMask(img, ratio, p2).mask, BuildMask(img, ratio, p1).mask)
  {
    var noise := NoiseMap.MakeNoiseMap(img, p1.boxsize, ratio);
    NoiseMap.MakeNoiseMapBounds(img, p1.boxsize, ratio);
    MaskThresholdAntitone(img, noise, p1, p2);
  }

  /**
   Border suppression runs before dilation, so one dilation pass can set a
   border pixel again: the centre of a 3-by-3 image above the threshold
   spreads to the middle of the top row.
   */
  lemma DilationCanMarkBorder()
    ensures var img := [[0.0, 0.0, 0.0], [0.0, 1.0, 0.0], [0.0, 0.0, 0.0]];
            var noise := [[0.0, 0.0, 0.0], [0.0, 0.0, 0.0], [0.0, 0.0, 0.0]];
            MaskFromNoise(img, noise, Params(0.5, 3, 1, false))[0][1]
  {
    var img := [[0.0, 0.0, 0.0], [0.0, 1.0, 0.0], [0.0, 0.0, 0.0]];
    var noise := [[0.0, 0.0, 0.0], [0.0, 0.0, 0.0], [0.0, 0.0, 0.0]];
    var raw := Masking.Threshold(img, noise, 0.5);
    var bordered := Masking.SuppressBorder(raw);
    assert bordered[1][1];
    Dilation.DilateUnfold(bordered, 1);
    assert Dilation.DilatedAt(bordered, 0, 1);
  }

  /**
   An all-zero image gives an all-zero noise map: the window minima are 0,
   -0/ratio is not below 0 so the floor guard keeps it, and the median is 0.
   */
  lemma ZeroImageNoise(img: Image, boxsize: int, ratio: real)
    requires IsRect(img) && ratio > 0.0
    requires forall i, j :: InGrid(img, i, j) ==> img[i][j] == 0.0
    ensures NoiseMap.MakeNoiseMap(img, boxsize, ratio) == Constant(|img|, Width(img), 0.0)
  {
    var b := NoiseMap.WindowSide(boxsize);
    var raw := NoiseMap.RawNoise(img, b, ratio);
    ZeroImageRawNoise(img, b, ratio);
    var floored := NoiseMap.FloorGuard(raw);
    ZeroFloorGuard(raw);
    ZeroGridMedian(floored);
    ZeroMedianClamp(floored);
  }

  /** The floor guard keeps zeros. */
  lemma ZeroFloorGuard(n: Image)
    requires IsRect(n)
    requires forall i, j :: InGrid(n, i, j) ==> n[i][j] == 0.0
    ensures forall i, j :: InGrid(n, i, j) ==> NoiseMap.FloorGuard(n)[i][j] == 0.0
  {
  }

  /** Clamping an all-zero grid at 0 gives the all-zero grid. */
  lemma ZeroMedianClamp(n: Image)
    requires IsRect(n)
    requires forall i, j :: InGrid(n, i, j) ==> n[i][j] == 0.0
    ensures NoiseMap.MedianClamp(n, 0.0) == Constant(|n|, Width(n), 0.0)
  {
    GridExtensionality(NoiseMap.MedianClamp(n, 0.0), Constant(|n|, Width(n), 0.0));
  }

  /** Every window of an all-zero image has minimum 0, and -0/ratio is 0. */
  lemma ZeroImageRawNoise(img: Image, b: int, ratio: real)
    requires IsRect(img) && ratio > 0.0 && b >= 1
    requires forall i, j :: InGrid(img, i, j) ==> img[i][j] == 0.0
    ensures forall i, j :: InGrid(img, i, j) ==> NoiseMap.RawNoise(img, b, ratio)[i][j] == 0.0
  {
    forall i, j | InGrid(img, i, j)
      ensures NoiseMap.RawNoiseAt(img, b, ratio, i, j) == 0.0
    {
      var u, v :| 0 <= u < b && 0 <= v < b && NoiseMap.RawNoiseAt(img, b, ratio, i, j) == -NoiseMap.Sample(img, b, i, j, u, v) / ratio;
      var r, c := NoiseMap.Reflect(i - b / 2 + u, |img|), NoiseMap.Reflect(j - b / 2 + v, Width(img));
      assert InGrid(img, r, c);
      assert NoiseMap.Sample(img, b, i, j, u, v) == 0.0;
      ZeroOver(ratio);
    }
  }

  /** The median of an all-zero grid is 0. */
  lemma ZeroGridMedian(n: Image)
    requires IsRect(n)
    requires forall i, j :: InGrid(n, i, j) ==> n[i][j] == 0.0
    ensures NoiseMap.GridMedian(n) == 0.0
  {
  }

  lemma ZeroOver(ratio: real)
    requires ratio > 0.0
    ensures -0.0 / ratio == 0.0
  {
  }

  /** With an all-zero image and noise map no pixel exceeds threshold times 0, so every mask stage yields all false. */
  lemma ZeroImageMask(img: Image, p: Params)
    requires IsRect(img)
    requires forall i, j :: InGrid(img, i, j) ==> img[i][j] == 0.0
    ensures MaskFromNoise(img, Constant(|img|, Width(img), 0.0), p) == Constant(|img|, Width(img), false)
  {
    var noise := Constant(|img|, Width(img), 0.0);
    var raw := Masking.Threshold(img, noise, p.threshold);
    assert forall i, j :: InGrid(img, i, j) ==> !raw[i][j];
    var bordered := Masking.SuppressBorder(raw);
    assert forall a, b :: InGrid(img, a, b) ==> !bordered[a][b];
    MorphologyOfEmpty(bordered, p);
    GridExtensionality(MaskFromNoise(img, noise, p), Constant(|img|, Width(img), false));
  }

  /** An all-zero image: an all-zero noise map (not the floor value) and an empty mask. */
  lemma ZeroImage(img: Image, ratio: real, p: Params)
    requires IsRect(img) && ratio > 0.0
    requires forall i, j :: InGrid(img, i, j) ==> img[i][j] == 0.0
    ensures BuildMask(img, ratio, p) == Products(Constant(|img|, Width(img), 0.0), Constant(|img|, Width(img), false))
  {
    ZeroImageNoise(img, p.boxsize, ratio);
    ZeroImageMask(img, p);
  }
}
