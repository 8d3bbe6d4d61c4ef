/**
 The raw detection mask and the suppression of its outermost ring
 (`main`, lines 103-108).
 */
module Masking {
  import opened Grids

  /** Line 103: a pixel is detected when it exceeds `threshold` times its local noise. */
  function Threshold(img: Image, noise: Image, threshold: real): (m: Mask)
    requires SameShape(img, noise)
    ensures SameShape(img, m)
    ensures forall i, j :: InGrid(img, i, j) ==> (m[i][j] <==> img[i][j] > threshold * noise[i][j])
  {
    seq(|img|, i requires 0 <= i < |img| =>
      seq(Width(img), j requires 0 <= j < Width(img) => img[i][j] > threshold * noise[i][j]))
  }

  /** With a non-negative noise map, raising the threshold can only drop detections. */
  lemma ThresholdAntitone(img: Image, noise: Image, t1: real, t2: real)
    requires SameShape(img, noise)
    requires forall i, j :: InGrid(noise, i, j) ==> noise[i][j] >= 0.0
    requires t1 <= t2
    ensures Subset(Threshold(img, noise, t2), Threshold(img, noise, t1))
  {
    var m1, m2 := Threshold(img, noise, t1), Threshold(img, noise, t2);
    forall i, j | 0 <= i < |m2| && 0 <= j < |m2[i]| && m2[i][j]
      ensures m1[i][j]
    {
      assert InGrid(noise, i, j);
      assert (t2 - t1) * noise[i][j] >= 0.0;
    }
  }

  /** Lines 105-108: the first and last column and the first and last row become false. */
  function SuppressBorder(m: Mask): (r: Mask)
    requires IsRect(m)
    ensures SameShape(m, r)
    ensures forall i, j :: InGrid(m, i, j) && OnBorder(m, i, j) ==> !r[i][j]
    ensures forall i, j :: InGrid(m, i, j) && !OnBorder(m, i, j) ==> r[i][j] == m[i][j]
  {
    seq(|m|, i requires 0 <= i < |m| =>
      seq(Width(m), j requires 0 <= j < Width(m) => m[i][j] && !OnBorder(m, i, j)))
  }

  /** Suppression only clears pixels, preserves inclusion between masks, and a second pass changes nothing. */
  lemma SuppressBorderProperties(a: Mask, b: Mask)
    requires IsRect(a) && Subset(a, b)
    ensures Subset(SuppressBorder(a), a)
    ensures Subset(SuppressBorder(a), SuppressBorder(b))
    ensures SuppressBorder(SuppressBorder(a)) == SuppressBorder(a)
  {
    var s := SuppressBorder(a);
    var ss := SuppressBorder(s);
    assert forall i :: 0 <= i < |s| ==> ss[i] == s[i];
  }
}
