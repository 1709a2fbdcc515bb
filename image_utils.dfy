// Constants and the CLAMP macro of include/image_utils.h.
//
// The source applies CLAMP only to float expressions (contrast, sepia), so it
// is modelled on `real`; the caller's conversion of the clamped float to an
// integer is the truncation `Floor` (the value is never negative).
module ImageUtils {

  /** JPEG_QUALITY: quality passed to the JPEG encoder. */
  const JpegQuality: int := 90

  /** CACHE_BLOCK_SIZE: side of the square tiles grayscale walks. */
  const CacheBlockSize: nat := 32

  /** CLAMP(x): 255 above 255, 0 below 0, x otherwise. */
  function Clamp(x: real): (r: real)
    ensures 0.0 <= r <= 255.0
    ensures 0.0 <= x <= 255.0 ==> r == x
    ensures x > 255.0 ==> r == 255.0
    ensures x < 0.0 ==> r == 0.0
  {
    if x > 255.0 then 255.0 else if x < 0.0 then 0.0 else x
  }

  /** CLAMP is idempotent. */
  lemma ClampIdempotent(x: real)
    ensures Clamp(Clamp(x)) == Clamp(x)
  {
  }

  /** CLAMP is monotone. */
  lemma ClampMonotone(x: real, y: real)
    requires x <= y
    ensures Clamp(x) <= Clamp(y)
  {
  }
}
