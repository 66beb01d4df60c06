/** The white-to-transparent rule of remove_bg.py, on the image's RGBA pixels in order. */
module RemoveBackground {
  newtype Byte = x: int | 0 <= x < 256

  datatype Pixel = Pixel(r: Byte, g: Byte, b: Byte, a: Byte)

  const DefaultThreshold: int := 240

  const Transparent: Pixel := Pixel(255, 255, 255, 0)

  predicate IsBackground(p: Pixel, threshold: int)
  {
    p.r as int >= threshold && p.g as int >= threshold && p.b as int >= threshold
  }

  /** One pixel: light enough in all three colours becomes transparent white, anything else stays. */
  function Cleared(p: Pixel, threshold: int): Pixel
  {
    if IsBackground(p, threshold) then Transparent else p
  }

  function ClearedAll(data: seq<Pixel>, threshold: int): (r: seq<Pixel>)
    ensures |r| == |data|
    ensures forall k :: 0 <= k < |data| ==> r[k] == Cleared(data[k], threshold)
  {
    seq(|data|, k requires 0 <= k < |data| => Cleared(data[k], threshold))
  }

  /** The loop building `new_data`. */
  method RemoveWhiteBackground(data: seq<Pixel>, threshold: int) returns (out: seq<Pixel>)
    ensures out == ClearedAll(data, threshold)
  {
    out := [];
    for i := 0 to |data|
      invariant |out| == i
      invariant forall k :: 0 <= k < i ==> out[k] == Cleared(data[k], threshold)
    {
      if data[i].r as int >= threshold && data[i].g as int >= threshold && data[i].b as int >= threshold {
        out := out + [Transparent];
      } else {
        out := out + [data[i]];
      }
    }
  }

  /** A pixel is background exactly when it comes out changed or was already transparent white. */
  lemma ClearedChanges(p: Pixel, threshold: int)
    ensures Cleared(p, threshold) != p ==> IsBackground(p, threshold) && p != Transparent
    ensures IsBackground(p, threshold) ==> Cleared(p, threshold) == Transparent
    ensures !IsBackground(p, threshold) ==> Cleared(p, threshold) == p
  {
  }

  /**
   * Running the rule twice equals running it once, for every threshold: up to 255 the
   * transparent white is itself background, and above 255 no pixel is.
   */
  lemma ClearedAllIdempotent(data: seq<Pixel>, threshold: int)
    ensures ClearedAll(ClearedAll(data, threshold), threshold) == ClearedAll(data, threshold)
  {
    var once := ClearedAll(data, threshold);
    forall k | 0 <= k < |data| ensures Cleared(once[k], threshold) == once[k] {
      if IsBackground(data[k], threshold) {
        assert threshold <= 255;
      }
    }
  }
}
