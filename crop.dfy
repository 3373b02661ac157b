/** The dimension and offset choice of `cropImage`: an image wider than the
    screen is cut to the screen's width, else one taller than the screen is
    cut to its height, else it is kept; the cut keeps the image centred. The
    screen size is a parameter (integer pixels). */
module Crop {

  /** Java's `a / 2` on `int`: the quotient rounded toward zero, so the
      remainder is 0, or 1 for a positive and -1 for a negative dividend.
      Dafny's own `/` rounds down instead, which differs for odd negative
      dividends. */
  function JavaHalf(a: int): (q: int)
    ensures a >= 0 ==> a - 2 * q == 0 || a - 2 * q == 1
    ensures a < 0 ==> a - 2 * q == 0 || a - 2 * q == -1
  {
    if a >= 0 then a / 2 else -((-a) / 2)
  }

  /** A cut of an image of `size` pixels down to `screen` pixels, drawn at
      `offset`, keeps the image centred: the image is moved left (or up), it
      still covers the screen, and the part cut off after the screen is the
      part cut off before it, or one pixel more. */
  predicate Centred(offset: int, size: int, screen: int)
  {
    var cutBefore := -offset;
    var cutAfter := size + offset - screen;
    offset <= 0 && cutBefore <= cutAfter <= cutBefore + 1
  }

  /** What `cropImage` does: draw the image into a new `width` by `height`
      image at (`x`, `y`), return it unchanged, or fail with the
      IllegalArgumentException a `BufferedImage` of non-positive size throws. */
  datatype CropResult = Cropped(width: int, height: int, x: int, y: int) | Unchanged | BadSize(width: int, height: int)

  /** `cropImage` on the sizes: only one branch applies, tested width first. */
  function CropImage(imWidth: int, imHeight: int, screenWidth: int, screenHeight: int): (r: CropResult)
    requires imWidth > 0 && imHeight > 0
    ensures imWidth > screenWidth && screenWidth <= 0 ==> r == BadSize(screenWidth, imHeight)
    ensures imWidth > screenWidth && screenWidth > 0 ==>
      r.Cropped? && r.width == screenWidth && r.height == imHeight && r.y == 0 && Centred(r.x, imWidth, screenWidth)
    ensures imWidth <= screenWidth && imHeight > screenHeight && screenHeight <= 0 ==> r == BadSize(imWidth, screenHeight)
    ensures imWidth <= screenWidth && imHeight > screenHeight && screenHeight > 0 ==>
      r.Cropped? && r.width == imWidth && r.height == screenHeight && r.x == 0 && Centred(r.y, imHeight, screenHeight)
    ensures imWidth <= screenWidth && imHeight <= screenHeight ==> r == Unchanged
  {
    if imWidth > screenWidth then
      if screenWidth <= 0 then BadSize(screenWidth, imHeight)
      else
        var x := JavaHalf(screenWidth - imWidth);
        Cropped(screenWidth, imHeight, x, 0)
    else if imHeight > screenHeight then
      if screenHeight <= 0 then BadSize(imWidth, screenHeight)
      else
        var y := JavaHalf(screenHeight - imHeight);
        Cropped(imWidth, screenHeight, 0, y)
    else Unchanged
  }

  /** At most one offset keeps the image centred, so the contract of
      `CropImage` determines its result. */
  lemma CentredUnique(o1: int, o2: int, size: int, screen: int)
    requires Centred(o1, size, screen) && Centred(o2, size, screen)
    ensures o1 == o2
  {
  }

  /** A cropped image never grows, and it fits the screen in the dimension
      that was cut. */
  lemma CropFits(imWidth: int, imHeight: int, screenWidth: int, screenHeight: int)
    requires imWidth > 0 && imHeight > 0
    requires CropImage(imWidth, imHeight, screenWidth, screenHeight).Cropped?
    ensures var r := CropImage(imWidth, imHeight, screenWidth, screenHeight);
      0 < r.width <= imWidth && 0 < r.height <= imHeight &&
      (r.width <= screenWidth || r.height <= screenHeight)
  {
  }
}
