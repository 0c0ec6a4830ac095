/** Pixel intensities shared by the greyscale images and the colour video
    frames: one 8-bit channel runs from 0 (dark) to 255 (bright). */
module Pixels {
  /** The brightest value of an 8-bit channel. */
  const Greyscale: int := 255
}
