/** Decoded pictures and the scaled image buffer they are converted into.
    The pixels themselves belong to the decoder and to the scaler, which are
    outside the model: a picture is known by an identity only, and the buffer
    remembers which picture it last received and at which size. */
module Frames {

  /** Identity of a picture reconstructed by the decoder. */
  type Picture = nat

  /** What an ImageBuffer holds: nothing written yet (the backing memory is
      allocated but never cleared), or one picture scaled to the buffer's size. */
  datatype Image = Uninitialized | Scaled(source: Picture, width: int, height: int)

  /** The fixed-size RGB32 buffer of src/ImageBuffer.hpp. Its size is fixed at
      construction; `Fill` overwrites its contents with a scaled picture. */
  class ImageBuffer {
    const width: int
    const height: int
    var contents: Image
    /** How many times `Fill` has run on this buffer. */
    ghost var fills: nat

    constructor (width: int, height: int)
      ensures this.width == width && this.height == height
      ensures contents == Uninitialized && fills == 0
    {
      this.width := width;
      this.height := height;
      contents := Uninitialized;
      fills := 0;
    }

    /** One scale-and-convert pass of `frame` into the buffer. */
    method Fill(frame: Picture)
      modifies this
      ensures contents == Scaled(frame, width, height)
      ensures fills == old(fills) + 1
    {
      contents := Scaled(frame, width, height);
      fills := fills + 1;
    }
  }
}
