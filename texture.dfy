/** The renderer's texture handle, which this model treats as an external
    sink for a finished buffer. */
module Textures {
  import opened Bytes

  /** What `nitro::Texture::create_from_data` receives: width, height, number
      of channels and the row-major bytes. */
  datatype Texture = Texture(width: nat, height: nat, channels: nat, data: seq<byte>)

  /** `nitro::Texture::create_from_data(w, h, channels, data)`. The sink
      expects exactly `w*h*channels` bytes; the callers must supply them. */
  function CreateFromData(width: nat, height: nat, channels: nat, data: seq<byte>): Texture
    requires |data| == width * height * channels
  {
    Texture(width, height, channels, data)
  }
}
