/** The device at the bottom of the stack, as a map from sector number to bytes. */
module Device {
  import opened Base

  type Image = seq<seq<byte>>

  class FlatDevice {
    var sectors: Image

    constructor (sectors: Image)
      ensures this.sectors == sectors
    {
      this.sectors := sectors;
    }
  }
}
