/** Frame dimensions (crates/renderer/src/lib.rs:18-42), with the integer widths of a 64-bit target. */
module FrameSizes {
  import opened Options

  const I32_MAX: nat := 0x7FFF_FFFF
  const USIZE_MAX: nat := 0xFFFF_FFFF_FFFF_FFFF

  type u32 = x: int | 0 <= x < 0x1_0000_0000

  datatype FrameSize = FrameSize(width: u32, height: u32) {
    predicate IsEmpty() {
      width == 0 || height == 0
    }

    /** `byte_len`: four bytes a pixel, unless that overflows a `usize`. */
    function ByteLen(): Option<nat> {
      var len := width * height * 4;
      if len <= USIZE_MAX then Some(len) else None
    }
  }
}
