/** The `RGBu32` colour of src/lib.rs:323-350: either three 8-bit channels
    packed as 0x00RRGGBB when drawn, or a raw 32-bit pixel drawn as is. */
module Colour {

  datatype RGBu32 = Rgb(red: bv8, green: bv8, blue: bv8) | Pixel(pixel: bv32)
  {
    /** The 32-bit value this colour puts on the canvas. */
    function Value(): (v: bv32)
      ensures Rgb? ==> v < 0x100_0000
      ensures Rgb? ==> (v >> 16) & 0xFF == red as bv32
      ensures Rgb? ==> (v >> 8) & 0xFF == green as bv32
      ensures Rgb? ==> v & 0xFF == blue as bv32
      ensures Pixel? ==> v == pixel
    {
      match this
      case Rgb(r, g, b) => ((r as bv32) << 16) | ((g as bv32) << 8) | (b as bv32)
      case Pixel(p) => p
    }
  }

  const RED: RGBu32 := Pixel(0xff0000)
  const GREEN: RGBu32 := Pixel(0x00ff00)
  const BLUE: RGBu32 := Pixel(0x0000ff)
  const WHITE: RGBu32 := Pixel(0xffffff)
  const YELLOW: RGBu32 := Pixel(0xffff00)

  /** Packing is injective: two channel triples that draw the same value are
      the same triple, so each named constant has exactly one `Rgb` spelling. */
  lemma RgbInjective(c: RGBu32, d: RGBu32)
    requires c.Rgb? && d.Rgb? && c.Value() == d.Value()
    ensures c == d
  {
    assert c.red as bv32 == d.red as bv32;
    assert c.green as bv32 == d.green as bv32;
    assert c.blue as bv32 == d.blue as bv32;
  }

  /** The named constants are the packed forms of their channel triples. */
  lemma NamedColours()
    ensures RED.Value() == Rgb(0xff, 0, 0).Value()
    ensures GREEN.Value() == Rgb(0, 0xff, 0).Value()
    ensures BLUE.Value() == Rgb(0, 0, 0xff).Value()
    ensures WHITE.Value() == Rgb(0xff, 0xff, 0xff).Value()
    ensures YELLOW.Value() == Rgb(0xff, 0xff, 0).Value()
  {
  }
}
