/** `ncine::Color` (src/graphics/Color.cpp): a colour held as four
    `unsigned char` channels, red, green, blue and alpha, in a fixed array
    `channels_` that the setters overwrite in place. */
module Colors {
  import opened Ints

  /** The channels that `set(red, green, blue, alpha)` stores: each argument
      reduced to its low 8 bits. */
  function Truncated(red: u32, green: u32, blue: u32, alpha: u32): (r: seq<u8>)
    ensures |r| == 4
    ensures r[0] as int == red as int % 0x100 && r[1] as int == green as int % 0x100
    ensures r[2] as int == blue as int % 0x100 && r[3] as int == alpha as int % 0x100
  {
    [TruncateToByte(red), TruncateToByte(green), TruncateToByte(blue), TruncateToByte(alpha)]
  }

  /** Values that already fit in a byte are stored as they are, so setting a
      colour to the channels of another reproduces them exactly. */
  lemma TruncatedBytes(c: seq<u8>)
    requires |c| == 4
    ensures Truncated(c[0] as u32, c[1] as u32, c[2] as u32, c[3] as u32) == c
  {
    var r := Truncated(c[0] as u32, c[1] as u32, c[2] as u32, c[3] as u32);
    assert r[0] == c[0] && r[1] == c[1] && r[2] == c[2] && r[3] == c[3];
  }

  /** Arguments that agree modulo 256 give the same colour: only the low
      8 bits of each argument matter. */
  lemma TruncatedLowBits(red: u32, green: u32, blue: u32, alpha: u32, red': u32, green': u32, blue': u32, alpha': u32)
    requires red as int % 0x100 == red' as int % 0x100 && green as int % 0x100 == green' as int % 0x100
    requires blue as int % 0x100 == blue' as int % 0x100 && alpha as int % 0x100 == alpha' as int % 0x100
    ensures Truncated(red, green, blue, alpha) == Truncated(red', green', blue', alpha')
  {
    var r, r' := Truncated(red, green, blue, alpha), Truncated(red', green', blue', alpha');
    assert r[0] == r'[0] && r[1] == r'[1] && r[2] == r'[2] && r[3] == r'[3];
  }

  class Color {
    const channels: array<u8>

    /** `channels_` has its four entries. */
    ghost predicate Valid()
      reads this
    {
      channels.Length == 4
    }

    /** `Color()`: opaque white, through `set(255, 255, 255, 255)`. */
    constructor ()
      ensures Valid() && fresh(channels) && channels[..] == [255, 255, 255, 255]
    {
      channels := new u8[4];
      new;
      Set(255, 255, 255, 255);
    }

    /** `Color(red, green, blue)`: delegates with an alpha of 255. */
    constructor Rgb(red: u32, green: u32, blue: u32)
      ensures Valid() && fresh(channels) && channels[..] == Truncated(red, green, blue, 255)
    {
      channels := new u8[4];
      new;
      Set(red, green, blue, 255);
    }

    /** `Color(red, green, blue, alpha)`: through `set`. */
    constructor Rgba(red: u32, green: u32, blue: u32, alpha: u32)
      ensures Valid() && fresh(channels) && channels[..] == Truncated(red, green, blue, alpha)
    {
      channels := new u8[4];
      new;
      Set(red, green, blue, alpha);
    }

    /** `Color(const unsigned int channels[4])`: through `setVec`. */
    constructor FromArray(values: array<u32>)
      requires values.Length >= 4
      ensures Valid() && fresh(channels) && channels[..] == Truncated(values[0], values[1], values[2], values[3])
    {
      channels := new u8[4];
      new;
      SetVec(values);
    }

    /** `set(red, green, blue, alpha)`: writes the four channels, each
        truncated to a byte. */
    method Set(red: u32, green: u32, blue: u32, alpha: u32)
      requires Valid()
      modifies channels
      ensures channels[..] == Truncated(red, green, blue, alpha)
    {
      channels[0] := TruncateToByte(red);
      channels[1] := TruncateToByte(green);
      channels[2] := TruncateToByte(blue);
      channels[3] := TruncateToByte(alpha);
    }

    /** `set(red, green, blue)`: `set` with an alpha of 255. */
    method SetRgb(red: u32, green: u32, blue: u32)
      requires Valid()
      modifies channels
      ensures channels[..] == Truncated(red, green, blue, 255) && channels[3] == 255
    {
      Set(red, green, blue, 255);
    }

    /** `setVec(channels)`: `set` from the first four entries of an array. */
    method SetVec(values: array<u32>)
      requires Valid() && values.Length >= 4
      modifies channels
      ensures channels[..] == Truncated(values[0], values[1], values[2], values[3])
    {
      Set(values[0], values[1], values[2], values[3]);
    }

    /** `setAlpha(alpha)`: writes the alpha channel only. */
    method SetAlpha(alpha: u32)
      requires Valid()
      modifies channels
      ensures channels[..] == old(channels[..3]) + [TruncateToByte(alpha)]
    {
      channels[3] := TruncateToByte(alpha);
    }

    /** `operator==`: channel by channel. */
    function Equals(other: Color): (r: bool)
      requires Valid() && other.Valid()
      reads this, channels, other, other.channels
      ensures r <==> channels[..] == other.channels[..]
    {
      channels[0] == other.channels[0] && channels[1] == other.channels[1] &&
      channels[2] == other.channels[2] && channels[3] == other.channels[3]
    }
  }

  /** Every colour equals itself. */
  lemma EqualsReflexive(c: Color)
    requires c.Valid()
    ensures c.Equals(c)
  {
  }

  /** Equality does not depend on the order of its operands. */
  lemma EqualsSymmetric(c: Color, d: Color)
    requires c.Valid() && d.Valid()
    ensures c.Equals(d) <==> d.Equals(c)
  {
  }

  /** Equality is transitive. */
  lemma EqualsTransitive(c: Color, d: Color, e: Color)
    requires c.Valid() && d.Valid() && e.Valid()
    requires c.Equals(d) && d.Equals(e)
    ensures c.Equals(e)
  {
  }

  /** `Color::Black`. */
  method Black() returns (c: Color)
    ensures fresh(c) && fresh(c.channels) && c.Valid() && c.channels[..] == [0, 0, 0, 255]
  {
    c := new Color.Rgba(0, 0, 0, 255);
  }

  /** `Color::White`. */
  method White() returns (c: Color)
    ensures fresh(c) && fresh(c.channels) && c.Valid() && c.channels[..] == [255, 255, 255, 255]
  {
    c := new Color.Rgba(255, 255, 255, 255);
  }

  /** `Color::Red`. */
  method Red() returns (c: Color)
    ensures fresh(c) && fresh(c.channels) && c.Valid() && c.channels[..] == [255, 0, 0, 255]
  {
    c := new Color.Rgba(255, 0, 0, 255);
  }

  /** `Color::Green`. */
  method Green() returns (c: Color)
    ensures fresh(c) && fresh(c.channels) && c.Valid() && c.channels[..] == [0, 255, 0, 255]
  {
    c := new Color.Rgba(0, 255, 0, 255);
  }

  /** `Color::Blue`. */
  method Blue() returns (c: Color)
    ensures fresh(c) && fresh(c.channels) && c.Valid() && c.channels[..] == [0, 0, 255, 255]
  {
    c := new Color.Rgba(0, 0, 255, 255);
  }
}
