/** Machine integers of the 32-bit kernel, written out over unbounded integers. */
module Words {
  const TWO32: nat := 0x1_0000_0000

  type u8 = x: int | 0 <= x < 0x100
  type u32 = x: int | 0 <= x < 0x1_0000_0000

  /** Truncation to 32 bits: what every uint32_t addition or subtraction does. */
  function Wrap(x: int): u32 {
    x % 0x1_0000_0000
  }

  function Repeat<T>(x: T, n: nat): (r: seq<T>)
    ensures |r| == n && forall i | 0 <= i < n :: r[i] == x
  {
    if n == 0 then [] else Repeat(x, n - 1) + [x]
  }

  /** The word with its lowest byte replaced (a uint8_t store into a word). */
  function SetLow(w: u32, v: u8): u32 {
    w - w % 0x100 + v
  }

  /** Byte `lane` of a little-endian word. */
  function Lane(w: u32, lane: nat): u8
    requires lane < 4
  {
    if lane == 0 then w % 0x100
    else if lane == 1 then w / 0x100 % 0x100
    else if lane == 2 then w / 0x1_0000 % 0x100
    else w / 0x100_0000
  }

  function Join(b0: u8, b1: u8, b2: u8, b3: u8): u32 {
    b0 + 0x100 * (b1 + 0x100 * (b2 + 0x100 * b3))
  }

  lemma LanesOfJoin(b0: u8, b1: u8, b2: u8, b3: u8)
    ensures Lane(Join(b0, b1, b2, b3), 0) == b0
    ensures Lane(Join(b0, b1, b2, b3), 1) == b1
    ensures Lane(Join(b0, b1, b2, b3), 2) == b2
    ensures Lane(Join(b0, b1, b2, b3), 3) == b3
  {
    var w := Join(b0, b1, b2, b3);
    assert w / 0x100 == b1 + 0x100 * (b2 + 0x100 * b3);
    assert w / 0x1_0000 == b2 + 0x100 * b3;
    assert w / 0x100_0000 == b3;
  }

  /** The word with byte `lane` set to zero. */
  function ClearLane(w: u32, lane: nat): (r: u32)
    requires lane < 4
    ensures Lane(r, lane) == 0
    ensures forall k | 0 <= k < 4 && k != lane :: Lane(r, k) == Lane(w, k)
  {
    var b0, b1, b2, b3 := Lane(w, 0), Lane(w, 1), Lane(w, 2), Lane(w, 3);
    LanesOfJoin(0, b1, b2, b3); LanesOfJoin(b0, 0, b2, b3);
    LanesOfJoin(b0, b1, 0, b3); LanesOfJoin(b0, b1, b2, 0);
    if lane == 0 then Join(0, b1, b2, b3)
    else if lane == 1 then Join(b0, 0, b2, b3)
    else if lane == 2 then Join(b0, b1, 0, b3)
    else Join(b0, b1, b2, 0)
  }

  /** The lanes of a word recompose it. */
  lemma JoinOfLanes(w: u32)
    ensures Join(Lane(w, 0), Lane(w, 1), Lane(w, 2), Lane(w, 3)) == w
  {
    assert w / 0x1_0000 == w / 0x100 / 0x100 && w / 0x100_0000 == w / 0x100 / 0x100 / 0x100;
  }
}
