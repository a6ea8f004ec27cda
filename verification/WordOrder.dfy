/** That words are ordered, from halves down to bytes. */
module WordOrder {

  lemma Ordered8(x: bv8, y: bv8)
    ensures x < y || y < x || x == y
  {
  }

  function High16(x: bv16): bv8 { (x >> (8 as bv6)) as bv8 }

  function Low16(x: bv16): bv8 { (x & 0xFF) as bv8 }

  lemma Upper16(x: bv16, y: bv16)
    requires High16(x) < High16(y)
    ensures x < y
  {
  }

  lemma Lower16(x: bv16, y: bv16)
    requires High16(x) == High16(y) && Low16(x) < Low16(y)
    ensures x < y
  {
  }

  lemma Both16(x: bv16, y: bv16)
    requires High16(x) == High16(y) && Low16(x) == Low16(y)
    ensures x == y
  {
  }

  lemma Ordered16(x: bv16, y: bv16)
    ensures x < y || y < x || x == y
  {
    hide High16, Low16;
    Ordered8(High16(x), High16(y));
    Ordered8(Low16(x), Low16(y));
    if High16(x) < High16(y) {
      Upper16(x, y);
    } else if High16(y) < High16(x) {
      Upper16(y, x);
    } else if Low16(x) < Low16(y) {
      Lower16(x, y);
    } else if Low16(y) < Low16(x) {
      Lower16(y, x);
    } else {
      Both16(x, y);
    }
  }

  function High32(x: bv32): bv16 { (x >> (16 as bv6)) as bv16 }

  function Low32(x: bv32): bv16 { (x & 0xFFFF) as bv16 }

  lemma Upper32(x: bv32, y: bv32)
    requires High32(x) < High32(y)
    ensures x < y
  {
  }

  lemma Lower32(x: bv32, y: bv32)
    requires High32(x) == High32(y) && Low32(x) < Low32(y)
    ensures x < y
  {
  }

  lemma Both32(x: bv32, y: bv32)
    requires High32(x) == High32(y) && Low32(x) == Low32(y)
    ensures x == y
  {
  }

  lemma Ordered32(x: bv32, y: bv32)
    ensures x < y || y < x || x == y
  {
    hide High32, Low32;
    Ordered16(High32(x), High32(y));
    Ordered16(Low32(x), Low32(y));
    if High32(x) < High32(y) {
      Upper32(x, y);
    } else if High32(y) < High32(x) {
      Upper32(y, x);
    } else if Low32(x) < Low32(y) {
      Lower32(x, y);
    } else if Low32(y) < Low32(x) {
      Lower32(y, x);
    } else {
      Both32(x, y);
    }
  }
}
