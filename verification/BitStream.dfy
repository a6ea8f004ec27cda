/** Bytes as bits in transmission order, least significant bit first. */
module BitStream {

  function Low(b: bv8): bool { b & 1 != 0 }

  function Next(b: bv8): bv8 { b >> 1 }

  function Bits(b: bv8, k: nat): seq<bool>
    decreases k
  {
    if k == 0 then [] else [Low(b)] + Bits(Next(b), k - 1)
  }

  /** What is left of a byte after `k` bits have gone out. */
  function Rest(b: bv8, k: nat): bv8
    decreases k
  {
    if k == 0 then b else Rest(Next(b), k - 1)
  }

  lemma AllOut(b: bv8)
    ensures Rest(b, 8) == 0
  {
    var b2 := Next(Next(b));
    var b4 := Next(Next(b2));
    var b6 := Next(Next(b4));
    assert Rest(b, 8) == Rest(Next(b), 7) == Rest(b2, 6);
    assert Rest(b2, 6) == Rest(Next(b2), 5) == Rest(b4, 4);
    assert Rest(b4, 4) == Rest(Next(b4), 3) == Rest(b6, 2);
    assert Next(Next(b6)) == 0;
  }

  function Stream(data: seq<bv8>): seq<bool> {
    if data == [] then [] else Bits(data[0], 8) + Stream(data[1..])
  }
}
