/**
 * The quantization tables of the three quality levels of
 * tje_encode_with_func: level 3 divides by 1 everywhere, level 2 uses the
 * default tables divided by 10, level 1 the default tables as they are; a
 * quotient of 0 is raised to 1.
 */
module Quality {
  import opened BitStream
  import opened JpegTables

  /** The table a quality level in 1..3 stores for a default table `base`. */
  function TierTable(base: seq<uint8>, quality: int): (qt: seq<uint8>)
    requires |base| == 64 && 1 <= quality <= 3
    ensures |qt| == 64 && forall i :: 0 <= i < 64 ==> 1 <= qt[i]
  {
    if quality == 3 then seq(64, _ => 1)
    else
      var factor: uint8 := if quality == 2 then 10 else 1;
      seq(64, i requires 0 <= i < 64 => if base[i] / factor == 0 then 1 else base[i] / factor)
  }

  /**
   * A higher quality never divides by more: level 3 stores 1 everywhere,
   * which is at most what level 2 stores, which is at most what level 1
   * stores.
   */
  lemma TierOrder(base: seq<uint8>)
    requires |base| == 64
    ensures forall i :: 0 <= i < 64 ==> TierTable(base, 3)[i] == 1
    ensures forall i :: 0 <= i < 64 ==>
      TierTable(base, 3)[i] <= TierTable(base, 2)[i] <= TierTable(base, 1)[i]
  {
    forall i | 0 <= i < 64
      ensures TierTable(base, 3)[i] <= TierTable(base, 2)[i] <= TierTable(base, 1)[i]
    {
      assert base[i] / 10 <= base[i];
    }
  }

  /**
   * On the default tables, whose entries are all at least 10, the raise to 1
   * never fires: level 1 stores the table itself and level 2 the quotients
   * by 10 exactly.
   */
  lemma DefaultTiers()
    ensures TierTable(QtLumaFromSpec, 1) == QtLumaFromSpec && TierTable(QtChromaFromPaper, 1) == QtChromaFromPaper
    ensures forall i :: 0 <= i < 64 ==>
      TierTable(QtLumaFromSpec, 2)[i] == QtLumaFromSpec[i] / 10 && TierTable(QtChromaFromPaper, 2)[i] == QtChromaFromPaper[i] / 10
  {
    DefaultQtAtLeastTen();
  }
}
