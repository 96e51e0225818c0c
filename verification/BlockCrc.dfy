/** The block CRC both sides keep over the bytes of the original input. */
module BlockCrc {
  import opened Bytes
  import opened Words

  function Octet(ch: byte): bv8 {
    ch as bv8
  }

  function Index(b: bv8): byte {
    b as int
  }

  /** What the table is read at. */
  function Entry(crc: bv32, b: bv8): bv8 {
    ((crc >> 24) as bv8) ^ b
  }

  /** BZ_UPDATE_CRC: one step, most significant bit first, for a table of 256 words. */
  function UpdateCrc(table: seq<bv32>, crc: bv32, ch: byte): bv32
    requires |table| == 256
  {
    Xor(LeftBy(crc, 8), table[Index(Entry(crc, Octet(ch)))])
  }

  /** BZ_FINALISE_CRC */
  function FinaliseCrc(crc: bv32): bv32 {
    !crc
  }

  ghost function CrcOf(table: seq<bv32>, crc: bv32, s: seq<byte>): bv32
    requires |table| == 256
  {
    if |s| == 0 then crc else UpdateCrc(table, CrcOf(table, crc, s[..|s| - 1]), s[|s| - 1])
  }

  lemma {:induction false} CrcOfConcat(table: seq<bv32>, crc: bv32, s: seq<byte>, s': seq<byte>)
    requires |table| == 256
    ensures CrcOf(table, crc, s + s') == CrcOf(table, CrcOf(table, crc, s), s')
    decreases |s'|
  {
    if |s'| == 0 {
      assert s + s' == s;
    } else {
      var i := |s'| - 1;
      assert (s + s')[..|s + s'| - 1] == s + s'[..i];
      CrcOfConcat(table, crc, s, s'[..i]);
    }
  }
}
