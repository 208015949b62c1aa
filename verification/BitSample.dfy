/** One .bit header, byte for byte. */
module BitSample {
  import opened Bits
  import opened BitHeader

  /** A header as Xilinx tools write it, byte for byte. */
  const SAMPLE: seq<byte> :=
    [0x00, 0x09] + ([0x0F, 0xF0, 0x0F, 0xF0, 0x0F, 0xF0, 0x0F, 0xF0] + ([0x00, 0x00, 0x01] +
    ([0x61, 0x00, 0x02, 0x78, 0x00] + ([0x62, 0x00, 0x02, 0x79, 0x00] +
    ([0x63, 0x00, 0x02, 0x7A, 0x00] + ([0x64, 0x00, 0x02, 0x74, 0x00] +
    ([0x65, 0x01, 0x02, 0x03, 0x04] + [])))))))

  const SAMPLE_HEADER := Header(9, [0x78, 0x00], [0x79, 0x00], [0x7A, 0x00], [0x74, 0x00], 0x0102_0304)

  lemma {:induction false} SampleMagic()
    ensures Magic(0, 8) == [0x0F, 0xF0, 0x0F, 0xF0, 0x0F, 0xF0, 0x0F, 0xF0]
  {
    assert Magic(8, 8) == [] && Magic(7, 8) == [0xF0] && Magic(6, 8) == [0x0F, 0xF0];
    assert Magic(4, 8) == [0x0F, 0xF0, 0x0F, 0xF0] by { assert Magic(5, 8) == [0xF0, 0x0F, 0xF0]; }
    assert Magic(2, 8) == [0x0F, 0xF0, 0x0F, 0xF0, 0x0F, 0xF0] by { assert Magic(3, 8) == [0xF0, 0x0F, 0xF0, 0x0F, 0xF0]; }
    assert Magic(1, 8) == [0xF0, 0x0F, 0xF0, 0x0F, 0xF0, 0x0F, 0xF0];
  }

  /** The parser reads that header, whatever follows it. */
  lemma {:induction false} SampleParses(rest: seq<byte>)
    ensures Parse(SAMPLE + rest) == Parsed(SAMPLE_HEADER, 38)
  {
    SamplePrints();
    ParsesWhatWasPrinted(SAMPLE_HEADER, 0, rest);
  }

  lemma {:induction false} SamplePrints()
    ensures Print(SAMPLE_HEADER, 0) == SAMPLE
  {
    var h := SAMPLE_HEADER;
    SampleMagic();
    assert Tail(h) == [0x65, 0x01, 0x02, 0x03, 0x04];
    assert TimesThen(h, []) == [0x63, 0x00, 0x02, 0x7A, 0x00] + ([0x64, 0x00, 0x02, 0x74, 0x00] + ([0x65, 0x01, 0x02, 0x03, 0x04] + []));
    assert Be16(9) == [0x00, 0x09];
  }

}
