/**
  Check values of the nine ASCII bytes "123456789", the customary check
  input of the Rocksoft model, for eight variants:
  - CRC-8/SMBUS and CRC-16/XMODEM reflect nothing;
  - CRC-8/SAE-J1850 and CRC-8/ITU reflect nothing and have a nonzero initial
    value or xor-out value;
  - CRC-8/MAXIM and CRC-8/ROHC reflect input and output, CRC-8/ROHC from
    the initial value 0xff;
  - CRC-12/DECT reflects nothing and CRC-12/UMTS only the output, both with polynomial 0x80f.
  The intermediate registers are the ones the byte loop passes through.
*/
module KnownAnswers {
  import opened Bits
  import opened Wrappers
  import opened CrcParameters
  import opened CrcEngine

  /** The ASCII bytes of "123456789". */
  const CheckInput: seq<Byte> := [0x31, 0x32, 0x33, 0x34, 0x35, 0x36, 0x37, 0x38, 0x39]

  const Dect: Parameters := Parameters(12, 0x80f, 0, 0, false, false)
  const Umts: Parameters := Parameters(12, 0x80f, 0, 0, false, true)

  /** The table entries the check input visits. */
  lemma DectEntries()
    ensures Dect.Valid()
    ensures TableEntry(Dect, 0x31) == 0x9ef
    ensures TableEntry(Dect, 0xac) == 0x438
    ensures TableEntry(Dect, 0x80) == 0xd05
    ensures TableEntry(Dect, 0x64) == 0xbed
    ensures TableEntry(Dect, 0xdb) == 0x76e
    ensures TableEntry(Dect, 0x90) == 0x5a0
    ensures TableEntry(Dect, 0x8d) == 0x572
    ensures TableEntry(Dect, 0x6f) == 0x3a6
    ensures TableEntry(Dect, 0x23) == 0x95b
  {
  }

  /** One register update per byte of the check input, given the entries it visits. */
  lemma DectUpdates(t: seq<bv64>)
    requires Dect.Valid() && |t| == 256
    requires t[0x31] == 0x9ef
    requires t[0xac] == 0x438
    requires t[0x80] == 0xd05
    requires t[0x64] == 0xbed
    requires t[0xdb] == 0x76e
    requires t[0x90] == 0x5a0
    requires t[0x8d] == 0x572
    requires t[0x6f] == 0x3a6
    requires t[0x23] == 0x95b
    ensures UpdateRegister(Dect, t, 0x0, 0x31) == 0x9ef
    ensures UpdateRegister(Dect, t, 0x9ef, 0x32) == 0xb38
    ensures UpdateRegister(Dect, t, 0xb38, 0x33) == 0x505
    ensures UpdateRegister(Dect, t, 0x505, 0x34) == 0xeed
    ensures UpdateRegister(Dect, t, 0xeed, 0x35) == 0xa6e
    ensures UpdateRegister(Dect, t, 0xa6e, 0x36) == 0xba0
    ensures UpdateRegister(Dect, t, 0xba0, 0x37) == 0x572
    ensures UpdateRegister(Dect, t, 0x572, 0x38) == 0x1a6
    ensures UpdateRegister(Dect, t, 0x1a6, 0x39) == 0xf5b
  {
  }

  /** An engine for these parameters holds those entries in its table. */
  lemma DectTable(c: Crc)
    requires c.Valid() && c.parameters == Dect
    ensures c.lookupTable[0x31] == 0x9ef
    ensures c.lookupTable[0xac] == 0x438
    ensures c.lookupTable[0x80] == 0xd05
    ensures c.lookupTable[0x64] == 0xbed
    ensures c.lookupTable[0xdb] == 0x76e
    ensures c.lookupTable[0x90] == 0x5a0
    ensures c.lookupTable[0x8d] == 0x572
    ensures c.lookupTable[0x6f] == 0x3a6
    ensures c.lookupTable[0x23] == 0x95b
  {
    DectEntries();
    LookupTableEntry(c.parameters, 0x31);
    LookupTableEntry(c.parameters, 0xac);
    LookupTableEntry(c.parameters, 0x80);
    LookupTableEntry(c.parameters, 0x64);
    LookupTableEntry(c.parameters, 0xdb);
    LookupTableEntry(c.parameters, 0x90);
    LookupTableEntry(c.parameters, 0x8d);
    LookupTableEntry(c.parameters, 0x6f);
    LookupTableEntry(c.parameters, 0x23);
  }

  /** The check input in three parts of three bytes. */
  lemma CheckInputThirds()
    ensures CheckInput[..3] == [0x31, 0x32, 0x33]
    ensures CheckInput[3..6] == [0x34, 0x35, 0x36]
    ensures CheckInput[6..] == [0x37, 0x38, 0x39]
    ensures CheckInput == CheckInput[..3] + CheckInput[3..6] + CheckInput[6..]
  {
  }

  /** Three register updates in a row are the fold of the three bytes. */
  lemma ThreeUpdates(p: Parameters, t: seq<bv64>, r0: bv64, r1: bv64, r2: bv64, r3: bv64, a: Byte, b: Byte, d: Byte)
    requires p.Valid() && |t| == 256
    requires UpdateRegister(p, t, r0, a) == r1
    requires UpdateRegister(p, t, r1, b) == r2
    requires UpdateRegister(p, t, r2, d) == r3
    ensures Fold(p, t, r0, [a, b, d]) == r3
  {
    assert [a][..0] == [];
    assert Fold(p, t, r0, [a]) == r1;
    assert [a, b][..1] == [a];
    assert Fold(p, t, r0, [a, b]) == r2;
    assert [a, b, d][..2] == [a, b];
  }

  /**
    Nine register updates in a row, one per byte of the check input, are
    the fold of the check input.
  */
  lemma NineUpdates(p: Parameters, t: seq<bv64>,
                    r0: bv64, r1: bv64, r2: bv64, r3: bv64, r4: bv64, r5: bv64, r6: bv64, r7: bv64, r8: bv64, r9: bv64)
    requires p.Valid() && |t| == 256
    requires UpdateRegister(p, t, r0, 0x31) == r1
    requires UpdateRegister(p, t, r1, 0x32) == r2
    requires UpdateRegister(p, t, r2, 0x33) == r3
    requires UpdateRegister(p, t, r3, 0x34) == r4
    requires UpdateRegister(p, t, r4, 0x35) == r5
    requires UpdateRegister(p, t, r5, 0x36) == r6
    requires UpdateRegister(p, t, r6, 0x37) == r7
    requires UpdateRegister(p, t, r7, 0x38) == r8
    requires UpdateRegister(p, t, r8, 0x39) == r9
    ensures Fold(p, t, r0, CheckInput) == r9
  {
    ThreeUpdates(p, t, r0, r1, r2, r3, 0x31, 0x32, 0x33);
    ThreeUpdates(p, t, r3, r4, r5, r6, 0x34, 0x35, 0x36);
    ThreeUpdates(p, t, r6, r7, r8, r9, 0x37, 0x38, 0x39);
    var a, b, d := CheckInput[..3], CheckInput[3..6], CheckInput[6..];
    CheckInputThirds();
    FoldAppend(p, t, r0, a, b);
    FoldAppend(p, t, r0, a + b, d);
  }

  /** The CRC-12/DECT register after the whole check input. */
  lemma DectRegister(c: Crc)
    requires c.Valid() && c.parameters == Dect
    ensures Fold(c.parameters, c.lookupTable, 0, CheckInput) == 0xf5b
  {
    DectTable(c);
    DectUpdates(c.lookupTable);
    NineUpdates(c.parameters, c.lookupTable, 0, 0x9ef, 0xb38, 0x505, 0xeed, 0xa6e, 0xba0, 0x572, 0x1a6, 0xf5b);
  }

  /** The check values in their byte form, least significant byte first. */
  lemma CheckValueBytes()
    ensures EncodeCheckValue(0xf5b, 12) == [0x5b, 0x0f]
    ensures EncodeCheckValue(0xdaf, 12) == [0xaf, 0x0d]
    ensures EncodeCheckValue(0xf4, 8) == [0xf4]
    ensures EncodeCheckValue(0xa1, 8) == [0xa1]
    ensures EncodeCheckValue(0x31c3, 16) == [0xc3, 0x31]
    ensures EncodeCheckValue(0x4b, 8) == [0x4b]
    ensures EncodeCheckValue(0xd0, 8) == [0xd0]
  {
  }

  /** CRC-12/DECT of "123456789" is 0xf5b, as a number and as the bytes 5b 0f. */
  lemma DectCheckValue(c: Crc)
    requires c.Valid() && c.parameters == Dect
    ensures CalculateAsNumeric(c, Some(CheckInput)) == Success(0xf5b)
    ensures CalculateCheckValue(c, Some(CheckInput)) == Success([0x5b, 0x0f])
  {
    DectRegister(c);
    assert InitialRegister(c.parameters) == 0;
    assert FinalValue(c, CheckInput) == XorOut(0xf5b, 0) == 0xf5b;
    CheckValueBytes();
  }

  /** 0xf5b bit-reversed over twelve bits is 0xdaf. */
  lemma UmtsReflection()
    ensures ReflectBits(0xf5b, 12) == 0xdaf
  {
  }

  /**
    CRC-12/UMTS of "123456789" is 0xdaf, as a number and as the bytes af 0d:
    the same table and register as CRC-12/DECT, reflected at the output.
  */
  lemma UmtsCheckValue(c: Crc)
    requires c.Valid() && c.parameters == Umts
    ensures CalculateAsNumeric(c, Some(CheckInput)) == Success(0xdaf)
    ensures CalculateCheckValue(c, Some(CheckInput)) == Success([0xaf, 0x0d])
  {
    var t := c.lookupTable;
    DectEntries();
    TableInputSide(Umts, Dect);
    DectRegister(Crc(Dect, t));
    FoldInputSide(Umts, Dect, t, 0, CheckInput);
    assert InitialRegister(c.parameters) == 0;
    UmtsReflection();
    assert FinalValue(c, CheckInput) == XorOut(ReflectBits(0xf5b, 12), 0) == 0xdaf;
    CheckValueBytes();
  }

  // ----- CRC-8/SMBUS -----

  const Smbus: Parameters := Parameters(8, 0x07, 0, 0, false, false)

  /** The CRC-8/SMBUS table entries the check input visits. */
  lemma SmbusEntries()
    ensures Smbus.Valid()
    ensures TableEntry(Smbus, 0x31) == 0x97
    ensures TableEntry(Smbus, 0xa5) == 0x72
    ensures TableEntry(Smbus, 0x41) == 0xc0
    ensures TableEntry(Smbus, 0xf4) == 0xc2
    ensures TableEntry(Smbus, 0xf7) == 0xcb
    ensures TableEntry(Smbus, 0xfd) == 0xfd
    ensures TableEntry(Smbus, 0xca) == 0x78
    ensures TableEntry(Smbus, 0x40) == 0xc7
    ensures TableEntry(Smbus, 0xfe) == 0xf4
  {
  }

  /** One CRC-8/SMBUS register update per byte of the check input, given the entries it visits. */
  lemma SmbusUpdates(t: seq<bv64>)
    requires Smbus.Valid() && |t| == 256
    requires t[0x31] == 0x97
    requires t[0xa5] == 0x72
    requires t[0x41] == 0xc0
    requires t[0xf4] == 0xc2
    requires t[0xf7] == 0xcb
    requires t[0xfd] == 0xfd
    requires t[0xca] == 0x78
    requires t[0x40] == 0xc7
    requires t[0xfe] == 0xf4
    ensures UpdateRegister(Smbus, t, 0x0, 0x31) == 0x97
    ensures UpdateRegister(Smbus, t, 0x97, 0x32) == 0x72
    ensures UpdateRegister(Smbus, t, 0x72, 0x33) == 0xc0
    ensures UpdateRegister(Smbus, t, 0xc0, 0x34) == 0xc2
    ensures UpdateRegister(Smbus, t, 0xc2, 0x35) == 0xcb
    ensures UpdateRegister(Smbus, t, 0xcb, 0x36) == 0xfd
    ensures UpdateRegister(Smbus, t, 0xfd, 0x37) == 0x78
    ensures UpdateRegister(Smbus, t, 0x78, 0x38) == 0xc7
    ensures UpdateRegister(Smbus, t, 0xc7, 0x39) == 0xf4
  {
  }

  /** An engine for CRC-8/SMBUS holds those entries in its table. */
  lemma SmbusTable(c: Crc)
    requires c.Valid() && c.parameters == Smbus
    ensures c.lookupTable[0x31] == 0x97
    ensures c.lookupTable[0xa5] == 0x72
    ensures c.lookupTable[0x41] == 0xc0
    ensures c.lookupTable[0xf4] == 0xc2
    ensures c.lookupTable[0xf7] == 0xcb
    ensures c.lookupTable[0xfd] == 0xfd
    ensures c.lookupTable[0xca] == 0x78
    ensures c.lookupTable[0x40] == 0xc7
    ensures c.lookupTable[0xfe] == 0xf4
  {
    SmbusEntries();
    LookupTableEntry(c.parameters, 0x31);
    LookupTableEntry(c.parameters, 0xa5);
    LookupTableEntry(c.parameters, 0x41);
    LookupTableEntry(c.parameters, 0xf4);
    LookupTableEntry(c.parameters, 0xf7);
    LookupTableEntry(c.parameters, 0xfd);
    LookupTableEntry(c.parameters, 0xca);
    LookupTableEntry(c.parameters, 0x40);
    LookupTableEntry(c.parameters, 0xfe);
  }

  /** The CRC-8/SMBUS register after the whole check input. */
  lemma SmbusRegister(c: Crc)
    requires c.Valid() && c.parameters == Smbus
    ensures Fold(c.parameters, c.lookupTable, 0, CheckInput) == 0xf4
  {
    SmbusTable(c);
    SmbusUpdates(c.lookupTable);
    NineUpdates(c.parameters, c.lookupTable, 0x0, 0x97, 0x72, 0xc0, 0xc2, 0xcb, 0xfd, 0x78, 0xc7, 0xf4);
  }

  /** CRC-8/SMBUS (no reflection) of "123456789" is 0xf4, as a number and as the bytes f4. */
  lemma SmbusCheckValue(c: Crc)
    requires c.Valid() && c.parameters == Smbus
    ensures CalculateAsNumeric(c, Some(CheckInput)) == Success(0xf4)
    ensures CalculateCheckValue(c, Some(CheckInput)) == Success([0xf4])
  {
    SmbusRegister(c);
    assert InitialRegister(c.parameters) == 0;
    assert FinalValue(c, CheckInput) == XorOut(0xf4, 0) == 0xf4;
    CheckValueBytes();
  }

  // ----- CRC-8/ITU -----

  const Itu: Parameters := Parameters(8, 0x07, 0, 0x55, false, false)

  /**
    CRC-8/ITU of "123456789" is 0xa1, as a number and as the bytes a1: the
    same table and register as CRC-8/SMBUS, xored with 0x55 at the output.
  */
  lemma ItuCheckValue(c: Crc)
    requires c.Valid() && c.parameters == Itu
    ensures CalculateAsNumeric(c, Some(CheckInput)) == Success(0xa1)
    ensures CalculateCheckValue(c, Some(CheckInput)) == Success([0xa1])
  {
    var t := c.lookupTable;
    SmbusEntries();
    TableInputSide(Itu, Smbus);
    SmbusRegister(Crc(Smbus, t));
    FoldInputSide(Itu, Smbus, t, 0, CheckInput);
    assert InitialRegister(c.parameters) == 0;
    assert FinalValue(c, CheckInput) == XorOut(0xf4, 0x55) == 0xa1;
    CheckValueBytes();
  }

  // ----- CRC-8/SAE-J1850 -----

  const SaeJ1850: Parameters := Parameters(8, 0x1d, 0xff, 0xff, false, false)

  /** The CRC-8/SAE-J1850 table entries the check input visits. */
  lemma SaeJ1850Entries()
    ensures SaeJ1850.Valid()
    ensures TableEntry(SaeJ1850, 0xce) == 0x93
    ensures TableEntry(SaeJ1850, 0xa1) == 0xbc
    ensures TableEntry(SaeJ1850, 0x8f) == 0x9d
    ensures TableEntry(SaeJ1850, 0xa9) == 0x54
    ensures TableEntry(SaeJ1850, 0x61) == 0x89
    ensures TableEntry(SaeJ1850, 0xbf) == 0xd7
    ensures TableEntry(SaeJ1850, 0xe0) == 0xb2
    ensures TableEntry(SaeJ1850, 0x8a) == 0xf4
    ensures TableEntry(SaeJ1850, 0xcd) == 0xb4
  {
  }

  /** One CRC-8/SAE-J1850 register update per byte of the check input, starting from 0xff. */
  lemma SaeJ1850Updates(t: seq<bv64>)
    requires SaeJ1850.Valid() && |t| == 256
    requires t[0xce] == 0x93
    requires t[0xa1] == 0xbc
    requires t[0x8f] == 0x9d
    requires t[0xa9] == 0x54
    requires t[0x61] == 0x89
    requires t[0xbf] == 0xd7
    requires t[0xe0] == 0xb2
    requires t[0x8a] == 0xf4
    requires t[0xcd] == 0xb4
    ensures UpdateRegister(SaeJ1850, t, 0xff, 0x31) == 0x93
    ensures UpdateRegister(SaeJ1850, t, 0x93, 0x32) == 0xbc
    ensures UpdateRegister(SaeJ1850, t, 0xbc, 0x33) == 0x9d
    ensures UpdateRegister(SaeJ1850, t, 0x9d, 0x34) == 0x54
    ensures UpdateRegister(SaeJ1850, t, 0x54, 0x35) == 0x89
    ensures UpdateRegister(SaeJ1850, t, 0x89, 0x36) == 0xd7
    ensures UpdateRegister(SaeJ1850, t, 0xd7, 0x37) == 0xb2
    ensures UpdateRegister(SaeJ1850, t, 0xb2, 0x38) == 0xf4
    ensures UpdateRegister(SaeJ1850, t, 0xf4, 0x39) == 0xb4
  {
  }

  /** An engine for CRC-8/SAE-J1850 holds those entries in its table. */
  lemma SaeJ1850Table(c: Crc)
    requires c.Valid() && c.parameters == SaeJ1850
    ensures c.lookupTable[0xce] == 0x93
    ensures c.lookupTable[0xa1] == 0xbc
    ensures c.lookupTable[0x8f] == 0x9d
    ensures c.lookupTable[0xa9] == 0x54
    ensures c.lookupTable[0x61] == 0x89
    ensures c.lookupTable[0xbf] == 0xd7
    ensures c.lookupTable[0xe0] == 0xb2
    ensures c.lookupTable[0x8a] == 0xf4
    ensures c.lookupTable[0xcd] == 0xb4
  {
    SaeJ1850Entries();
    LookupTableEntry(c.parameters, 0xce);
    LookupTableEntry(c.parameters, 0xa1);
    LookupTableEntry(c.parameters, 0x8f);
    LookupTableEntry(c.parameters, 0xa9);
    LookupTableEntry(c.parameters, 0x61);
    LookupTableEntry(c.parameters, 0xbf);
    LookupTableEntry(c.parameters, 0xe0);
    LookupTableEntry(c.parameters, 0x8a);
    LookupTableEntry(c.parameters, 0xcd);
  }

  /** The CRC-8/SAE-J1850 register after the whole check input, started from the initial value 0xff. */
  lemma SaeJ1850Register(c: Crc)
    requires c.Valid() && c.parameters == SaeJ1850
    ensures Fold(c.parameters, c.lookupTable, 0xff, CheckInput) == 0xb4
  {
    SaeJ1850Table(c);
    SaeJ1850Updates(c.lookupTable);
    NineUpdates(c.parameters, c.lookupTable, 0xff, 0x93, 0xbc, 0x9d, 0x54, 0x89, 0xd7, 0xb2, 0xf4, 0xb4);
  }

  /** CRC-8/SAE-J1850 (initial value and xor-out 0xff) of "123456789" is 0x4b, as a number and as the bytes 4b. */
  lemma SaeJ1850CheckValue(c: Crc)
    requires c.Valid() && c.parameters == SaeJ1850
    ensures CalculateAsNumeric(c, Some(CheckInput)) == Success(0x4b)
    ensures CalculateCheckValue(c, Some(CheckInput)) == Success([0x4b])
  {
    SaeJ1850Register(c);
    assert InitialRegister(c.parameters) == 0xff;
    assert FinalValue(c, CheckInput) == XorOut(0xb4, 0xff) == 0x4b;
    CheckValueBytes();
  }

  // ----- CRC-8/MAXIM -----

  const Maxim: Parameters := Parameters(8, 0x31, 0, 0, true, true)

  /** The CRC-8/MAXIM table entries the check input visits. */
  lemma MaximEntries()
    ensures Maxim.Valid()
    ensures TableEntry(Maxim, 0x31) == 0xe0
    ensures TableEntry(Maxim, 0xd2) == 0xeb
    ensures TableEntry(Maxim, 0xd8) == 0x95
    ensures TableEntry(Maxim, 0xa1) == 0xf1
    ensures TableEntry(Maxim, 0xc4) == 0xab
    ensures TableEntry(Maxim, 0x9d) == 0xec
    ensures TableEntry(Maxim, 0xdb) == 0x77
    ensures TableEntry(Maxim, 0x4f) == 0x7
    ensures TableEntry(Maxim, 0x3e) == 0xa1
  {
  }

  /** One CRC-8/MAXIM register update per byte of the check input, given the entries it visits. */
  lemma MaximUpdates(t: seq<bv64>)
    requires Maxim.Valid() && |t| == 256
    requires t[0x31] == 0xe0
    requires t[0xd2] == 0xeb
    requires t[0xd8] == 0x95
    requires t[0xa1] == 0xf1
    requires t[0xc4] == 0xab
    requires t[0x9d] == 0xec
    requires t[0xdb] == 0x77
    requires t[0x4f] == 0x7
    requires t[0x3e] == 0xa1
    ensures UpdateRegister(Maxim, t, 0x0, 0x31) == 0xe0
    ensures UpdateRegister(Maxim, t, 0xe0, 0x32) == 0xeb
    ensures UpdateRegister(Maxim, t, 0xeb, 0x33) == 0x95
    ensures UpdateRegister(Maxim, t, 0x95, 0x34) == 0xf1
    ensures UpdateRegister(Maxim, t, 0xf1, 0x35) == 0xab
    ensures UpdateRegister(Maxim, t, 0xab, 0x36) == 0xec
    ensures UpdateRegister(Maxim, t, 0xec, 0x37) == 0x77
    ensures UpdateRegister(Maxim, t, 0x77, 0x38) == 0x7
    ensures UpdateRegister(Maxim, t, 0x7, 0x39) == 0xa1
  {
  }

  /** An engine for CRC-8/MAXIM holds those entries in its table. */
  lemma MaximTable(c: Crc)
    requires c.Valid() && c.parameters == Maxim
    ensures c.lookupTable[0x31] == 0xe0
    ensures c.lookupTable[0xd2] == 0xeb
    ensures c.lookupTable[0xd8] == 0x95
    ensures c.lookupTable[0xa1] == 0xf1
    ensures c.lookupTable[0xc4] == 0xab
    ensures c.lookupTable[0x9d] == 0xec
    ensures c.lookupTable[0xdb] == 0x77
    ensures c.lookupTable[0x4f] == 0x7
    ensures c.lookupTable[0x3e] == 0xa1
  {
    MaximEntries();
    LookupTableEntry(c.parameters, 0x31);
    LookupTableEntry(c.parameters, 0xd2);
    LookupTableEntry(c.parameters, 0xd8);
    LookupTableEntry(c.parameters, 0xa1);
    LookupTableEntry(c.parameters, 0xc4);
    LookupTableEntry(c.parameters, 0x9d);
    LookupTableEntry(c.parameters, 0xdb);
    LookupTableEntry(c.parameters, 0x4f);
    LookupTableEntry(c.parameters, 0x3e);
  }

  /** The CRC-8/MAXIM register after the whole check input. */
  lemma MaximRegister(c: Crc)
    requires c.Valid() && c.parameters == Maxim
    ensures Fold(c.parameters, c.lookupTable, 0, CheckInput) == 0xa1
  {
    MaximTable(c);
    MaximUpdates(c.lookupTable);
    NineUpdates(c.parameters, c.lookupTable, 0x0, 0xe0, 0xeb, 0x95, 0xf1, 0xab, 0xec, 0x77, 0x7, 0xa1);
  }

  /** CRC-8/MAXIM (input and output reflected) of "123456789" is 0xa1, as a number and as the bytes a1. */
  lemma MaximCheckValue(c: Crc)
    requires c.Valid() && c.parameters == Maxim
    ensures CalculateAsNumeric(c, Some(CheckInput)) == Success(0xa1)
    ensures CalculateCheckValue(c, Some(CheckInput)) == Success([0xa1])
  {
    MaximRegister(c);
    ReflectZero(8);
    assert InitialRegister(c.parameters) == 0;
    assert FinalValue(c, CheckInput) == XorOut(0xa1, 0) == 0xa1;
    CheckValueBytes();
  }

  // ----- CRC-8/ROHC -----

  const Rohc: Parameters := Parameters(8, 0x07, 0xff, 0, true, true)

  /** The CRC-8/ROHC table entries the check input visits. */
  lemma RohcEntries()
    ensures Rohc.Valid()
    ensures TableEntry(Rohc, 0xce) == 0x7a
    ensures TableEntry(Rohc, 0x48) == 0x7e
    ensures TableEntry(Rohc, 0x4d) == 0xe8
    ensures TableEntry(Rohc, 0xdc) == 0x85
    ensures TableEntry(Rohc, 0xb0) == 0xc4
    ensures TableEntry(Rohc, 0xf2) == 0x57
    ensures TableEntry(Rohc, 0x60) == 0x48
    ensures TableEntry(Rohc, 0x70) == 0x54
    ensures TableEntry(Rohc, 0x6d) == 0xd0
  {
  }

  /** One CRC-8/ROHC register update per byte of the check input, starting from 0xff. */
  lemma RohcUpdates(t: seq<bv64>)
    requires Rohc.Valid() && |t| == 256
    requires t[0xce] == 0x7a
    requires t[0x48] == 0x7e
    requires t[0x4d] == 0xe8
    requires t[0xdc] == 0x85
    requires t[0xb0] == 0xc4
    requires t[0xf2] == 0x57
    requires t[0x60] == 0x48
    requires t[0x70] == 0x54
    requires t[0x6d] == 0xd0
    ensures UpdateRegister(Rohc, t, 0xff, 0x31) == 0x7a
    ensures UpdateRegister(Rohc, t, 0x7a, 0x32) == 0x7e
    ensures UpdateRegister(Rohc, t, 0x7e, 0x33) == 0xe8
    ensures UpdateRegister(Rohc, t, 0xe8, 0x34) == 0x85
    ensures UpdateRegister(Rohc, t, 0x85, 0x35) == 0xc4
    ensures UpdateRegister(Rohc, t, 0xc4, 0x36) == 0x57
    ensures UpdateRegister(Rohc, t, 0x57, 0x37) == 0x48
    ensures UpdateRegister(Rohc, t, 0x48, 0x38) == 0x54
    ensures UpdateRegister(Rohc, t, 0x54, 0x39) == 0xd0
  {
  }

  /** An engine for CRC-8/ROHC holds those entries in its table. */
  lemma RohcTable(c: Crc)
    requires c.Valid() && c.parameters == Rohc
    ensures c.lookupTable[0xce] == 0x7a
    ensures c.lookupTable[0x48] == 0x7e
    ensures c.lookupTable[0x4d] == 0xe8
    ensures c.lookupTable[0xdc] == 0x85
    ensures c.lookupTable[0xb0] == 0xc4
    ensures c.lookupTable[0xf2] == 0x57
    ensures c.lookupTable[0x60] == 0x48
    ensures c.lookupTable[0x70] == 0x54
    ensures c.lookupTable[0x6d] == 0xd0
  {
    RohcEntries();
    LookupTableEntry(c.parameters, 0xce);
    LookupTableEntry(c.parameters, 0x48);
    LookupTableEntry(c.parameters, 0x4d);
    LookupTableEntry(c.parameters, 0xdc);
    LookupTableEntry(c.parameters, 0xb0);
    LookupTableEntry(c.parameters, 0xf2);
    LookupTableEntry(c.parameters, 0x60);
    LookupTableEntry(c.parameters, 0x70);
    LookupTableEntry(c.parameters, 0x6d);
  }

  /** The CRC-8/ROHC register after the whole check input, started from the reflected initial value. */
  lemma RohcRegister(c: Crc)
    requires c.Valid() && c.parameters == Rohc
    ensures Fold(c.parameters, c.lookupTable, 0xff, CheckInput) == 0xd0
  {
    RohcTable(c);
    RohcUpdates(c.lookupTable);
    NineUpdates(c.parameters, c.lookupTable, 0xff, 0x7a, 0x7e, 0xe8, 0x85, 0xc4, 0x57, 0x48, 0x54, 0xd0);
  }

  /** 0xff bit-reversed over eight bits is 0xff. */
  lemma AllOnesReflected()
    ensures ReflectBits(0xff, 8) == 0xff
  {
  }

  /**
    CRC-8/ROHC (input and output reflected, initial value 0xff) of
    "123456789" is 0xd0, as a number and as the bytes d0.
  */
  lemma RohcCheckValue(c: Crc)
    requires c.Valid() && c.parameters == Rohc
    ensures CalculateAsNumeric(c, Some(CheckInput)) == Success(0xd0)
    ensures CalculateCheckValue(c, Some(CheckInput)) == Success([0xd0])
  {
    RohcRegister(c);
    AllOnesReflected();
    assert InitialRegister(c.parameters) == 0xff;
    assert FinalValue(c, CheckInput) == XorOut(0xd0, 0) == 0xd0;
    CheckValueBytes();
  }

  // ----- CRC-16/XMODEM -----

  const Xmodem: Parameters := Parameters(16, 0x1021, 0, 0, false, false)

  /** The CRC-16/XMODEM table entries the check input visits. */
  lemma XmodemEntries()
    ensures Xmodem.Valid()
    ensures TableEntry(Xmodem, 0x31) == 0x2672
    ensures TableEntry(Xmodem, 0x14) == 0x52b5
    ensures TableEntry(Xmodem, 0x13) == 0x2252
    ensures TableEntry(Xmodem, 0xa3) == 0x8589
    ensures TableEntry(Xmodem, 0xe2) == 0xdd6c
    ensures TableEntry(Xmodem, 0x62) == 0x4ce4
    ensures TableEntry(Xmodem, 0x17) == 0x62d6
    ensures TableEntry(Xmodem, 0xbe) == 0x4615
    ensures TableEntry(Xmodem, 0xa9) == 0x24c3
  {
  }

  /** One CRC-16/XMODEM register update per byte of the check input, given the entries it visits. */
  lemma XmodemUpdates(t: seq<bv64>)
    requires Xmodem.Valid() && |t| == 256
    requires t[0x31] == 0x2672
    requires t[0x14] == 0x52b5
    requires t[0x13] == 0x2252
    requires t[0xa3] == 0x8589
    requires t[0xe2] == 0xdd6c
    requires t[0x62] == 0x4ce4
    requires t[0x17] == 0x62d6
    requires t[0xbe] == 0x4615
    requires t[0xa9] == 0x24c3
    ensures UpdateRegister(Xmodem, t, 0x0, 0x31) == 0x2672
    ensures UpdateRegister(Xmodem, t, 0x2672, 0x32) == 0x20b5
    ensures UpdateRegister(Xmodem, t, 0x20b5, 0x33) == 0x9752
    ensures UpdateRegister(Xmodem, t, 0x9752, 0x34) == 0xd789
    ensures UpdateRegister(Xmodem, t, 0xd789, 0x35) == 0x546c
    ensures UpdateRegister(Xmodem, t, 0x546c, 0x36) == 0x20e4
    ensures UpdateRegister(Xmodem, t, 0x20e4, 0x37) == 0x86d6
    ensures UpdateRegister(Xmodem, t, 0x86d6, 0x38) == 0x9015
    ensures UpdateRegister(Xmodem, t, 0x9015, 0x39) == 0x31c3
  {
  }

  /** An engine for CRC-16/XMODEM holds those entries in its table. */
  lemma XmodemTable(c: Crc)
    requires c.Valid() && c.parameters == Xmodem
    ensures c.lookupTable[0x31] == 0x2672
    ensures c.lookupTable[0x14] == 0x52b5
    ensures c.lookupTable[0x13] == 0x2252
    ensures c.lookupTable[0xa3] == 0x8589
    ensures c.lookupTable[0xe2] == 0xdd6c
    ensures c.lookupTable[0x62] == 0x4ce4
    ensures c.lookupTable[0x17] == 0x62d6
    ensures c.lookupTable[0xbe] == 0x4615
    ensures c.lookupTable[0xa9] == 0x24c3
  {
    XmodemEntries();
    LookupTableEntry(c.parameters, 0x31);
    LookupTableEntry(c.parameters, 0x14);
    LookupTableEntry(c.parameters, 0x13);
    LookupTableEntry(c.parameters, 0xa3);
    LookupTableEntry(c.parameters, 0xe2);
    LookupTableEntry(c.parameters, 0x62);
    LookupTableEntry(c.parameters, 0x17);
    LookupTableEntry(c.parameters, 0xbe);
    LookupTableEntry(c.parameters, 0xa9);
  }

  /** The CRC-16/XMODEM register after the whole check input. */
  lemma XmodemRegister(c: Crc)
    requires c.Valid() && c.parameters == Xmodem
    ensures Fold(c.parameters, c.lookupTable, 0, CheckInput) == 0x31c3
  {
    XmodemTable(c);
    XmodemUpdates(c.lookupTable);
    NineUpdates(c.parameters, c.lookupTable, 0x0, 0x2672, 0x20b5, 0x9752, 0xd789, 0x546c, 0x20e4, 0x86d6, 0x9015, 0x31c3);
  }

  /** CRC-16/XMODEM (no reflection) of "123456789" is 0x31c3, as a number and as the bytes c3 31. */
  lemma XmodemCheckValue(c: Crc)
    requires c.Valid() && c.parameters == Xmodem
    ensures CalculateAsNumeric(c, Some(CheckInput)) == Success(0x31c3)
    ensures CalculateCheckValue(c, Some(CheckInput)) == Success([0xc3, 0x31])
  {
    XmodemRegister(c);
    assert InitialRegister(c.parameters) == 0;
    assert FinalValue(c, CheckInput) == XorOut(0x31c3, 0) == 0x31c3;
    CheckValueBytes();
  }
}
