/** The substitution tables of the cipher (figures 7 and 14 of FIPS 197), row by row: they undo each other,
    and the first is the map of section 5.1.1, the inverse in the field followed by an affine map. */
module SBox {
  import opened AesField
  import opened GaloisField

  /** The sixteen entries whose index has the same high four bits. */
  datatype Row = Row(e0: bv8, e1: bv8, e2: bv8, e3: bv8, e4: bv8, e5: bv8, e6: bv8, e7: bv8,
                     e8: bv8, e9: bv8, ea: bv8, eb: bv8, ec: bv8, ed: bv8, ee: bv8, ef: bv8)

  /** The entry of a row by the low four bits of the index. */
  function Cell(r: Row, x: Byte): bv8
  {
    if !x.b3 then
      if !x.b2 then if !x.b1 then if !x.b0 then r.e0 else r.e1 else if !x.b0 then r.e2 else r.e3
      else if !x.b1 then if !x.b0 then r.e4 else r.e5 else if !x.b0 then r.e6 else r.e7
    else
      if !x.b2 then if !x.b1 then if !x.b0 then r.e8 else r.e9 else if !x.b0 then r.ea else r.eb
      else if !x.b1 then if !x.b0 then r.ec else r.ed else if !x.b0 then r.ee else r.ef
  }

  /** Figure 7. */
  function Table(x: Byte): Row
  {
    if !x.b7 then
      if !x.b6 then
        if !x.b5 then
          if !x.b4 then Row(0x63, 0x7c, 0x77, 0x7b, 0xf2, 0x6b, 0x6f, 0xc5, 0x30, 0x01, 0x67, 0x2b, 0xfe, 0xd7, 0xab, 0x76)
          else Row(0xca, 0x82, 0xc9, 0x7d, 0xfa, 0x59, 0x47, 0xf0, 0xad, 0xd4, 0xa2, 0xaf, 0x9c, 0xa4, 0x72, 0xc0)
        else
          if !x.b4 then Row(0xb7, 0xfd, 0x93, 0x26, 0x36, 0x3f, 0xf7, 0xcc, 0x34, 0xa5, 0xe5, 0xf1, 0x71, 0xd8, 0x31, 0x15)
          else Row(0x04, 0xc7, 0x23, 0xc3, 0x18, 0x96, 0x05, 0x9a, 0x07, 0x12, 0x80, 0xe2, 0xeb, 0x27, 0xb2, 0x75)
      else
        if !x.b5 then
          if !x.b4 then Row(0x09, 0x83, 0x2c, 0x1a, 0x1b, 0x6e, 0x5a, 0xa0, 0x52, 0x3b, 0xd6, 0xb3, 0x29, 0xe3, 0x2f, 0x84)
          else Row(0x53, 0xd1, 0x00, 0xed, 0x20, 0xfc, 0xb1, 0x5b, 0x6a, 0xcb, 0xbe, 0x39, 0x4a, 0x4c, 0x58, 0xcf)
        else
          if !x.b4 then Row(0xd0, 0xef, 0xaa, 0xfb, 0x43, 0x4d, 0x33, 0x85, 0x45, 0xf9, 0x02, 0x7f, 0x50, 0x3c, 0x9f, 0xa8)
          else Row(0x51, 0xa3, 0x40, 0x8f, 0x92, 0x9d, 0x38, 0xf5, 0xbc, 0xb6, 0xda, 0x21, 0x10, 0xff, 0xf3, 0xd2)
    else
      if !x.b6 then
        if !x.b5 then
          if !x.b4 then Row(0xcd, 0x0c, 0x13, 0xec, 0x5f, 0x97, 0x44, 0x17, 0xc4, 0xa7, 0x7e, 0x3d, 0x64, 0x5d, 0x19, 0x73)
          else Row(0x60, 0x81, 0x4f, 0xdc, 0x22, 0x2a, 0x90, 0x88, 0x46, 0xee, 0xb8, 0x14, 0xde, 0x5e, 0x0b, 0xdb)
        else
          if !x.b4 then Row(0xe0, 0x32, 0x3a, 0x0a, 0x49, 0x06, 0x24, 0x5c, 0xc2, 0xd3, 0xac, 0x62, 0x91, 0x95, 0xe4, 0x79)
          else Row(0xe7, 0xc8, 0x37, 0x6d, 0x8d, 0xd5, 0x4e, 0xa9, 0x6c, 0x56, 0xf4, 0xea, 0x65, 0x7a, 0xae, 0x08)
      else
        if !x.b5 then
          if !x.b4 then Row(0xba, 0x78, 0x25, 0x2e, 0x1c, 0xa6, 0xb4, 0xc6, 0xe8, 0xdd, 0x74, 0x1f, 0x4b, 0xbd, 0x8b, 0x8a)
          else Row(0x70, 0x3e, 0xb5, 0x66, 0x48, 0x03, 0xf6, 0x0e, 0x61, 0x35, 0x57, 0xb9, 0x86, 0xc1, 0x1d, 0x9e)
        else
          if !x.b4 then Row(0xe1, 0xf8, 0x98, 0x11, 0x69, 0xd9, 0x8e, 0x94, 0x9b, 0x1e, 0x87, 0xe9, 0xce, 0x55, 0x28, 0xdf)
          else Row(0x8c, 0xa1, 0x89, 0x0d, 0xbf, 0xe6, 0x42, 0x68, 0x41, 0x99, 0x2d, 0x0f, 0xb0, 0x54, 0xbb, 0x16)
  }

  /** Figure 14. */
  function InvTable(x: Byte): Row
  {
    if !x.b7 then
      if !x.b6 then
        if !x.b5 then
          if !x.b4 then Row(0x52, 0x09, 0x6a, 0xd5, 0x30, 0x36, 0xa5, 0x38, 0xbf, 0x40, 0xa3, 0x9e, 0x81, 0xf3, 0xd7, 0xfb)
          else Row(0x7c, 0xe3, 0x39, 0x82, 0x9b, 0x2f, 0xff, 0x87, 0x34, 0x8e, 0x43, 0x44, 0xc4, 0xde, 0xe9, 0xcb)
        else
          if !x.b4 then Row(0x54, 0x7b, 0x94, 0x32, 0xa6, 0xc2, 0x23, 0x3d, 0xee, 0x4c, 0x95, 0x0b, 0x42, 0xfa, 0xc3, 0x4e)
          else Row(0x08, 0x2e, 0xa1, 0x66, 0x28, 0xd9, 0x24, 0xb2, 0x76, 0x5b, 0xa2, 0x49, 0x6d, 0x8b, 0xd1, 0x25)
      else
        if !x.b5 then
          if !x.b4 then Row(0x72, 0xf8, 0xf6, 0x64, 0x86, 0x68, 0x98, 0x16, 0xd4, 0xa4, 0x5c, 0xcc, 0x5d, 0x65, 0xb6, 0x92)
          else Row(0x6c, 0x70, 0x48, 0x50, 0xfd, 0xed, 0xb9, 0xda, 0x5e, 0x15, 0x46, 0x57, 0xa7, 0x8d, 0x9d, 0x84)
        else
          if !x.b4 then Row(0x90, 0xd8, 0xab, 0x00, 0x8c, 0xbc, 0xd3, 0x0a, 0xf7, 0xe4, 0x58, 0x05, 0xb8, 0xb3, 0x45, 0x06)
          else Row(0xd0, 0x2c, 0x1e, 0x8f, 0xca, 0x3f, 0x0f, 0x02, 0xc1, 0xaf, 0xbd, 0x03, 0x01, 0x13, 0x8a, 0x6b)
    else
      if !x.b6 then
        if !x.b5 then
          if !x.b4 then Row(0x3a, 0x91, 0x11, 0x41, 0x4f, 0x67, 0xdc, 0xea, 0x97, 0xf2, 0xcf, 0xce, 0xf0, 0xb4, 0xe6, 0x73)
          else Row(0x96, 0xac, 0x74, 0x22, 0xe7, 0xad, 0x35, 0x85, 0xe2, 0xf9, 0x37, 0xe8, 0x1c, 0x75, 0xdf, 0x6e)
        else
          if !x.b4 then Row(0x47, 0xf1, 0x1a, 0x71, 0x1d, 0x29, 0xc5, 0x89, 0x6f, 0xb7, 0x62, 0x0e, 0xaa, 0x18, 0xbe, 0x1b)
          else Row(0xfc, 0x56, 0x3e, 0x4b, 0xc6, 0xd2, 0x79, 0x20, 0x9a, 0xdb, 0xc0, 0xfe, 0x78, 0xcd, 0x5a, 0xf4)
      else
        if !x.b5 then
          if !x.b4 then Row(0x1f, 0xdd, 0xa8, 0x33, 0x88, 0x07, 0xc7, 0x31, 0xb1, 0x12, 0x10, 0x59, 0x27, 0x80, 0xec, 0x5f)
          else Row(0x60, 0x51, 0x7f, 0xa9, 0x19, 0xb5, 0x4a, 0x0d, 0x2d, 0xe5, 0x7a, 0x9f, 0x93, 0xc9, 0x9c, 0xef)
        else
          if !x.b4 then Row(0xa0, 0xe0, 0x3b, 0x4d, 0xae, 0x2a, 0xf5, 0xb0, 0xc8, 0xeb, 0xbb, 0x3c, 0x83, 0x53, 0x99, 0x61)
          else Row(0x17, 0x2b, 0x04, 0x7e, 0xba, 0x77, 0xd6, 0x26, 0xe1, 0x69, 0x14, 0x63, 0x55, 0x21, 0x0c, 0x7d)
  }

  function SubByte(x: Byte): Byte
  {
    Hex(Cell(Table(x), x))
  }

  function InvSubByte(x: Byte): Byte
  {
    Hex(Cell(InvTable(x), x))
  }

  // ----- what the entries are

  function Place(b: bool, n: bv8): bv8
  {
    if b then n else 0
  }

  function High(x: Byte): bv8
  {
    Place(x.b4, 0x10) | Place(x.b5, 0x20) | Place(x.b6, 0x40) | Place(x.b7, 0x80)
  }

  /** The indices of a row. */
  function Indices(h: bv8): Row
  {
    Row(h, h | 1, h | 2, h | 3, h | 4, h | 5, h | 6, h | 7, h | 8, h | 9, h | 10, h | 11, h | 12, h | 13, h | 14, h | 15)
  }

  function Index(x: Byte): Row
  {
    Indices(High(x))
  }

  /** Their inverses in the field. */
  function Inverse(x: Byte): Row
  {
    if !x.b7 then
      if !x.b6 then
        if !x.b5 then
          if !x.b4 then Row(0x00, 0x01, 0x8d, 0xf6, 0xcb, 0x52, 0x7b, 0xd1, 0xe8, 0x4f, 0x29, 0xc0, 0xb0, 0xe1, 0xe5, 0xc7)
          else Row(0x74, 0xb4, 0xaa, 0x4b, 0x99, 0x2b, 0x60, 0x5f, 0x58, 0x3f, 0xfd, 0xcc, 0xff, 0x40, 0xee, 0xb2)
        else
          if !x.b4 then Row(0x3a, 0x6e, 0x5a, 0xf1, 0x55, 0x4d, 0xa8, 0xc9, 0xc1, 0x0a, 0x98, 0x15, 0x30, 0x44, 0xa2, 0xc2)
          else Row(0x2c, 0x45, 0x92, 0x6c, 0xf3, 0x39, 0x66, 0x42, 0xf2, 0x35, 0x20, 0x6f, 0x77, 0xbb, 0x59, 0x19)
      else
        if !x.b5 then
          if !x.b4 then Row(0x1d, 0xfe, 0x37, 0x67, 0x2d, 0x31, 0xf5, 0x69, 0xa7, 0x64, 0xab, 0x13, 0x54, 0x25, 0xe9, 0x09)
          else Row(0xed, 0x5c, 0x05, 0xca, 0x4c, 0x24, 0x87, 0xbf, 0x18, 0x3e, 0x22, 0xf0, 0x51, 0xec, 0x61, 0x17)
        else
          if !x.b4 then Row(0x16, 0x5e, 0xaf, 0xd3, 0x49, 0xa6, 0x36, 0x43, 0xf4, 0x47, 0x91, 0xdf, 0x33, 0x93, 0x21, 0x3b)
          else Row(0x79, 0xb7, 0x97, 0x85, 0x10, 0xb5, 0xba, 0x3c, 0xb6, 0x70, 0xd0, 0x06, 0xa1, 0xfa, 0x81, 0x82)
    else
      if !x.b6 then
        if !x.b5 then
          if !x.b4 then Row(0x83, 0x7e, 0x7f, 0x80, 0x96, 0x73, 0xbe, 0x56, 0x9b, 0x9e, 0x95, 0xd9, 0xf7, 0x02, 0xb9, 0xa4)
          else Row(0xde, 0x6a, 0x32, 0x6d, 0xd8, 0x8a, 0x84, 0x72, 0x2a, 0x14, 0x9f, 0x88, 0xf9, 0xdc, 0x89, 0x9a)
        else
          if !x.b4 then Row(0xfb, 0x7c, 0x2e, 0xc3, 0x8f, 0xb8, 0x65, 0x48, 0x26, 0xc8, 0x12, 0x4a, 0xce, 0xe7, 0xd2, 0x62)
          else Row(0x0c, 0xe0, 0x1f, 0xef, 0x11, 0x75, 0x78, 0x71, 0xa5, 0x8e, 0x76, 0x3d, 0xbd, 0xbc, 0x86, 0x57)
      else
        if !x.b5 then
          if !x.b4 then Row(0x0b, 0x28, 0x2f, 0xa3, 0xda, 0xd4, 0xe4, 0x0f, 0xa9, 0x27, 0x53, 0x04, 0x1b, 0xfc, 0xac, 0xe6)
          else Row(0x7a, 0x07, 0xae, 0x63, 0xc5, 0xdb, 0xe2, 0xea, 0x94, 0x8b, 0xc4, 0xd5, 0x9d, 0xf8, 0x90, 0x6b)
        else
          if !x.b4 then Row(0xb1, 0x0d, 0xd6, 0xeb, 0xc6, 0x0e, 0xcf, 0xad, 0x08, 0x4e, 0xd7, 0xe3, 0x5d, 0x50, 0x1e, 0xb3)
          else Row(0x5b, 0x23, 0x38, 0x34, 0x68, 0x46, 0x03, 0x8c, 0xdd, 0x9c, 0x7d, 0xa0, 0xcd, 0x1a, 0x41, 0x1c)
  }

  ghost predicate Inverts(n: bv8, inverse: bv8)
  {
    Product(Hex(n), Hex(inverse)) == ONE
  }

  /** The image of `n` is the affine map of its inverse, and leads back to `n`. */
  ghost predicate Entry(n: bv8, inverse: bv8, image: bv8)
  {
    Affine(inverse) == image && Cell(InvTable(Hex(image)), Hex(image)) == n
  }

  lemma Inverses0()
    ensures Inverts(0x01, 0x01) && Inverts(0x02, 0x8d) && Inverts(0x03, 0xf6)
    ensures Inverts(0x04, 0xcb) && Inverts(0x05, 0x52) && Inverts(0x06, 0x7b) && Inverts(0x07, 0xd1)
    ensures Inverts(0x08, 0xe8) && Inverts(0x09, 0x4f) && Inverts(0x0a, 0x29) && Inverts(0x0b, 0xc0)
    ensures Inverts(0x0c, 0xb0) && Inverts(0x0d, 0xe1) && Inverts(0x0e, 0xe5) && Inverts(0x0f, 0xc7)
  {
  }

  lemma Inverses1()
    ensures Inverts(0x10, 0x74) && Inverts(0x11, 0xb4) && Inverts(0x12, 0xaa) && Inverts(0x13, 0x4b)
    ensures Inverts(0x14, 0x99) && Inverts(0x15, 0x2b) && Inverts(0x16, 0x60) && Inverts(0x17, 0x5f)
    ensures Inverts(0x18, 0x58) && Inverts(0x19, 0x3f) && Inverts(0x1a, 0xfd) && Inverts(0x1b, 0xcc)
    ensures Inverts(0x1c, 0xff) && Inverts(0x1d, 0x40) && Inverts(0x1e, 0xee) && Inverts(0x1f, 0xb2)
  {
  }

  lemma Inverses2()
    ensures Inverts(0x20, 0x3a) && Inverts(0x21, 0x6e) && Inverts(0x22, 0x5a) && Inverts(0x23, 0xf1)
    ensures Inverts(0x24, 0x55) && Inverts(0x25, 0x4d) && Inverts(0x26, 0xa8) && Inverts(0x27, 0xc9)
    ensures Inverts(0x28, 0xc1) && Inverts(0x29, 0x0a) && Inverts(0x2a, 0x98) && Inverts(0x2b, 0x15)
    ensures Inverts(0x2c, 0x30) && Inverts(0x2d, 0x44) && Inverts(0x2e, 0xa2) && Inverts(0x2f, 0xc2)
  {
  }

  lemma Inverses3()
    ensures Inverts(0x30, 0x2c) && Inverts(0x31, 0x45) && Inverts(0x32, 0x92) && Inverts(0x33, 0x6c)
    ensures Inverts(0x34, 0xf3) && Inverts(0x35, 0x39) && Inverts(0x36, 0x66) && Inverts(0x37, 0x42)
    ensures Inverts(0x38, 0xf2) && Inverts(0x39, 0x35) && Inverts(0x3a, 0x20) && Inverts(0x3b, 0x6f)
    ensures Inverts(0x3c, 0x77) && Inverts(0x3d, 0xbb) && Inverts(0x3e, 0x59) && Inverts(0x3f, 0x19)
  {
  }

  lemma Inverses4()
    ensures Inverts(0x40, 0x1d) && Inverts(0x41, 0xfe) && Inverts(0x42, 0x37) && Inverts(0x43, 0x67)
    ensures Inverts(0x44, 0x2d) && Inverts(0x45, 0x31) && Inverts(0x46, 0xf5) && Inverts(0x47, 0x69)
    ensures Inverts(0x48, 0xa7) && Inverts(0x49, 0x64) && Inverts(0x4a, 0xab) && Inverts(0x4b, 0x13)
    ensures Inverts(0x4c, 0x54) && Inverts(0x4d, 0x25) && Inverts(0x4e, 0xe9) && Inverts(0x4f, 0x09)
  {
  }

  lemma Inverses5()
    ensures Inverts(0x50, 0xed) && Inverts(0x51, 0x5c) && Inverts(0x52, 0x05) && Inverts(0x53, 0xca)
    ensures Inverts(0x54, 0x4c) && Inverts(0x55, 0x24) && Inverts(0x56, 0x87) && Inverts(0x57, 0xbf)
    ensures Inverts(0x58, 0x18) && Inverts(0x59, 0x3e) && Inverts(0x5a, 0x22) && Inverts(0x5b, 0xf0)
    ensures Inverts(0x5c, 0x51) && Inverts(0x5d, 0xec) && Inverts(0x5e, 0x61) && Inverts(0x5f, 0x17)
  {
  }

  lemma Inverses6()
    ensures Inverts(0x60, 0x16) && Inverts(0x61, 0x5e) && Inverts(0x62, 0xaf) && Inverts(0x63, 0xd3)
    ensures Inverts(0x64, 0x49) && Inverts(0x65, 0xa6) && Inverts(0x66, 0x36) && Inverts(0x67, 0x43)
    ensures Inverts(0x68, 0xf4) && Inverts(0x69, 0x47) && Inverts(0x6a, 0x91) && Inverts(0x6b, 0xdf)
    ensures Inverts(0x6c, 0x33) && Inverts(0x6d, 0x93) && Inverts(0x6e, 0x21) && Inverts(0x6f, 0x3b)
  {
  }

  lemma Inverses7()
    ensures Inverts(0x70, 0x79) && Inverts(0x71, 0xb7) && Inverts(0x72, 0x97) && Inverts(0x73, 0x85)
    ensures Inverts(0x74, 0x10) && Inverts(0x75, 0xb5) && Inverts(0x76, 0xba) && Inverts(0x77, 0x3c)
    ensures Inverts(0x78, 0xb6) && Inverts(0x79, 0x70) && Inverts(0x7a, 0xd0) && Inverts(0x7b, 0x06)
    ensures Inverts(0x7c, 0xa1) && Inverts(0x7d, 0xfa) && Inverts(0x7e, 0x81) && Inverts(0x7f, 0x82)
  {
  }

  lemma Inverses8()
    ensures Inverts(0x80, 0x83) && Inverts(0x81, 0x7e) && Inverts(0x82, 0x7f) && Inverts(0x83, 0x80)
    ensures Inverts(0x84, 0x96) && Inverts(0x85, 0x73) && Inverts(0x86, 0xbe) && Inverts(0x87, 0x56)
    ensures Inverts(0x88, 0x9b) && Inverts(0x89, 0x9e) && Inverts(0x8a, 0x95) && Inverts(0x8b, 0xd9)
    ensures Inverts(0x8c, 0xf7) && Inverts(0x8d, 0x02) && Inverts(0x8e, 0xb9) && Inverts(0x8f, 0xa4)
  {
  }

  lemma Inverses9()
    ensures Inverts(0x90, 0xde) && Inverts(0x91, 0x6a) && Inverts(0x92, 0x32) && Inverts(0x93, 0x6d)
    ensures Inverts(0x94, 0xd8) && Inverts(0x95, 0x8a) && Inverts(0x96, 0x84) && Inverts(0x97, 0x72)
    ensures Inverts(0x98, 0x2a) && Inverts(0x99, 0x14) && Inverts(0x9a, 0x9f) && Inverts(0x9b, 0x88)
    ensures Inverts(0x9c, 0xf9) && Inverts(0x9d, 0xdc) && Inverts(0x9e, 0x89) && Inverts(0x9f, 0x9a)
  {
  }

  lemma InversesA()
    ensures Inverts(0xa0, 0xfb) && Inverts(0xa1, 0x7c) && Inverts(0xa2, 0x2e) && Inverts(0xa3, 0xc3)
    ensures Inverts(0xa4, 0x8f) && Inverts(0xa5, 0xb8) && Inverts(0xa6, 0x65) && Inverts(0xa7, 0x48)
    ensures Inverts(0xa8, 0x26) && Inverts(0xa9, 0xc8) && Inverts(0xaa, 0x12) && Inverts(0xab, 0x4a)
    ensures Inverts(0xac, 0xce) && Inverts(0xad, 0xe7) && Inverts(0xae, 0xd2) && Inverts(0xaf, 0x62)
  {
  }

  lemma InversesB()
    ensures Inverts(0xb0, 0x0c) && Inverts(0xb1, 0xe0) && Inverts(0xb2, 0x1f) && Inverts(0xb3, 0xef)
    ensures Inverts(0xb4, 0x11) && Inverts(0xb5, 0x75) && Inverts(0xb6, 0x78) && Inverts(0xb7, 0x71)
    ensures Inverts(0xb8, 0xa5) && Inverts(0xb9, 0x8e) && Inverts(0xba, 0x76) && Inverts(0xbb, 0x3d)
    ensures Inverts(0xbc, 0xbd) && Inverts(0xbd, 0xbc) && Inverts(0xbe, 0x86) && Inverts(0xbf, 0x57)
  {
  }

  lemma InversesC()
    ensures Inverts(0xc0, 0x0b) && Inverts(0xc1, 0x28) && Inverts(0xc2, 0x2f) && Inverts(0xc3, 0xa3)
    ensures Inverts(0xc4, 0xda) && Inverts(0xc5, 0xd4) && Inverts(0xc6, 0xe4) && Inverts(0xc7, 0x0f)
    ensures Inverts(0xc8, 0xa9) && Inverts(0xc9, 0x27) && Inverts(0xca, 0x53) && Inverts(0xcb, 0x04)
    ensures Inverts(0xcc, 0x1b) && Inverts(0xcd, 0xfc) && Inverts(0xce, 0xac) && Inverts(0xcf, 0xe6)
  {
  }

  lemma InversesD()
    ensures Inverts(0xd0, 0x7a) && Inverts(0xd1, 0x07) && Inverts(0xd2, 0xae) && Inverts(0xd3, 0x63)
    ensures Inverts(0xd4, 0xc5) && Inverts(0xd5, 0xdb) && Inverts(0xd6, 0xe2) && Inverts(0xd7, 0xea)
    ensures Inverts(0xd8, 0x94) && Inverts(0xd9, 0x8b) && Inverts(0xda, 0xc4) && Inverts(0xdb, 0xd5)
    ensures Inverts(0xdc, 0x9d) && Inverts(0xdd, 0xf8) && Inverts(0xde, 0x90) && Inverts(0xdf, 0x6b)
  {
  }

  lemma InversesE()
    ensures Inverts(0xe0, 0xb1) && Inverts(0xe1, 0x0d) && Inverts(0xe2, 0xd6) && Inverts(0xe3, 0xeb)
    ensures Inverts(0xe4, 0xc6) && Inverts(0xe5, 0x0e) && Inverts(0xe6, 0xcf) && Inverts(0xe7, 0xad)
    ensures Inverts(0xe8, 0x08) && Inverts(0xe9, 0x4e) && Inverts(0xea, 0xd7) && Inverts(0xeb, 0xe3)
    ensures Inverts(0xec, 0x5d) && Inverts(0xed, 0x50) && Inverts(0xee, 0x1e) && Inverts(0xef, 0xb3)
  {
  }

  lemma InversesF()
    ensures Inverts(0xf0, 0x5b) && Inverts(0xf1, 0x23) && Inverts(0xf2, 0x38) && Inverts(0xf3, 0x34)
    ensures Inverts(0xf4, 0x68) && Inverts(0xf5, 0x46) && Inverts(0xf6, 0x03) && Inverts(0xf7, 0x8c)
    ensures Inverts(0xf8, 0xdd) && Inverts(0xf9, 0x9c) && Inverts(0xfa, 0x7d) && Inverts(0xfb, 0xa0)
    ensures Inverts(0xfc, 0xcd) && Inverts(0xfd, 0x1a) && Inverts(0xfe, 0x41) && Inverts(0xff, 0x1c)
  {
  }

  lemma Entries0()
    ensures Entry(0x00, 0x00, 0x63) && Entry(0x01, 0x01, 0x7c) && Entry(0x02, 0x8d, 0x77) && Entry(0x03, 0xf6, 0x7b)
    ensures Entry(0x04, 0xcb, 0xf2) && Entry(0x05, 0x52, 0x6b) && Entry(0x06, 0x7b, 0x6f) && Entry(0x07, 0xd1, 0xc5)
    ensures Entry(0x08, 0xe8, 0x30) && Entry(0x09, 0x4f, 0x01) && Entry(0x0a, 0x29, 0x67) && Entry(0x0b, 0xc0, 0x2b)
    ensures Entry(0x0c, 0xb0, 0xfe) && Entry(0x0d, 0xe1, 0xd7) && Entry(0x0e, 0xe5, 0xab) && Entry(0x0f, 0xc7, 0x76)
  {
  }

  lemma Entries1()
    ensures Entry(0x10, 0x74, 0xca) && Entry(0x11, 0xb4, 0x82) && Entry(0x12, 0xaa, 0xc9) && Entry(0x13, 0x4b, 0x7d)
    ensures Entry(0x14, 0x99, 0xfa) && Entry(0x15, 0x2b, 0x59) && Entry(0x16, 0x60, 0x47) && Entry(0x17, 0x5f, 0xf0)
    ensures Entry(0x18, 0x58, 0xad) && Entry(0x19, 0x3f, 0xd4) && Entry(0x1a, 0xfd, 0xa2) && Entry(0x1b, 0xcc, 0xaf)
    ensures Entry(0x1c, 0xff, 0x9c) && Entry(0x1d, 0x40, 0xa4) && Entry(0x1e, 0xee, 0x72) && Entry(0x1f, 0xb2, 0xc0)
  {
  }

  lemma Entries2()
    ensures Entry(0x20, 0x3a, 0xb7) && Entry(0x21, 0x6e, 0xfd) && Entry(0x22, 0x5a, 0x93) && Entry(0x23, 0xf1, 0x26)
    ensures Entry(0x24, 0x55, 0x36) && Entry(0x25, 0x4d, 0x3f) && Entry(0x26, 0xa8, 0xf7) && Entry(0x27, 0xc9, 0xcc)
    ensures Entry(0x28, 0xc1, 0x34) && Entry(0x29, 0x0a, 0xa5) && Entry(0x2a, 0x98, 0xe5) && Entry(0x2b, 0x15, 0xf1)
    ensures Entry(0x2c, 0x30, 0x71) && Entry(0x2d, 0x44, 0xd8) && Entry(0x2e, 0xa2, 0x31) && Entry(0x2f, 0xc2, 0x15)
  {
  }

  lemma Entries3()
    ensures Entry(0x30, 0x2c, 0x04) && Entry(0x31, 0x45, 0xc7) && Entry(0x32, 0x92, 0x23) && Entry(0x33, 0x6c, 0xc3)
    ensures Entry(0x34, 0xf3, 0x18) && Entry(0x35, 0x39, 0x96) && Entry(0x36, 0x66, 0x05) && Entry(0x37, 0x42, 0x9a)
    ensures Entry(0x38, 0xf2, 0x07) && Entry(0x39, 0x35, 0x12) && Entry(0x3a, 0x20, 0x80) && Entry(0x3b, 0x6f, 0xe2)
    ensures Entry(0x3c, 0x77, 0xeb) && Entry(0x3d, 0xbb, 0x27) && Entry(0x3e, 0x59, 0xb2) && Entry(0x3f, 0x19, 0x75)
  {
  }

  lemma Entries4()
    ensures Entry(0x40, 0x1d, 0x09) && Entry(0x41, 0xfe, 0x83) && Entry(0x42, 0x37, 0x2c) && Entry(0x43, 0x67, 0x1a)
    ensures Entry(0x44, 0x2d, 0x1b) && Entry(0x45, 0x31, 0x6e) && Entry(0x46, 0xf5, 0x5a) && Entry(0x47, 0x69, 0xa0)
    ensures Entry(0x48, 0xa7, 0x52) && Entry(0x49, 0x64, 0x3b) && Entry(0x4a, 0xab, 0xd6) && Entry(0x4b, 0x13, 0xb3)
    ensures Entry(0x4c, 0x54, 0x29) && Entry(0x4d, 0x25, 0xe3) && Entry(0x4e, 0xe9, 0x2f) && Entry(0x4f, 0x09, 0x84)
  {
  }

  lemma Entries5()
    ensures Entry(0x50, 0xed, 0x53) && Entry(0x51, 0x5c, 0xd1) && Entry(0x52, 0x05, 0x00) && Entry(0x53, 0xca, 0xed)
    ensures Entry(0x54, 0x4c, 0x20) && Entry(0x55, 0x24, 0xfc) && Entry(0x56, 0x87, 0xb1) && Entry(0x57, 0xbf, 0x5b)
    ensures Entry(0x58, 0x18, 0x6a) && Entry(0x59, 0x3e, 0xcb) && Entry(0x5a, 0x22, 0xbe) && Entry(0x5b, 0xf0, 0x39)
    ensures Entry(0x5c, 0x51, 0x4a) && Entry(0x5d, 0xec, 0x4c) && Entry(0x5e, 0x61, 0x58) && Entry(0x5f, 0x17, 0xcf)
  {
  }

  lemma Entries6()
    ensures Entry(0x60, 0x16, 0xd0) && Entry(0x61, 0x5e, 0xef) && Entry(0x62, 0xaf, 0xaa) && Entry(0x63, 0xd3, 0xfb)
    ensures Entry(0x64, 0x49, 0x43) && Entry(0x65, 0xa6, 0x4d) && Entry(0x66, 0x36, 0x33) && Entry(0x67, 0x43, 0x85)
    ensures Entry(0x68, 0xf4, 0x45) && Entry(0x69, 0x47, 0xf9) && Entry(0x6a, 0x91, 0x02) && Entry(0x6b, 0xdf, 0x7f)
    ensures Entry(0x6c, 0x33, 0x50) && Entry(0x6d, 0x93, 0x3c) && Entry(0x6e, 0x21, 0x9f) && Entry(0x6f, 0x3b, 0xa8)
  {
  }

  lemma Entries7()
    ensures Entry(0x70, 0x79, 0x51) && Entry(0x71, 0xb7, 0xa3) && Entry(0x72, 0x97, 0x40) && Entry(0x73, 0x85, 0x8f)
    ensures Entry(0x74, 0x10, 0x92) && Entry(0x75, 0xb5, 0x9d) && Entry(0x76, 0xba, 0x38) && Entry(0x77, 0x3c, 0xf5)
    ensures Entry(0x78, 0xb6, 0xbc) && Entry(0x79, 0x70, 0xb6) && Entry(0x7a, 0xd0, 0xda) && Entry(0x7b, 0x06, 0x21)
    ensures Entry(0x7c, 0xa1, 0x10) && Entry(0x7d, 0xfa, 0xff) && Entry(0x7e, 0x81, 0xf3) && Entry(0x7f, 0x82, 0xd2)
  {
  }

  lemma Entries8()
    ensures Entry(0x80, 0x83, 0xcd) && Entry(0x81, 0x7e, 0x0c) && Entry(0x82, 0x7f, 0x13) && Entry(0x83, 0x80, 0xec)
    ensures Entry(0x84, 0x96, 0x5f) && Entry(0x85, 0x73, 0x97) && Entry(0x86, 0xbe, 0x44) && Entry(0x87, 0x56, 0x17)
    ensures Entry(0x88, 0x9b, 0xc4) && Entry(0x89, 0x9e, 0xa7) && Entry(0x8a, 0x95, 0x7e) && Entry(0x8b, 0xd9, 0x3d)
    ensures Entry(0x8c, 0xf7, 0x64) && Entry(0x8d, 0x02, 0x5d) && Entry(0x8e, 0xb9, 0x19) && Entry(0x8f, 0xa4, 0x73)
  {
  }

  lemma Entries9()
    ensures Entry(0x90, 0xde, 0x60) && Entry(0x91, 0x6a, 0x81) && Entry(0x92, 0x32, 0x4f) && Entry(0x93, 0x6d, 0xdc)
    ensures Entry(0x94, 0xd8, 0x22) && Entry(0x95, 0x8a, 0x2a) && Entry(0x96, 0x84, 0x90) && Entry(0x97, 0x72, 0x88)
    ensures Entry(0x98, 0x2a, 0x46) && Entry(0x99, 0x14, 0xee) && Entry(0x9a, 0x9f, 0xb8) && Entry(0x9b, 0x88, 0x14)
    ensures Entry(0x9c, 0xf9, 0xde) && Entry(0x9d, 0xdc, 0x5e) && Entry(0x9e, 0x89, 0x0b) && Entry(0x9f, 0x9a, 0xdb)
  {
  }

  lemma EntriesA()
    ensures Entry(0xa0, 0xfb, 0xe0) && Entry(0xa1, 0x7c, 0x32) && Entry(0xa2, 0x2e, 0x3a) && Entry(0xa3, 0xc3, 0x0a)
    ensures Entry(0xa4, 0x8f, 0x49) && Entry(0xa5, 0xb8, 0x06) && Entry(0xa6, 0x65, 0x24) && Entry(0xa7, 0x48, 0x5c)
    ensures Entry(0xa8, 0x26, 0xc2) && Entry(0xa9, 0xc8, 0xd3) && Entry(0xaa, 0x12, 0xac) && Entry(0xab, 0x4a, 0x62)
    ensures Entry(0xac, 0xce, 0x91) && Entry(0xad, 0xe7, 0x95) && Entry(0xae, 0xd2, 0xe4) && Entry(0xaf, 0x62, 0x79)
  {
  }

  lemma EntriesB()
    ensures Entry(0xb0, 0x0c, 0xe7) && Entry(0xb1, 0xe0, 0xc8) && Entry(0xb2, 0x1f, 0x37) && Entry(0xb3, 0xef, 0x6d)
    ensures Entry(0xb4, 0x11, 0x8d) && Entry(0xb5, 0x75, 0xd5) && Entry(0xb6, 0x78, 0x4e) && Entry(0xb7, 0x71, 0xa9)
    ensures Entry(0xb8, 0xa5, 0x6c) && Entry(0xb9, 0x8e, 0x56) && Entry(0xba, 0x76, 0xf4) && Entry(0xbb, 0x3d, 0xea)
    ensures Entry(0xbc, 0xbd, 0x65) && Entry(0xbd, 0xbc, 0x7a) && Entry(0xbe, 0x86, 0xae) && Entry(0xbf, 0x57, 0x08)
  {
  }

  lemma EntriesC()
    ensures Entry(0xc0, 0x0b, 0xba) && Entry(0xc1, 0x28, 0x78) && Entry(0xc2, 0x2f, 0x25) && Entry(0xc3, 0xa3, 0x2e)
    ensures Entry(0xc4, 0xda, 0x1c) && Entry(0xc5, 0xd4, 0xa6) && Entry(0xc6, 0xe4, 0xb4) && Entry(0xc7, 0x0f, 0xc6)
    ensures Entry(0xc8, 0xa9, 0xe8) && Entry(0xc9, 0x27, 0xdd) && Entry(0xca, 0x53, 0x74) && Entry(0xcb, 0x04, 0x1f)
    ensures Entry(0xcc, 0x1b, 0x4b) && Entry(0xcd, 0xfc, 0xbd) && Entry(0xce, 0xac, 0x8b) && Entry(0xcf, 0xe6, 0x8a)
  {
  }

  lemma EntriesD()
    ensures Entry(0xd0, 0x7a, 0x70) && Entry(0xd1, 0x07, 0x3e) && Entry(0xd2, 0xae, 0xb5) && Entry(0xd3, 0x63, 0x66)
    ensures Entry(0xd4, 0xc5, 0x48) && Entry(0xd5, 0xdb, 0x03) && Entry(0xd6, 0xe2, 0xf6) && Entry(0xd7, 0xea, 0x0e)
    ensures Entry(0xd8, 0x94, 0x61) && Entry(0xd9, 0x8b, 0x35) && Entry(0xda, 0xc4, 0x57) && Entry(0xdb, 0xd5, 0xb9)
    ensures Entry(0xdc, 0x9d, 0x86) && Entry(0xdd, 0xf8, 0xc1) && Entry(0xde, 0x90, 0x1d) && Entry(0xdf, 0x6b, 0x9e)
  {
  }

  lemma EntriesE()
    ensures Entry(0xe0, 0xb1, 0xe1) && Entry(0xe1, 0x0d, 0xf8) && Entry(0xe2, 0xd6, 0x98) && Entry(0xe3, 0xeb, 0x11)
    ensures Entry(0xe4, 0xc6, 0x69) && Entry(0xe5, 0x0e, 0xd9) && Entry(0xe6, 0xcf, 0x8e) && Entry(0xe7, 0xad, 0x94)
    ensures Entry(0xe8, 0x08, 0x9b) && Entry(0xe9, 0x4e, 0x1e) && Entry(0xea, 0xd7, 0x87) && Entry(0xeb, 0xe3, 0xe9)
    ensures Entry(0xec, 0x5d, 0xce) && Entry(0xed, 0x50, 0x55) && Entry(0xee, 0x1e, 0x28) && Entry(0xef, 0xb3, 0xdf)
  {
  }

  lemma EntriesF()
    ensures Entry(0xf0, 0x5b, 0x8c) && Entry(0xf1, 0x23, 0xa1) && Entry(0xf2, 0x38, 0x89) && Entry(0xf3, 0x34, 0x0d)
    ensures Entry(0xf4, 0x68, 0xbf) && Entry(0xf5, 0x46, 0xe6) && Entry(0xf6, 0x03, 0x42) && Entry(0xf7, 0x8c, 0x68)
    ensures Entry(0xf8, 0xdd, 0x41) && Entry(0xf9, 0x9c, 0x99) && Entry(0xfa, 0x7d, 0x2d) && Entry(0xfb, 0xa0, 0x0f)
    ensures Entry(0xfc, 0xcd, 0xb0) && Entry(0xfd, 0x1a, 0x54) && Entry(0xfe, 0x41, 0xbb) && Entry(0xff, 0x1c, 0x16)
  {
  }

  ghost predicate Known(n: bv8, inverse: bv8, image: bv8)
  {
    (if n == 0 then inverse == 0 else Inverts(n, inverse)) && Entry(n, inverse, image)
  }

  /** What holds of all entries of a row holds of the one chosen by the low four bits. */
  lemma Chosen(x: Byte, n: Row, i: Row, e: Row)
    requires Known(n.e0, i.e0, e.e0) && Known(n.e1, i.e1, e.e1) && Known(n.e2, i.e2, e.e2) && Known(n.e3, i.e3, e.e3)
    requires Known(n.e4, i.e4, e.e4) && Known(n.e5, i.e5, e.e5) && Known(n.e6, i.e6, e.e6) && Known(n.e7, i.e7, e.e7)
    requires Known(n.e8, i.e8, e.e8) && Known(n.e9, i.e9, e.e9) && Known(n.ea, i.ea, e.ea) && Known(n.eb, i.eb, e.eb)
    requires Known(n.ec, i.ec, e.ec) && Known(n.ed, i.ed, e.ed) && Known(n.ee, i.ee, e.ee) && Known(n.ef, i.ef, e.ef)
    ensures Known(Cell(n, x), Cell(i, x), Cell(e, x))
  {
    hide Known;
  }

  ghost predicate Entered(x: Byte)
  {
    Known(Cell(Index(x), x), Cell(Inverse(x), x), Cell(Table(x), x))
  }

  lemma Entered0(x: Byte)
    requires !x.b7 && !x.b6 && !x.b5 && !x.b4
    ensures Entered(x)
  {
    hide Entry;
    hide Inverts;
    hide Cell;
    Inverses0();
    Entries0();
    Chosen(x, Index(x), Inverse(x), Table(x));
  }

  lemma Entered1(x: Byte)
    requires !x.b7 && !x.b6 && !x.b5 && x.b4
    ensures Entered(x)
  {
    hide Entry;
    hide Inverts;
    hide Cell;
    Inverses1();
    Entries1();
    Chosen(x, Index(x), Inverse(x), Table(x));
  }

  lemma Entered2(x: Byte)
    requires !x.b7 && !x.b6 && x.b5 && !x.b4
    ensures Entered(x)
  {
    hide Entry;
    hide Inverts;
    hide Cell;
    Inverses2();
    Entries2();
    Chosen(x, Index(x), Inverse(x), Table(x));
  }

  lemma Entered3(x: Byte)
    requires !x.b7 && !x.b6 && x.b5 && x.b4
    ensures Entered(x)
  {
    hide Entry;
    hide Inverts;
    hide Cell;
    Inverses3();
    Entries3();
    Chosen(x, Index(x), Inverse(x), Table(x));
  }

  lemma Entered4(x: Byte)
    requires !x.b7 && x.b6 && !x.b5 && !x.b4
    ensures Entered(x)
  {
    hide Entry;
    hide Inverts;
    hide Cell;
    Inverses4();
    Entries4();
    Chosen(x, Index(x), Inverse(x), Table(x));
  }

  lemma Entered5(x: Byte)
    requires !x.b7 && x.b6 && !x.b5 && x.b4
    ensures Entered(x)
  {
    hide Entry;
    hide Inverts;
    hide Cell;
    Inverses5();
    Entries5();
    Chosen(x, Index(x), Inverse(x), Table(x));
  }

  lemma Entered6(x: Byte)
    requires !x.b7 && x.b6 && x.b5 && !x.b4
    ensures Entered(x)
  {
    hide Entry;
    hide Inverts;
    hide Cell;
    Inverses6();
    Entries6();
    Chosen(x, Index(x), Inverse(x), Table(x));
  }

  lemma Entered7(x: Byte)
    requires !x.b7 && x.b6 && x.b5 && x.b4
    ensures Entered(x)
  {
    hide Entry;
    hide Inverts;
    hide Cell;
    Inverses7();
    Entries7();
    Chosen(x, Index(x), Inverse(x), Table(x));
  }

  lemma Entered8(x: Byte)
    requires x.b7 && !x.b6 && !x.b5 && !x.b4
    ensures Entered(x)
  {
    hide Entry;
    hide Inverts;
    hide Cell;
    Inverses8();
    Entries8();
    Chosen(x, Index(x), Inverse(x), Table(x));
  }

  lemma Entered9(x: Byte)
    requires x.b7 && !x.b6 && !x.b5 && x.b4
    ensures Entered(x)
  {
    hide Entry;
    hide Inverts;
    hide Cell;
    Inverses9();
    Entries9();
    Chosen(x, Index(x), Inverse(x), Table(x));
  }

  lemma EnteredA(x: Byte)
    requires x.b7 && !x.b6 && x.b5 && !x.b4
    ensures Entered(x)
  {
    hide Entry;
    hide Inverts;
    hide Cell;
    InversesA();
    EntriesA();
    Chosen(x, Index(x), Inverse(x), Table(x));
  }

  lemma EnteredB(x: Byte)
    requires x.b7 && !x.b6 && x.b5 && x.b4
    ensures Entered(x)
  {
    hide Entry;
    hide Inverts;
    hide Cell;
    InversesB();
    EntriesB();
    Chosen(x, Index(x), Inverse(x), Table(x));
  }

  lemma EnteredC(x: Byte)
    requires x.b7 && x.b6 && !x.b5 && !x.b4
    ensures Entered(x)
  {
    hide Entry;
    hide Inverts;
    hide Cell;
    InversesC();
    EntriesC();
    Chosen(x, Index(x), Inverse(x), Table(x));
  }

  lemma EnteredD(x: Byte)
    requires x.b7 && x.b6 && !x.b5 && x.b4
    ensures Entered(x)
  {
    hide Entry;
    hide Inverts;
    hide Cell;
    InversesD();
    EntriesD();
    Chosen(x, Index(x), Inverse(x), Table(x));
  }

  lemma EnteredE(x: Byte)
    requires x.b7 && x.b6 && x.b5 && !x.b4
    ensures Entered(x)
  {
    hide Entry;
    hide Inverts;
    hide Cell;
    InversesE();
    EntriesE();
    Chosen(x, Index(x), Inverse(x), Table(x));
  }

  lemma EnteredF(x: Byte)
    requires x.b7 && x.b6 && x.b5 && x.b4
    ensures Entered(x)
  {
    hide Entry;
    hide Inverts;
    hide Cell;
    InversesF();
    EntriesF();
    Chosen(x, Index(x), Inverse(x), Table(x));
  }

  lemma AllEntered(x: Byte)
    ensures Entered(x)
  {
    hide Entered;
    if !x.b7 {
      if !x.b6 {
        if !x.b5 {
          if !x.b4 {
            Entered0(x);
          } else {
            Entered1(x);
          }
        } else {
          if !x.b4 {
            Entered2(x);
          } else {
            Entered3(x);
          }
        }
      } else {
        if !x.b5 {
          if !x.b4 {
            Entered4(x);
          } else {
            Entered5(x);
          }
        } else {
          if !x.b4 {
            Entered6(x);
          } else {
            Entered7(x);
          }
        }
      }
    } else {
      if !x.b6 {
        if !x.b5 {
          if !x.b4 {
            Entered8(x);
          } else {
            Entered9(x);
          }
        } else {
          if !x.b4 {
            EnteredA(x);
          } else {
            EnteredB(x);
          }
        }
      } else {
        if !x.b5 {
          if !x.b4 {
            EnteredC(x);
          } else {
            EnteredD(x);
          }
        } else {
          if !x.b4 {
            EnteredE(x);
          } else {
            EnteredF(x);
          }
        }
      }
    }
  }

  lemma LowOnly(x: Byte, h: bv8)
    ensures Cell(Indices(h), x) == h | Place(x.b0, 1) | Place(x.b1, 2) | Place(x.b2, 4) | Place(x.b3, 8)
  {
  }

  lemma HexIs(x: Byte)
    ensures Hex(High(x) | Place(x.b0, 1) | Place(x.b1, 2) | Place(x.b2, 4) | Place(x.b3, 8)) == x
  {
  }

  /** The byte of an entry's index is the byte looked up. */
  lemma IndexIs(x: Byte)
    ensures Hex(Cell(Index(x), x)) == x && (Cell(Index(x), x) == 0 <==> x == ZERO)
  {
    hide Cell;
    LowOnly(x, High(x));
    HexIs(x);
  }

  /** The substitution is the affine map of the inverse in the field, and of zero for zero. */
  lemma SubByteIs(x: Byte)
    ensures exists y :: (if x == ZERO then y == 0 else Product(x, Hex(y)) == ONE) && SubByte(x) == Hex(Affine(y))
  {
    hide Cell;
    hide Product;
    hide Affine;
    AllEntered(x);
    IndexIs(x);
    var n, i, e := Cell(Index(x), x), Cell(Inverse(x), x), Cell(Table(x), x);
    assert Known(n, i, e);
    assert Entry(n, i, e);
    assert SubByte(x) == Hex(Affine(i));
  }

  /** Each table undoes the other. */
  lemma SubRoundTrip(x: Byte)
    ensures InvSubByte(SubByte(x)) == x
  {
    hide Cell;
    hide Product;
    hide Affine;
    AllEntered(x);
    IndexIs(x);
  }
}
