/** The substitution box as figure 7 of FIPS 197 prints it. The inverses that the proofs name are checked by products in
    the field. */
module AesBox {
  import opened AesField

  ghost predicate Printed() {
    Sub(0x00) == 0x63 && Sub(0x01) == 0x7C && Sub(0x02) == 0x77 && Sub(0x03) == 0x7B &&
    Sub(0x04) == 0xF2 && Sub(0x05) == 0x6B && Sub(0x06) == 0x6F && Sub(0x07) == 0xC5 &&
    Sub(0x08) == 0x30 && Sub(0x09) == 0x01 && Sub(0x0A) == 0x67 && Sub(0x0B) == 0x2B &&
    Sub(0x0C) == 0xFE && Sub(0x0D) == 0xD7 && Sub(0x0E) == 0xAB && Sub(0x0F) == 0x76 &&
    Sub(0x10) == 0xCA && Sub(0x11) == 0x82 && Sub(0x12) == 0xC9 && Sub(0x13) == 0x7D &&
    Sub(0x14) == 0xFA && Sub(0x15) == 0x59 && Sub(0x16) == 0x47 && Sub(0x17) == 0xF0 &&
    Sub(0x18) == 0xAD && Sub(0x19) == 0xD4 && Sub(0x1A) == 0xA2 && Sub(0x1B) == 0xAF &&
    Sub(0x1C) == 0x9C && Sub(0x1D) == 0xA4 && Sub(0x1E) == 0x72 && Sub(0x1F) == 0xC0 &&
    Sub(0x20) == 0xB7 && Sub(0x21) == 0xFD && Sub(0x22) == 0x93 && Sub(0x23) == 0x26 &&
    Sub(0x24) == 0x36 && Sub(0x25) == 0x3F && Sub(0x26) == 0xF7 && Sub(0x27) == 0xCC &&
    Sub(0x28) == 0x34 && Sub(0x29) == 0xA5 && Sub(0x2A) == 0xE5 && Sub(0x2B) == 0xF1 &&
    Sub(0x2C) == 0x71 && Sub(0x2D) == 0xD8 && Sub(0x2E) == 0x31 && Sub(0x2F) == 0x15 &&
    Sub(0x30) == 0x04 && Sub(0x31) == 0xC7 && Sub(0x32) == 0x23 && Sub(0x33) == 0xC3 &&
    Sub(0x34) == 0x18 && Sub(0x35) == 0x96 && Sub(0x36) == 0x05 && Sub(0x37) == 0x9A &&
    Sub(0x38) == 0x07 && Sub(0x39) == 0x12 && Sub(0x3A) == 0x80 && Sub(0x3B) == 0xE2 &&
    Sub(0x3C) == 0xEB && Sub(0x3D) == 0x27 && Sub(0x3E) == 0xB2 && Sub(0x3F) == 0x75 &&
    Sub(0x40) == 0x09 && Sub(0x41) == 0x83 && Sub(0x42) == 0x2C && Sub(0x43) == 0x1A &&
    Sub(0x44) == 0x1B && Sub(0x45) == 0x6E && Sub(0x46) == 0x5A && Sub(0x47) == 0xA0 &&
    Sub(0x48) == 0x52 && Sub(0x49) == 0x3B && Sub(0x4A) == 0xD6 && Sub(0x4B) == 0xB3 &&
    Sub(0x4C) == 0x29 && Sub(0x4D) == 0xE3 && Sub(0x4E) == 0x2F && Sub(0x4F) == 0x84 &&
    Sub(0x50) == 0x53 && Sub(0x51) == 0xD1 && Sub(0x52) == 0x00 && Sub(0x53) == 0xED &&
    Sub(0x54) == 0x20 && Sub(0x55) == 0xFC && Sub(0x56) == 0xB1 && Sub(0x57) == 0x5B &&
    Sub(0x58) == 0x6A && Sub(0x59) == 0xCB && Sub(0x5A) == 0xBE && Sub(0x5B) == 0x39 &&
    Sub(0x5C) == 0x4A && Sub(0x5D) == 0x4C && Sub(0x5E) == 0x58 && Sub(0x5F) == 0xCF &&
    Sub(0x60) == 0xD0 && Sub(0x61) == 0xEF && Sub(0x62) == 0xAA && Sub(0x63) == 0xFB &&
    Sub(0x64) == 0x43 && Sub(0x65) == 0x4D && Sub(0x66) == 0x33 && Sub(0x67) == 0x85 &&
    Sub(0x68) == 0x45 && Sub(0x69) == 0xF9 && Sub(0x6A) == 0x02 && Sub(0x6B) == 0x7F &&
    Sub(0x6C) == 0x50 && Sub(0x6D) == 0x3C && Sub(0x6E) == 0x9F && Sub(0x6F) == 0xA8 &&
    Sub(0x70) == 0x51 && Sub(0x71) == 0xA3 && Sub(0x72) == 0x40 && Sub(0x73) == 0x8F &&
    Sub(0x74) == 0x92 && Sub(0x75) == 0x9D && Sub(0x76) == 0x38 && Sub(0x77) == 0xF5 &&
    Sub(0x78) == 0xBC && Sub(0x79) == 0xB6 && Sub(0x7A) == 0xDA && Sub(0x7B) == 0x21 &&
    Sub(0x7C) == 0x10 && Sub(0x7D) == 0xFF && Sub(0x7E) == 0xF3 && Sub(0x7F) == 0xD2 &&
    Sub(0x80) == 0xCD && Sub(0x81) == 0x0C && Sub(0x82) == 0x13 && Sub(0x83) == 0xEC &&
    Sub(0x84) == 0x5F && Sub(0x85) == 0x97 && Sub(0x86) == 0x44 && Sub(0x87) == 0x17 &&
    Sub(0x88) == 0xC4 && Sub(0x89) == 0xA7 && Sub(0x8A) == 0x7E && Sub(0x8B) == 0x3D &&
    Sub(0x8C) == 0x64 && Sub(0x8D) == 0x5D && Sub(0x8E) == 0x19 && Sub(0x8F) == 0x73 &&
    Sub(0x90) == 0x60 && Sub(0x91) == 0x81 && Sub(0x92) == 0x4F && Sub(0x93) == 0xDC &&
    Sub(0x94) == 0x22 && Sub(0x95) == 0x2A && Sub(0x96) == 0x90 && Sub(0x97) == 0x88 &&
    Sub(0x98) == 0x46 && Sub(0x99) == 0xEE && Sub(0x9A) == 0xB8 && Sub(0x9B) == 0x14 &&
    Sub(0x9C) == 0xDE && Sub(0x9D) == 0x5E && Sub(0x9E) == 0x0B && Sub(0x9F) == 0xDB &&
    Sub(0xA0) == 0xE0 && Sub(0xA1) == 0x32 && Sub(0xA2) == 0x3A && Sub(0xA3) == 0x0A &&
    Sub(0xA4) == 0x49 && Sub(0xA5) == 0x06 && Sub(0xA6) == 0x24 && Sub(0xA7) == 0x5C &&
    Sub(0xA8) == 0xC2 && Sub(0xA9) == 0xD3 && Sub(0xAA) == 0xAC && Sub(0xAB) == 0x62 &&
    Sub(0xAC) == 0x91 && Sub(0xAD) == 0x95 && Sub(0xAE) == 0xE4 && Sub(0xAF) == 0x79 &&
    Sub(0xB0) == 0xE7 && Sub(0xB1) == 0xC8 && Sub(0xB2) == 0x37 && Sub(0xB3) == 0x6D &&
    Sub(0xB4) == 0x8D && Sub(0xB5) == 0xD5 && Sub(0xB6) == 0x4E && Sub(0xB7) == 0xA9 &&
    Sub(0xB8) == 0x6C && Sub(0xB9) == 0x56 && Sub(0xBA) == 0xF4 && Sub(0xBB) == 0xEA &&
    Sub(0xBC) == 0x65 && Sub(0xBD) == 0x7A && Sub(0xBE) == 0xAE && Sub(0xBF) == 0x08 &&
    Sub(0xC0) == 0xBA && Sub(0xC1) == 0x78 && Sub(0xC2) == 0x25 && Sub(0xC3) == 0x2E &&
    Sub(0xC4) == 0x1C && Sub(0xC5) == 0xA6 && Sub(0xC6) == 0xB4 && Sub(0xC7) == 0xC6 &&
    Sub(0xC8) == 0xE8 && Sub(0xC9) == 0xDD && Sub(0xCA) == 0x74 && Sub(0xCB) == 0x1F &&
    Sub(0xCC) == 0x4B && Sub(0xCD) == 0xBD && Sub(0xCE) == 0x8B && Sub(0xCF) == 0x8A &&
    Sub(0xD0) == 0x70 && Sub(0xD1) == 0x3E && Sub(0xD2) == 0xB5 && Sub(0xD3) == 0x66 &&
    Sub(0xD4) == 0x48 && Sub(0xD5) == 0x03 && Sub(0xD6) == 0xF6 && Sub(0xD7) == 0x0E &&
    Sub(0xD8) == 0x61 && Sub(0xD9) == 0x35 && Sub(0xDA) == 0x57 && Sub(0xDB) == 0xB9 &&
    Sub(0xDC) == 0x86 && Sub(0xDD) == 0xC1 && Sub(0xDE) == 0x1D && Sub(0xDF) == 0x9E &&
    Sub(0xE0) == 0xE1 && Sub(0xE1) == 0xF8 && Sub(0xE2) == 0x98 && Sub(0xE3) == 0x11 &&
    Sub(0xE4) == 0x69 && Sub(0xE5) == 0xD9 && Sub(0xE6) == 0x8E && Sub(0xE7) == 0x94 &&
    Sub(0xE8) == 0x9B && Sub(0xE9) == 0x1E && Sub(0xEA) == 0x87 && Sub(0xEB) == 0xE9 &&
    Sub(0xEC) == 0xCE && Sub(0xED) == 0x55 && Sub(0xEE) == 0x28 && Sub(0xEF) == 0xDF &&
    Sub(0xF0) == 0x8C && Sub(0xF1) == 0xA1 && Sub(0xF2) == 0x89 && Sub(0xF3) == 0x0D &&
    Sub(0xF4) == 0xBF && Sub(0xF5) == 0xE6 && Sub(0xF6) == 0x42 && Sub(0xF7) == 0x68 &&
    Sub(0xF8) == 0x41 && Sub(0xF9) == 0x99 && Sub(0xFA) == 0x2D && Sub(0xFB) == 0x0F &&
    Sub(0xFC) == 0xB0 && Sub(0xFD) == 0x54 && Sub(0xFE) == 0xBB && Sub(0xFF) == 0x16
  }

  /** An entry, given the inverse of its place. */
  lemma Entry(x: bv8, z: bv8, v: bv8)
    requires (if x == 0 then z == 0 else FieldProduct(x, z) == 1) && Affine(z) == v
    ensures Sub(x) == v
  {
    hide Sub, Affine, FieldProduct;
    SubMeaning(x, z);
  }

  lemma Figure7()
    ensures Printed()
  {
    hide Sub;
    Part00();
    Part08();
    Part10();
    Part18();
    Part20();
    Part28();
    Part30();
    Part38();
    Part40();
    Part48();
    Part50();
    Part58();
    Part60();
    Part68();
    Part70();
    Part78();
    Part80();
    Part88();
    Part90();
    Part98();
    PartA0();
    PartA8();
    PartB0();
    PartB8();
    PartC0();
    PartC8();
    PartD0();
    PartD8();
    PartE0();
    PartE8();
    PartF0();
    PartF8();
  }

  lemma Part00()
    ensures Sub(0x00) == 0x63 && Sub(0x01) == 0x7C && Sub(0x02) == 0x77 && Sub(0x03) == 0x7B &&
            Sub(0x04) == 0xF2 && Sub(0x05) == 0x6B && Sub(0x06) == 0x6F && Sub(0x07) == 0xC5
  {
    hide Sub;
    Entry(0x00, 0x00, 0x63);
    Entry(0x01, 0x01, 0x7C);
    Entry(0x02, 0x8D, 0x77);
    Entry(0x03, 0xF6, 0x7B);
    Entry(0x04, 0xCB, 0xF2);
    Entry(0x05, 0x52, 0x6B);
    Entry(0x06, 0x7B, 0x6F);
    Entry(0x07, 0xD1, 0xC5);
  }

  lemma Part08()
    ensures Sub(0x08) == 0x30 && Sub(0x09) == 0x01 && Sub(0x0A) == 0x67 && Sub(0x0B) == 0x2B &&
            Sub(0x0C) == 0xFE && Sub(0x0D) == 0xD7 && Sub(0x0E) == 0xAB && Sub(0x0F) == 0x76
  {
    hide Sub;
    Entry(0x08, 0xE8, 0x30);
    Entry(0x09, 0x4F, 0x01);
    Entry(0x0A, 0x29, 0x67);
    Entry(0x0B, 0xC0, 0x2B);
    Entry(0x0C, 0xB0, 0xFE);
    Entry(0x0D, 0xE1, 0xD7);
    Entry(0x0E, 0xE5, 0xAB);
    Entry(0x0F, 0xC7, 0x76);
  }

  lemma Part10()
    ensures Sub(0x10) == 0xCA && Sub(0x11) == 0x82 && Sub(0x12) == 0xC9 && Sub(0x13) == 0x7D &&
            Sub(0x14) == 0xFA && Sub(0x15) == 0x59 && Sub(0x16) == 0x47 && Sub(0x17) == 0xF0
  {
    hide Sub;
    Entry(0x10, 0x74, 0xCA);
    Entry(0x11, 0xB4, 0x82);
    Entry(0x12, 0xAA, 0xC9);
    Entry(0x13, 0x4B, 0x7D);
    Entry(0x14, 0x99, 0xFA);
    Entry(0x15, 0x2B, 0x59);
    Entry(0x16, 0x60, 0x47);
    Entry(0x17, 0x5F, 0xF0);
  }

  lemma Part18()
    ensures Sub(0x18) == 0xAD && Sub(0x19) == 0xD4 && Sub(0x1A) == 0xA2 && Sub(0x1B) == 0xAF &&
            Sub(0x1C) == 0x9C && Sub(0x1D) == 0xA4 && Sub(0x1E) == 0x72 && Sub(0x1F) == 0xC0
  {
    hide Sub;
    Entry(0x18, 0x58, 0xAD);
    Entry(0x19, 0x3F, 0xD4);
    Entry(0x1A, 0xFD, 0xA2);
    Entry(0x1B, 0xCC, 0xAF);
    Entry(0x1C, 0xFF, 0x9C);
    Entry(0x1D, 0x40, 0xA4);
    Entry(0x1E, 0xEE, 0x72);
    Entry(0x1F, 0xB2, 0xC0);
  }

  lemma Part20()
    ensures Sub(0x20) == 0xB7 && Sub(0x21) == 0xFD && Sub(0x22) == 0x93 && Sub(0x23) == 0x26 &&
            Sub(0x24) == 0x36 && Sub(0x25) == 0x3F && Sub(0x26) == 0xF7 && Sub(0x27) == 0xCC
  {
    hide Sub;
    Entry(0x20, 0x3A, 0xB7);
    Entry(0x21, 0x6E, 0xFD);
    Entry(0x22, 0x5A, 0x93);
    Entry(0x23, 0xF1, 0x26);
    Entry(0x24, 0x55, 0x36);
    Entry(0x25, 0x4D, 0x3F);
    Entry(0x26, 0xA8, 0xF7);
    Entry(0x27, 0xC9, 0xCC);
  }

  lemma Part28()
    ensures Sub(0x28) == 0x34 && Sub(0x29) == 0xA5 && Sub(0x2A) == 0xE5 && Sub(0x2B) == 0xF1 &&
            Sub(0x2C) == 0x71 && Sub(0x2D) == 0xD8 && Sub(0x2E) == 0x31 && Sub(0x2F) == 0x15
  {
    hide Sub;
    Entry(0x28, 0xC1, 0x34);
    Entry(0x29, 0x0A, 0xA5);
    Entry(0x2A, 0x98, 0xE5);
    Entry(0x2B, 0x15, 0xF1);
    Entry(0x2C, 0x30, 0x71);
    Entry(0x2D, 0x44, 0xD8);
    Entry(0x2E, 0xA2, 0x31);
    Entry(0x2F, 0xC2, 0x15);
  }

  lemma Part30()
    ensures Sub(0x30) == 0x04 && Sub(0x31) == 0xC7 && Sub(0x32) == 0x23 && Sub(0x33) == 0xC3 &&
            Sub(0x34) == 0x18 && Sub(0x35) == 0x96 && Sub(0x36) == 0x05 && Sub(0x37) == 0x9A
  {
    hide Sub;
    Entry(0x30, 0x2C, 0x04);
    Entry(0x31, 0x45, 0xC7);
    Entry(0x32, 0x92, 0x23);
    Entry(0x33, 0x6C, 0xC3);
    Entry(0x34, 0xF3, 0x18);
    Entry(0x35, 0x39, 0x96);
    Entry(0x36, 0x66, 0x05);
    Entry(0x37, 0x42, 0x9A);
  }

  lemma Part38()
    ensures Sub(0x38) == 0x07 && Sub(0x39) == 0x12 && Sub(0x3A) == 0x80 && Sub(0x3B) == 0xE2 &&
            Sub(0x3C) == 0xEB && Sub(0x3D) == 0x27 && Sub(0x3E) == 0xB2 && Sub(0x3F) == 0x75
  {
    hide Sub;
    Entry(0x38, 0xF2, 0x07);
    Entry(0x39, 0x35, 0x12);
    Entry(0x3A, 0x20, 0x80);
    Entry(0x3B, 0x6F, 0xE2);
    Entry(0x3C, 0x77, 0xEB);
    Entry(0x3D, 0xBB, 0x27);
    Entry(0x3E, 0x59, 0xB2);
    Entry(0x3F, 0x19, 0x75);
  }

  lemma Part40()
    ensures Sub(0x40) == 0x09 && Sub(0x41) == 0x83 && Sub(0x42) == 0x2C && Sub(0x43) == 0x1A &&
            Sub(0x44) == 0x1B && Sub(0x45) == 0x6E && Sub(0x46) == 0x5A && Sub(0x47) == 0xA0
  {
    hide Sub;
    Entry(0x40, 0x1D, 0x09);
    Entry(0x41, 0xFE, 0x83);
    Entry(0x42, 0x37, 0x2C);
    Entry(0x43, 0x67, 0x1A);
    Entry(0x44, 0x2D, 0x1B);
    Entry(0x45, 0x31, 0x6E);
    Entry(0x46, 0xF5, 0x5A);
    Entry(0x47, 0x69, 0xA0);
  }

  lemma Part48()
    ensures Sub(0x48) == 0x52 && Sub(0x49) == 0x3B && Sub(0x4A) == 0xD6 && Sub(0x4B) == 0xB3 &&
            Sub(0x4C) == 0x29 && Sub(0x4D) == 0xE3 && Sub(0x4E) == 0x2F && Sub(0x4F) == 0x84
  {
    hide Sub;
    Entry(0x48, 0xA7, 0x52);
    Entry(0x49, 0x64, 0x3B);
    Entry(0x4A, 0xAB, 0xD6);
    Entry(0x4B, 0x13, 0xB3);
    Entry(0x4C, 0x54, 0x29);
    Entry(0x4D, 0x25, 0xE3);
    Entry(0x4E, 0xE9, 0x2F);
    Entry(0x4F, 0x09, 0x84);
  }

  lemma Part50()
    ensures Sub(0x50) == 0x53 && Sub(0x51) == 0xD1 && Sub(0x52) == 0x00 && Sub(0x53) == 0xED &&
            Sub(0x54) == 0x20 && Sub(0x55) == 0xFC && Sub(0x56) == 0xB1 && Sub(0x57) == 0x5B
  {
    hide Sub;
    Entry(0x50, 0xED, 0x53);
    Entry(0x51, 0x5C, 0xD1);
    Entry(0x52, 0x05, 0x00);
    Entry(0x53, 0xCA, 0xED);
    Entry(0x54, 0x4C, 0x20);
    Entry(0x55, 0x24, 0xFC);
    Entry(0x56, 0x87, 0xB1);
    Entry(0x57, 0xBF, 0x5B);
  }

  lemma Part58()
    ensures Sub(0x58) == 0x6A && Sub(0x59) == 0xCB && Sub(0x5A) == 0xBE && Sub(0x5B) == 0x39 &&
            Sub(0x5C) == 0x4A && Sub(0x5D) == 0x4C && Sub(0x5E) == 0x58 && Sub(0x5F) == 0xCF
  {
    hide Sub;
    Entry(0x58, 0x18, 0x6A);
    Entry(0x59, 0x3E, 0xCB);
    Entry(0x5A, 0x22, 0xBE);
    Entry(0x5B, 0xF0, 0x39);
    Entry(0x5C, 0x51, 0x4A);
    Entry(0x5D, 0xEC, 0x4C);
    Entry(0x5E, 0x61, 0x58);
    Entry(0x5F, 0x17, 0xCF);
  }

  lemma Part60()
    ensures Sub(0x60) == 0xD0 && Sub(0x61) == 0xEF && Sub(0x62) == 0xAA && Sub(0x63) == 0xFB &&
            Sub(0x64) == 0x43 && Sub(0x65) == 0x4D && Sub(0x66) == 0x33 && Sub(0x67) == 0x85
  {
    hide Sub;
    Entry(0x60, 0x16, 0xD0);
    Entry(0x61, 0x5E, 0xEF);
    Entry(0x62, 0xAF, 0xAA);
    Entry(0x63, 0xD3, 0xFB);
    Entry(0x64, 0x49, 0x43);
    Entry(0x65, 0xA6, 0x4D);
    Entry(0x66, 0x36, 0x33);
    Entry(0x67, 0x43, 0x85);
  }

  lemma Part68()
    ensures Sub(0x68) == 0x45 && Sub(0x69) == 0xF9 && Sub(0x6A) == 0x02 && Sub(0x6B) == 0x7F &&
            Sub(0x6C) == 0x50 && Sub(0x6D) == 0x3C && Sub(0x6E) == 0x9F && Sub(0x6F) == 0xA8
  {
    hide Sub;
    Entry(0x68, 0xF4, 0x45);
    Entry(0x69, 0x47, 0xF9);
    Entry(0x6A, 0x91, 0x02);
    Entry(0x6B, 0xDF, 0x7F);
    Entry(0x6C, 0x33, 0x50);
    Entry(0x6D, 0x93, 0x3C);
    Entry(0x6E, 0x21, 0x9F);
    Entry(0x6F, 0x3B, 0xA8);
  }

  lemma Part70()
    ensures Sub(0x70) == 0x51 && Sub(0x71) == 0xA3 && Sub(0x72) == 0x40 && Sub(0x73) == 0x8F &&
            Sub(0x74) == 0x92 && Sub(0x75) == 0x9D && Sub(0x76) == 0x38 && Sub(0x77) == 0xF5
  {
    hide Sub;
    Entry(0x70, 0x79, 0x51);
    Entry(0x71, 0xB7, 0xA3);
    Entry(0x72, 0x97, 0x40);
    Entry(0x73, 0x85, 0x8F);
    Entry(0x74, 0x10, 0x92);
    Entry(0x75, 0xB5, 0x9D);
    Entry(0x76, 0xBA, 0x38);
    Entry(0x77, 0x3C, 0xF5);
  }

  lemma Part78()
    ensures Sub(0x78) == 0xBC && Sub(0x79) == 0xB6 && Sub(0x7A) == 0xDA && Sub(0x7B) == 0x21 &&
            Sub(0x7C) == 0x10 && Sub(0x7D) == 0xFF && Sub(0x7E) == 0xF3 && Sub(0x7F) == 0xD2
  {
    hide Sub;
    Entry(0x78, 0xB6, 0xBC);
    Entry(0x79, 0x70, 0xB6);
    Entry(0x7A, 0xD0, 0xDA);
    Entry(0x7B, 0x06, 0x21);
    Entry(0x7C, 0xA1, 0x10);
    Entry(0x7D, 0xFA, 0xFF);
    Entry(0x7E, 0x81, 0xF3);
    Entry(0x7F, 0x82, 0xD2);
  }

  lemma Part80()
    ensures Sub(0x80) == 0xCD && Sub(0x81) == 0x0C && Sub(0x82) == 0x13 && Sub(0x83) == 0xEC &&
            Sub(0x84) == 0x5F && Sub(0x85) == 0x97 && Sub(0x86) == 0x44 && Sub(0x87) == 0x17
  {
    hide Sub;
    Entry(0x80, 0x83, 0xCD);
    Entry(0x81, 0x7E, 0x0C);
    Entry(0x82, 0x7F, 0x13);
    Entry(0x83, 0x80, 0xEC);
    Entry(0x84, 0x96, 0x5F);
    Entry(0x85, 0x73, 0x97);
    Entry(0x86, 0xBE, 0x44);
    Entry(0x87, 0x56, 0x17);
  }

  lemma Part88()
    ensures Sub(0x88) == 0xC4 && Sub(0x89) == 0xA7 && Sub(0x8A) == 0x7E && Sub(0x8B) == 0x3D &&
            Sub(0x8C) == 0x64 && Sub(0x8D) == 0x5D && Sub(0x8E) == 0x19 && Sub(0x8F) == 0x73
  {
    hide Sub;
    Entry(0x88, 0x9B, 0xC4);
    Entry(0x89, 0x9E, 0xA7);
    Entry(0x8A, 0x95, 0x7E);
    Entry(0x8B, 0xD9, 0x3D);
    Entry(0x8C, 0xF7, 0x64);
    Entry(0x8D, 0x02, 0x5D);
    Entry(0x8E, 0xB9, 0x19);
    Entry(0x8F, 0xA4, 0x73);
  }

  lemma Part90()
    ensures Sub(0x90) == 0x60 && Sub(0x91) == 0x81 && Sub(0x92) == 0x4F && Sub(0x93) == 0xDC &&
            Sub(0x94) == 0x22 && Sub(0x95) == 0x2A && Sub(0x96) == 0x90 && Sub(0x97) == 0x88
  {
    hide Sub;
    Entry(0x90, 0xDE, 0x60);
    Entry(0x91, 0x6A, 0x81);
    Entry(0x92, 0x32, 0x4F);
    Entry(0x93, 0x6D, 0xDC);
    Entry(0x94, 0xD8, 0x22);
    Entry(0x95, 0x8A, 0x2A);
    Entry(0x96, 0x84, 0x90);
    Entry(0x97, 0x72, 0x88);
  }

  lemma Part98()
    ensures Sub(0x98) == 0x46 && Sub(0x99) == 0xEE && Sub(0x9A) == 0xB8 && Sub(0x9B) == 0x14 &&
            Sub(0x9C) == 0xDE && Sub(0x9D) == 0x5E && Sub(0x9E) == 0x0B && Sub(0x9F) == 0xDB
  {
    hide Sub;
    Entry(0x98, 0x2A, 0x46);
    Entry(0x99, 0x14, 0xEE);
    Entry(0x9A, 0x9F, 0xB8);
    Entry(0x9B, 0x88, 0x14);
    Entry(0x9C, 0xF9, 0xDE);
    Entry(0x9D, 0xDC, 0x5E);
    Entry(0x9E, 0x89, 0x0B);
    Entry(0x9F, 0x9A, 0xDB);
  }

  lemma PartA0()
    ensures Sub(0xA0) == 0xE0 && Sub(0xA1) == 0x32 && Sub(0xA2) == 0x3A && Sub(0xA3) == 0x0A &&
            Sub(0xA4) == 0x49 && Sub(0xA5) == 0x06 && Sub(0xA6) == 0x24 && Sub(0xA7) == 0x5C
  {
    hide Sub;
    Entry(0xA0, 0xFB, 0xE0);
    Entry(0xA1, 0x7C, 0x32);
    Entry(0xA2, 0x2E, 0x3A);
    Entry(0xA3, 0xC3, 0x0A);
    Entry(0xA4, 0x8F, 0x49);
    Entry(0xA5, 0xB8, 0x06);
    Entry(0xA6, 0x65, 0x24);
    Entry(0xA7, 0x48, 0x5C);
  }

  lemma PartA8()
    ensures Sub(0xA8) == 0xC2 && Sub(0xA9) == 0xD3 && Sub(0xAA) == 0xAC && Sub(0xAB) == 0x62 &&
            Sub(0xAC) == 0x91 && Sub(0xAD) == 0x95 && Sub(0xAE) == 0xE4 && Sub(0xAF) == 0x79
  {
    hide Sub;
    Entry(0xA8, 0x26, 0xC2);
    Entry(0xA9, 0xC8, 0xD3);
    Entry(0xAA, 0x12, 0xAC);
    Entry(0xAB, 0x4A, 0x62);
    Entry(0xAC, 0xCE, 0x91);
    Entry(0xAD, 0xE7, 0x95);
    Entry(0xAE, 0xD2, 0xE4);
    Entry(0xAF, 0x62, 0x79);
  }

  lemma PartB0()
    ensures Sub(0xB0) == 0xE7 && Sub(0xB1) == 0xC8 && Sub(0xB2) == 0x37 && Sub(0xB3) == 0x6D &&
            Sub(0xB4) == 0x8D && Sub(0xB5) == 0xD5 && Sub(0xB6) == 0x4E && Sub(0xB7) == 0xA9
  {
    hide Sub;
    Entry(0xB0, 0x0C, 0xE7);
    Entry(0xB1, 0xE0, 0xC8);
    Entry(0xB2, 0x1F, 0x37);
    Entry(0xB3, 0xEF, 0x6D);
    Entry(0xB4, 0x11, 0x8D);
    Entry(0xB5, 0x75, 0xD5);
    Entry(0xB6, 0x78, 0x4E);
    Entry(0xB7, 0x71, 0xA9);
  }

  lemma PartB8()
    ensures Sub(0xB8) == 0x6C && Sub(0xB9) == 0x56 && Sub(0xBA) == 0xF4 && Sub(0xBB) == 0xEA &&
            Sub(0xBC) == 0x65 && Sub(0xBD) == 0x7A && Sub(0xBE) == 0xAE && Sub(0xBF) == 0x08
  {
    hide Sub;
    Entry(0xB8, 0xA5, 0x6C);
    Entry(0xB9, 0x8E, 0x56);
    Entry(0xBA, 0x76, 0xF4);
    Entry(0xBB, 0x3D, 0xEA);
    Entry(0xBC, 0xBD, 0x65);
    Entry(0xBD, 0xBC, 0x7A);
    Entry(0xBE, 0x86, 0xAE);
    Entry(0xBF, 0x57, 0x08);
  }

  lemma PartC0()
    ensures Sub(0xC0) == 0xBA && Sub(0xC1) == 0x78 && Sub(0xC2) == 0x25 && Sub(0xC3) == 0x2E &&
            Sub(0xC4) == 0x1C && Sub(0xC5) == 0xA6 && Sub(0xC6) == 0xB4 && Sub(0xC7) == 0xC6
  {
    hide Sub;
    Entry(0xC0, 0x0B, 0xBA);
    Entry(0xC1, 0x28, 0x78);
    Entry(0xC2, 0x2F, 0x25);
    Entry(0xC3, 0xA3, 0x2E);
    Entry(0xC4, 0xDA, 0x1C);
    Entry(0xC5, 0xD4, 0xA6);
    Entry(0xC6, 0xE4, 0xB4);
    Entry(0xC7, 0x0F, 0xC6);
  }

  lemma PartC8()
    ensures Sub(0xC8) == 0xE8 && Sub(0xC9) == 0xDD && Sub(0xCA) == 0x74 && Sub(0xCB) == 0x1F &&
            Sub(0xCC) == 0x4B && Sub(0xCD) == 0xBD && Sub(0xCE) == 0x8B && Sub(0xCF) == 0x8A
  {
    hide Sub;
    Entry(0xC8, 0xA9, 0xE8);
    Entry(0xC9, 0x27, 0xDD);
    Entry(0xCA, 0x53, 0x74);
    Entry(0xCB, 0x04, 0x1F);
    Entry(0xCC, 0x1B, 0x4B);
    Entry(0xCD, 0xFC, 0xBD);
    Entry(0xCE, 0xAC, 0x8B);
    Entry(0xCF, 0xE6, 0x8A);
  }

  lemma PartD0()
    ensures Sub(0xD0) == 0x70 && Sub(0xD1) == 0x3E && Sub(0xD2) == 0xB5 && Sub(0xD3) == 0x66 &&
            Sub(0xD4) == 0x48 && Sub(0xD5) == 0x03 && Sub(0xD6) == 0xF6 && Sub(0xD7) == 0x0E
  {
    hide Sub;
    Entry(0xD0, 0x7A, 0x70);
    Entry(0xD1, 0x07, 0x3E);
    Entry(0xD2, 0xAE, 0xB5);
    Entry(0xD3, 0x63, 0x66);
    Entry(0xD4, 0xC5, 0x48);
    Entry(0xD5, 0xDB, 0x03);
    Entry(0xD6, 0xE2, 0xF6);
    Entry(0xD7, 0xEA, 0x0E);
  }

  lemma PartD8()
    ensures Sub(0xD8) == 0x61 && Sub(0xD9) == 0x35 && Sub(0xDA) == 0x57 && Sub(0xDB) == 0xB9 &&
            Sub(0xDC) == 0x86 && Sub(0xDD) == 0xC1 && Sub(0xDE) == 0x1D && Sub(0xDF) == 0x9E
  {
    hide Sub;
    Entry(0xD8, 0x94, 0x61);
    Entry(0xD9, 0x8B, 0x35);
    Entry(0xDA, 0xC4, 0x57);
    Entry(0xDB, 0xD5, 0xB9);
    Entry(0xDC, 0x9D, 0x86);
    Entry(0xDD, 0xF8, 0xC1);
    Entry(0xDE, 0x90, 0x1D);
    Entry(0xDF, 0x6B, 0x9E);
  }

  lemma PartE0()
    ensures Sub(0xE0) == 0xE1 && Sub(0xE1) == 0xF8 && Sub(0xE2) == 0x98 && Sub(0xE3) == 0x11 &&
            Sub(0xE4) == 0x69 && Sub(0xE5) == 0xD9 && Sub(0xE6) == 0x8E && Sub(0xE7) == 0x94
  {
    hide Sub;
    Entry(0xE0, 0xB1, 0xE1);
    Entry(0xE1, 0x0D, 0xF8);
    Entry(0xE2, 0xD6, 0x98);
    Entry(0xE3, 0xEB, 0x11);
    Entry(0xE4, 0xC6, 0x69);
    Entry(0xE5, 0x0E, 0xD9);
    Entry(0xE6, 0xCF, 0x8E);
    Entry(0xE7, 0xAD, 0x94);
  }

  lemma PartE8()
    ensures Sub(0xE8) == 0x9B && Sub(0xE9) == 0x1E && Sub(0xEA) == 0x87 && Sub(0xEB) == 0xE9 &&
            Sub(0xEC) == 0xCE && Sub(0xED) == 0x55 && Sub(0xEE) == 0x28 && Sub(0xEF) == 0xDF
  {
    hide Sub;
    Entry(0xE8, 0x08, 0x9B);
    Entry(0xE9, 0x4E, 0x1E);
    Entry(0xEA, 0xD7, 0x87);
    Entry(0xEB, 0xE3, 0xE9);
    Entry(0xEC, 0x5D, 0xCE);
    Entry(0xED, 0x50, 0x55);
    Entry(0xEE, 0x1E, 0x28);
    Entry(0xEF, 0xB3, 0xDF);
  }

  lemma PartF0()
    ensures Sub(0xF0) == 0x8C && Sub(0xF1) == 0xA1 && Sub(0xF2) == 0x89 && Sub(0xF3) == 0x0D &&
            Sub(0xF4) == 0xBF && Sub(0xF5) == 0xE6 && Sub(0xF6) == 0x42 && Sub(0xF7) == 0x68
  {
    hide Sub;
    Entry(0xF0, 0x5B, 0x8C);
    Entry(0xF1, 0x23, 0xA1);
    Entry(0xF2, 0x38, 0x89);
    Entry(0xF3, 0x34, 0x0D);
    Entry(0xF4, 0x68, 0xBF);
    Entry(0xF5, 0x46, 0xE6);
    Entry(0xF6, 0x03, 0x42);
    Entry(0xF7, 0x8C, 0x68);
  }

  lemma PartF8()
    ensures Sub(0xF8) == 0x41 && Sub(0xF9) == 0x99 && Sub(0xFA) == 0x2D && Sub(0xFB) == 0x0F &&
            Sub(0xFC) == 0xB0 && Sub(0xFD) == 0x54 && Sub(0xFE) == 0xBB && Sub(0xFF) == 0x16
  {
    hide Sub;
    Entry(0xF8, 0xDD, 0x41);
    Entry(0xF9, 0x9C, 0x99);
    Entry(0xFA, 0x7D, 0x2D);
    Entry(0xFB, 0xA0, 0x0F);
    Entry(0xFC, 0xCD, 0xB0);
    Entry(0xFD, 0x1A, 0x54);
    Entry(0xFE, 0x41, 0xBB);
    Entry(0xFF, 0x1C, 0x16);
  }
}
