/**
  `S_BOX`: the eight substitution tables. A table row is written as one hexadecimal literal, one digit per
  column, so digit `c` from the left is the entry at address `{row, c}`.
 */
module DesSBox {

  /** The four rows of one substitution table. */
  datatype Box = Box(row0: bv64, row1: bv64, row2: bv64, row3: bv64)

  const S1 := Box(0xE4D12FB83A6C5907, 0x0F74E2D1A6CB9538, 0x41E8D62BFC973A50, 0xFC8249175B3EA06D)
  const S2 := Box(0xF18E6B34972DC05A, 0x3D47F28EC01A69B5, 0x0E7BA4D158C6932F, 0xD8A13F42B67C05E9)
  const S3 := Box(0xA09E63F51DC7B428, 0xD709346A285ECBF1, 0xD6498F30B12C5AE7, 0x1AD069874FE3B52C)
  const S4 := Box(0x7DE3069A1285BC4F, 0xD8B56F03472C1AE9, 0xA690CB7DF13E5284, 0x3F06A1D8945BC72E)
  const S5 := Box(0x2C417AB6853FD0E9, 0xEB2C47D150FA3986, 0x421BAD78F9C5630E, 0xB8C71E2D6F09A453)
  const S6 := Box(0xC1AF92680D34E75B, 0xAF427C9561DE0B38, 0x9EF528C3704A1DB6, 0x432C95FABE17608D)
  const S7 := Box(0x4B2EF08D3C975A61, 0xD0B7491AE35C2F86, 0x14BDC37EAF680592, 0x6BD814A7950FE23C)
  const S8 := Box(0xD2846FB1A93E50C7, 0x1FD8A374C56B0E92, 0x7B419CE206ADF358, 0x21E74A8DFC90356B)

  /** The entry in column `column` of a row. */
  function Entry(row: bv64, column: bv4): bv4 {
    ((row >> (60 - ((column as bv6) << 2))) & 0xF) as bv4
  }

  function Column(x: bv6): bv4 {
    ((x >> 1) & 0xF) as bv4
  }

  /** One table lookup: the outer two bits of the input choose the row, the inner four the column. */
  function Substitute(box: Box, x: bv6): bv4 {
    var column := Column(x);
    if x & 0x20 == 0 then
      if x & 1 == 0 then Entry(box.row0, column) else Entry(box.row1, column)
    else
      if x & 1 == 0 then Entry(box.row2, column) else Entry(box.row3, column)
  }

  // ---------- Every table row is a permutation ----------

  // The inverse rows: the digit at place `v` is the column in which the table has the value `v`.

  const T1 := Box(0xE3481CAF7D96B205, 0x075E3D92FC8BA641, 0xF16C0E5B3AD79428, 0xD63A48E725C91FB0)
  const T2 := Box(0xD1A67E4928F5CB30, 0x9A502FC36DBE8174, 0x07ED58B29C43A61F, 0xC3746D9A1F28B0E5)
  const T3 := Box(0x18E5D74BF20CA936, 0x2F845A61937DC0BE, 0x79A62C1F43D8B0E5, 0x30EB8D47651CF2A9)
  const T4 := Box(0x4893EB50A67CD12F, 0x6CA783491FD2B0E5, 0x39DAFC16E20547B8, 0x25E09A3D784BC6F1)
  const T5 := Box(0xD30A29748F561CEB, 0x972C48F5EDB1360A, 0xE21D0BC67943A5F8, 0xA46FDE831BC02759)
  const T6 := Box(0x815ABE6D742F09C3, 0xC93E2784F60D5AB1, 0x9C47A3F850BE6D12, 0xDA2105CBE4783F96)
  const T7 := Box(0x5F280CEB6AD19734, 0x16C94AF3E572B08D, 0xC0F51DA6BE824379, 0xA4DE59073861F2CB)
  const T8 := Box(0xD71A3C4F2986E0B5, 0xC0F579A63E4B82D1, 0x837D2E90F4A15B6C, 0xB10C4DE36A5F9728)

  predicate Inverts(inverse: Box, box: Box, column: bv4) {
    && Entry(inverse.row0, Entry(box.row0, column)) == column
    && Entry(inverse.row1, Entry(box.row1, column)) == column
    && Entry(inverse.row2, Entry(box.row2, column)) == column
    && Entry(inverse.row3, Entry(box.row3, column)) == column
  }

  function Table(i: nat): Box {
    match i
    case 1 => S1
    case 2 => S2
    case 3 => S3
    case 4 => S4
    case 5 => S5
    case 6 => S6
    case 7 => S7
    case _ => S8
  }

  function Inverse(i: nat): Box {
    match i
    case 1 => T1
    case 2 => T2
    case 3 => T3
    case 4 => T4
    case 5 => T5
    case 6 => T6
    case 7 => T7
    case _ => T8
  }

  lemma FirstInverses(column: bv4)
    ensures Inverts(T1, S1, column) && Inverts(T2, S2, column) && Inverts(T3, S3, column) && Inverts(T4, S4, column)
  {
  }

  lemma LastInverses(column: bv4)
    ensures Inverts(T5, S5, column) && Inverts(T6, S6, column) && Inverts(T7, S7, column) && Inverts(T8, S8, column)
  {
  }

  lemma InverseInverts(i: nat, column: bv4)
    ensures Inverts(Inverse(i), Table(i), column)
  {
    hide Inverts;
    FirstInverses(column);
    LastInverses(column);
  }

  lemma SameOuterBits(x: bv6, y: bv6)
    requires (x ^ y) & 0x21 == 0
    ensures x & 0x20 == y & 0x20 && x & 1 == y & 1
  {
  }

  lemma SameRow(x: bv6, y: bv6)
    requires (x ^ y) & 0x21 == 0 && Column(x) == Column(y)
    ensures x == y
  {
  }

  lemma InjectiveInRow(box: Box, inverse: Box, x: bv6, y: bv6)
    requires Inverts(inverse, box, Column(x)) && Inverts(inverse, box, Column(y))
    requires (x ^ y) & 0x21 == 0 && Substitute(box, x) == Substitute(box, y)
    ensures x == y
  {
    SameOuterBits(x, y);
    assert Column(x) == Column(y);
    SameRow(x, y);
  }

  /** In every table, the output tells the inputs of a row apart. */
  lemma TablesAreInjectiveInRows(i: nat, x: bv6, y: bv6)
    requires (x ^ y) & 0x21 == 0 && Substitute(Table(i), x) == Substitute(Table(i), y)
    ensures x == y
  {
    hide Inverts, Table, Inverse, Substitute, Column;
    InverseInverts(i, Column(x));
    InverseInverts(i, Column(y));
    InjectiveInRow(Table(i), Inverse(i), x, y);
  }

  // ---------- What the tables were chosen for ----------

  predicate OneBit(d: bv6) {
    d != 0 && d & (d - 1) == 0
  }

  predicate AtLeastTwoBits(d: bv4) {
    d & (d - 1) != 0
  }

  /** Inputs that differ in one bit, or in just the two middle ones, give outputs that differ in two bits or more. */
  predicate Spreads(box: Box, x: bv6, d: bv6) {
    OneBit(d) || d == 0x0C ==> AtLeastTwoBits(Substitute(box, x) ^ Substitute(box, x ^ d))
  }

  /** Inputs that differ in the first two bits, and not in the last two, give different outputs. */
  predicate Separates(box: Box, x: bv6, d: bv6) {
    d & 0x33 == 0x30 ==> Substitute(box, x) != Substitute(box, x ^ d)
  }

  lemma Spreads1(x: bv6, d: bv6)
    ensures Spreads(S1, x, d)
  {
  }

  lemma Separates1(x: bv6, d: bv6)
    ensures Separates(S1, x, d)
  {
  }

  lemma Spreads2(x: bv6, d: bv6)
    ensures Spreads(S2, x, d)
  {
  }

  lemma Separates2(x: bv6, d: bv6)
    ensures Separates(S2, x, d)
  {
  }

  lemma Spreads3(x: bv6, d: bv6)
    ensures Spreads(S3, x, d)
  {
  }

  lemma Separates3(x: bv6, d: bv6)
    ensures Separates(S3, x, d)
  {
  }

  lemma Spreads4(x: bv6, d: bv6)
    ensures Spreads(S4, x, d)
  {
  }

  lemma Separates4(x: bv6, d: bv6)
    ensures Separates(S4, x, d)
  {
  }

  lemma Spreads5(x: bv6, d: bv6)
    ensures Spreads(S5, x, d)
  {
  }

  lemma Separates5(x: bv6, d: bv6)
    ensures Separates(S5, x, d)
  {
  }

  lemma Spreads6(x: bv6, d: bv6)
    ensures Spreads(S6, x, d)
  {
  }

  lemma Separates6(x: bv6, d: bv6)
    ensures Separates(S6, x, d)
  {
  }

  lemma Spreads7(x: bv6, d: bv6)
    ensures Spreads(S7, x, d)
  {
  }

  lemma Separates7(x: bv6, d: bv6)
    ensures Separates(S7, x, d)
  {
  }

  lemma Spreads8(x: bv6, d: bv6)
    ensures Spreads(S8, x, d)
  {
  }

  lemma Separates8(x: bv6, d: bv6)
    ensures Separates(S8, x, d)
  {
  }

  lemma TablesSpread(i: nat, x: bv6, d: bv6)
    ensures Spreads(Table(i), x, d)
  {
    hide Spreads;
    Spreads1(x, d);
    Spreads2(x, d);
    Spreads3(x, d);
    Spreads4(x, d);
    Spreads5(x, d);
    Spreads6(x, d);
    Spreads7(x, d);
    Spreads8(x, d);
  }

  lemma TablesSeparate(i: nat, x: bv6, d: bv6)
    ensures Separates(Table(i), x, d)
  {
    hide Separates;
    Separates1(x, d);
    Separates2(x, d);
    Separates3(x, d);
    Separates4(x, d);
    Separates5(x, d);
    Separates6(x, d);
    Separates7(x, d);
    Separates8(x, d);
  }
}
