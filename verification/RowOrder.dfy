// Sort columns of a table row and the row comparator of ECTableRow.
module RowOrder {

  type Byte = x: int | 0 <= x < 256
  type Bytes = seq<Byte>

  // The three TABLEROW_FLAG_* bits of a sort column.
  datatype ColFlags = ColFlags(desc: bool, float: bool, str: bool)
  datatype SortCol = SortCol(flags: ColFlags, isNull: bool, key: Bytes)
  type Cols = seq<SortCol>

  // The collation-key comparison for string columns lives in an external library,
  // so it is a parameter of everything below.
  type Collator = (Bytes, Bytes) -> int

  const SIZEOF_DOUBLE := 8

  function Min(a: nat, b: nat): nat { if a < b then a else b }

  // ---------------------------------------------------------------------------
  // Doubles: 8 bytes, little endian, IEEE 754 binary64.

  function LittleEndian(k: Bytes): nat {
    if k == [] then 0 else k[0] + 256 * LittleEndian(k[1..])
  }

  function Magnitude(k: Bytes): nat { LittleEndian(k) % 0x8000_0000_0000_0000 }

  predicate IsNegative(k: Bytes) { LittleEndian(k) >= 0x8000_0000_0000_0000 }

  predicate IsNaN(k: Bytes) { Magnitude(k) > 0x7FF0_0000_0000_0000 }

  // The encodings of non-NaN doubles are ordered as sign and magnitude; both zeroes are 0.
  function OrderKey(k: Bytes): int { if IsNegative(k) then 0 - Magnitude(k) else Magnitude(k) }

  // Every IEEE comparison with a NaN is false.
  predicate DoubleEq(a: Bytes, b: Bytes) { !IsNaN(a) && !IsNaN(b) && OrderKey(a) == OrderKey(b) }

  predicate DoubleLess(a: Bytes, b: Bytes) { !IsNaN(a) && !IsNaN(b) && OrderKey(a) < OrderKey(b) }

  // ---------------------------------------------------------------------------
  // One column.

  function Memcmp(a: Bytes, b: Bytes, n: nat): int
    requires n <= |a| && n <= |b|
  {
    if n == 0 then 0
    else if a[0] != b[0] then a[0] - b[0]
    else Memcmp(a[1..], b[1..], n - 1)
  }

  // What `cmp` holds after the if-chain in the loop body.
  function KeyCmp(collate: Collator, a: SortCol, b: SortCol): int {
    if a.flags.float then
      if |a.key| != SIZEOF_DOUBLE || |b.key| != SIZEOF_DOUBLE then 0
      else if DoubleEq(a.key, b.key) then 0
      else if DoubleLess(a.key, b.key) then -1
      else 1
    else if a.isNull && b.isNull then 0
    else if a.isNull then -1
    else if b.isNull then 1
    else if a.flags.str then collate(a.key, b.key)
    else Memcmp(a.key, b.key, Min(|a.key|, |b.key|))
  }

  // Three-way order of two columns, ascending: key first, then key size.
  function ColOrder(collate: Collator, a: SortCol, b: SortCol): int {
    var c := KeyCmp(collate, a, b);
    if c != 0 then c else |a.key| - |b.key|
  }

  // ---------------------------------------------------------------------------
  // Rows, lexicographically.  A row that runs out of columns comes first.

  predicate RowLess(collate: Collator, a: Cols, b: Cols, ignoreOrder: bool := false) {
    if a == [] || b == [] then |a| < |b|
    else
      var c := ColOrder(collate, a[0], b[0]);
      if c == 0 then RowLess(collate, a[1..], b[1..], ignoreOrder)
      else if a[0].flags.desc && !ignoreOrder then c > 0
      else c < 0
  }

  function Prefix(a: Cols, n: nat): (p: Cols)
    ensures |p| == Min(|a|, n)
  {
    a[..Min(|a|, n)]
  }

  // The loop of the original comparator.
  method RowCompare(collate: Collator, a: Cols, b: Cols, ignoreOrder: bool := false) returns (less: bool)
    ensures less == RowLess(collate, a, b, ignoreOrder)
  {
    var ret := false;
    var i := 0;
    var sortCols := Min(|a|, |b|);
    while i < sortCols
      invariant 0 <= i <= sortCols
      invariant RowLess(collate, a, b, ignoreOrder) == RowLess(collate, a[i..], b[i..], ignoreOrder)
    {
      assert a[i..][0] == a[i] && b[i..][0] == b[i];
      assert a[i..][1..] == a[i + 1..] && b[i..][1..] == b[i + 1..];
      var cmp := KeyCmp(collate, a[i], b[i]);
      if cmp < 0 {
        ret := true;
        break;
      } else if cmp == 0 {
        if |a[i].key| == |b[i].key| {
          i := i + 1;
          continue;
        }
        ret := |a[i].key| < |b[i].key|;
        break;
      } else {
        ret := false;
        break;
      }
    }
    if i == sortCols {
      if |a| == |b| {
        return false;
      }
      return |a| < |b|;
    }
    if !ignoreOrder && a[i].flags.desc {
      return !ret;
    }
    return ret;
  }

  method RowComparePrefix(collate: Collator, prefix: nat, a: Cols, b: Cols) returns (less: bool)
    ensures less == RowLess(collate, Prefix(a, prefix), Prefix(b, prefix))
  {
    less := RowCompare(collate, Prefix(a, prefix), Prefix(b, prefix));
  }

  // ---------------------------------------------------------------------------
  // Strict weak order, for rows built to one schema.

  ghost predicate TotalPreorder(collate: Collator) {
    && (forall a, b :: collate(a, b) < 0 <==> collate(b, a) > 0)
    && (forall a, b, c :: collate(a, b) <= 0 && collate(b, c) <= 0 ==> collate(a, c) <= 0)
  }

  // A column carries the flags of its position and, if it is a double, is not a NaN.
  predicate ColOk(f: ColFlags, c: SortCol) {
    c.flags == f && !(f.float && |c.key| == SIZEOF_DOUBLE && IsNaN(c.key))
  }

  predicate RowOk(schema: seq<ColFlags>, cols: Cols) {
    |cols| <= |schema| && forall i :: 0 <= i < |cols| ==> ColOk(schema[i], cols[i])
  }

  function Lex(a: Bytes, b: Bytes): int {
    if a == [] || b == [] then |a| - |b|
    else if a[0] != b[0] then a[0] - b[0]
    else Lex(a[1..], b[1..])
  }

  lemma {:induction false} MemcmpIsLex(a: Bytes, b: Bytes)
    ensures var c := Memcmp(a, b, Min(|a|, |b|)); Lex(a, b) == (if c != 0 then c else |a| - |b|)
  {
    if a != [] && b != [] && a[0] == b[0] {
      MemcmpIsLex(a[1..], b[1..]);
    }
  }

  lemma {:induction false} LexFlips(a: Bytes, b: Bytes)
    ensures Lex(a, b) == -Lex(b, a)
  {
    if a != [] && b != [] && a[0] == b[0] {
      LexFlips(a[1..], b[1..]);
    }
  }

  lemma {:induction false} LexTransitive(a: Bytes, b: Bytes, c: Bytes)
    requires Lex(a, b) <= 0 && Lex(b, c) <= 0
    ensures Lex(a, c) <= 0
  {
    if a != [] && b != [] && c != [] && a[0] == b[0] == c[0] {
      LexTransitive(a[1..], b[1..], c[1..]);
    }
  }

  lemma {:induction false} ColOrderFlips(collate: Collator, f: ColFlags, a: SortCol, b: SortCol)
    requires TotalPreorder(collate) && ColOk(f, a) && ColOk(f, b)
    ensures ColOrder(collate, a, b) < 0 <==> ColOrder(collate, b, a) > 0
  {
    MemcmpIsLex(a.key, b.key);
    MemcmpIsLex(b.key, a.key);
    LexFlips(a.key, b.key);
  }

  lemma {:induction false} ColOrderTransitive(collate: Collator, f: ColFlags, a: SortCol, b: SortCol, c: SortCol)
    requires TotalPreorder(collate) && ColOk(f, a) && ColOk(f, b) && ColOk(f, c)
    requires ColOrder(collate, a, b) <= 0 && ColOrder(collate, b, c) <= 0
    ensures ColOrder(collate, a, c) <= 0
  {
    if f.float || f.str || a.isNull || b.isNull || c.isNull {
    } else {
      MemcmpIsLex(a.key, b.key);
      MemcmpIsLex(b.key, c.key);
      MemcmpIsLex(a.key, c.key);
      LexTransitive(a.key, b.key, c.key);
    }
  }

  // Asymmetry (and so irreflexivity).
  lemma {:induction false} RowLessAsymmetric(collate: Collator, schema: seq<ColFlags>, a: Cols, b: Cols)
    requires TotalPreorder(collate) && RowOk(schema, a) && RowOk(schema, b)
    ensures !(RowLess(collate, a, b) && RowLess(collate, b, a))
  {
    if a != [] && b != [] {
      ColOrderFlips(collate, schema[0], a[0], b[0]);
      ColOrderFlips(collate, schema[0], b[0], a[0]);
      RowLessAsymmetric(collate, schema[1..], a[1..], b[1..]);
    }
  }

  // "Not greater" is transitive.  With asymmetry this makes RowLess a strict weak order:
  // both RowLess and incomparability are transitive.
  lemma {:induction false} RowNotGreaterTransitive(collate: Collator, schema: seq<ColFlags>, a: Cols, b: Cols, c: Cols)
    requires TotalPreorder(collate) && RowOk(schema, a) && RowOk(schema, b) && RowOk(schema, c)
    requires !RowLess(collate, b, a) && !RowLess(collate, c, b)
    ensures !RowLess(collate, c, a)
  {
    if a != [] && b != [] && c != [] {
      var f := schema[0];
      ColOrderFlips(collate, f, a[0], b[0]);
      ColOrderFlips(collate, f, b[0], a[0]);
      ColOrderFlips(collate, f, b[0], c[0]);
      ColOrderFlips(collate, f, c[0], b[0]);
      ColOrderFlips(collate, f, a[0], c[0]);
      ColOrderFlips(collate, f, c[0], a[0]);
      if f.desc {
        ColsChain(collate, f, c[0], b[0], a[0]);
      } else {
        ColsChain(collate, f, a[0], b[0], c[0]);
      }
      if ColOrder(collate, a[0], b[0]) == 0 && ColOrder(collate, b[0], c[0]) == 0 {
        RowNotGreaterTransitive(collate, schema[1..], a[1..], b[1..], c[1..]);
      }
    }
  }

  // a <= b <= c, with strictness carried along.
  lemma {:induction false} ColsChain(collate: Collator, f: ColFlags, a: SortCol, b: SortCol, c: SortCol)
    requires TotalPreorder(collate) && ColOk(f, a) && ColOk(f, b) && ColOk(f, c)
    ensures ColOrder(collate, a, b) <= 0 && ColOrder(collate, b, c) <= 0 ==>
              && ColOrder(collate, a, c) <= 0
              && (ColOrder(collate, a, c) == 0 <==> ColOrder(collate, a, b) == 0 && ColOrder(collate, b, c) == 0)
  {
    if ColOrder(collate, a, b) <= 0 && ColOrder(collate, b, c) <= 0 {
      ColOrderTransitive(collate, f, a, b, c);
      ColOrderFlips(collate, f, a, b);
      ColOrderFlips(collate, f, b, a);
      ColOrderFlips(collate, f, b, c);
      ColOrderFlips(collate, f, c, b);
      ColOrderFlips(collate, f, a, c);
      ColOrderFlips(collate, f, c, a);
      if ColOrder(collate, a, c) == 0 {
        ColOrderTransitive(collate, f, b, c, a);
        ColOrderTransitive(collate, f, c, a, b);
      } else if ColOrder(collate, a, b) == 0 && ColOrder(collate, b, c) == 0 {
        ColOrderTransitive(collate, f, c, b, a);
      }
    }
  }

  // Cutting both rows to their leading n columns keeps "not greater".
  lemma {:induction false} PrefixMonotone(collate: Collator, a: Cols, b: Cols, n: nat)
    requires !RowLess(collate, b, a)
    ensures !RowLess(collate, Prefix(b, n), Prefix(a, n))
  {
    if a != [] && b != [] && n > 0 {
      assert Prefix(a, n)[1..] == Prefix(a[1..], n - 1);
      assert Prefix(b, n)[1..] == Prefix(b[1..], n - 1);
      if ColOrder(collate, b[0], a[0]) == 0 {
        PrefixMonotone(collate, a[1..], b[1..], n - 1);
      }
    }
  }

  // ---------------------------------------------------------------------------
  // Outside the schema the order breaks down.

  predicate NaNColumn(c: SortCol) { c.flags.float && |c.key| == SIZEOF_DOUBLE && IsNaN(c.key) }

  // A row is less than itself exactly when its first NaN column is descending.
  lemma {:induction false} SelfLessExactly(collate: Collator, a: Cols)
    requires TotalPreorder(collate)
    ensures RowLess(collate, a, a) <==>
            exists i :: 0 <= i < |a| && NaNColumn(a[i]) && a[i].flags.desc && forall j :: 0 <= j < i ==>
                !NaNColumn(a[j])
  {
    if a != [] {
      var t := a[1..];
      MemcmpIsLex(a[0].key, a[0].key);
      LexFlips(a[0].key, a[0].key);
      assert collate(a[0].key, a[0].key) == 0;
      assert ColOrder(collate, a[0], a[0]) == 0 <==> !NaNColumn(a[0]);
      SelfLessExactly(collate, t);
      if !NaNColumn(a[0]) {
        if i :| 0 <= i < |t| && NaNColumn(t[i]) && t[i].flags.desc && forall j :: 0 <= j < i ==> !NaNColumn(t[j]) {
          assert NaNColumn(a[i + 1]) && forall j :: 0 <= j < i + 1 ==> !NaNColumn(a[j]) by {
            assert forall j :: 1 <= j < i + 1 ==> a[j] == t[j - 1];
          }
        }
        if i :| 0 <= i < |a| && NaNColumn(a[i]) && a[i].flags.desc && forall j :: 0 <= j < i ==> !NaNColumn(a[j]) {
          assert NaNColumn(t[i - 1]) && forall j :: 0 <= j < i - 1 ==> !NaNColumn(t[j]) by {
            assert forall j :: 0 <= j < i - 1 ==> t[j] == a[j + 1];
          }
        }
      }
    }
  }

  function Double(f: ColFlags, highBytes: Bytes): SortCol
    requires |highBytes| == 2
  {
    SortCol(f, false, [0, 0, 0, 0, 0, 0] + highBytes)
  }

  // Two rows that agree up to column i, where one of the two doubles is a NaN: the direction alone decides.
  lemma {:induction false} NaNDecides(collate: Collator, a: Cols, b: Cols, i: nat)
    requires i < |a| && i < |b| && a[i].flags == b[i].flags && a[i].flags.float
    requires |a[i].key| == SIZEOF_DOUBLE && |b[i].key| == SIZEOF_DOUBLE && (IsNaN(a[i].key) || IsNaN(b[i].key))
    requires forall j :: 0 <= j < i ==> ColOrder(collate, a[j], b[j]) == 0 && ColOrder(collate, b[j], a[j]) == 0
    ensures RowLess(collate, a, b) == RowLess(collate, b, a) == a[i].flags.desc
  {
    if i > 0 {
      NaNDecides(collate, a[1..], b[1..], i - 1);
    }
  }

  // A column beside any two well-formed ones of its position: neither less both ways, nor out of line.
  ghost predicate Comparable(collate: Collator, f: ColFlags, c: SortCol) {
    forall x, y :: ColOk(f, x) && ColOk(f, y) ==>
      && !(RowLess(collate, [c], [x]) && RowLess(collate, [x], [c]))
      && (!RowLess(collate, [c], [x]) && !RowLess(collate, [y], [c]) ==> !RowLess(collate, [y], [x]))
  }

  lemma {:induction false} NaNBreaksTheOrder(collate: Collator, c: SortCol)
    requires NaNColumn(c)
    ensures !Comparable(collate, c.flags, c)
  {
    var one, two := Double(c.flags, [0xF0, 0x3F]), Double(c.flags, [0x00, 0x40]);
    HighBytes([0xF0, 0x3F]);
    HighBytes([0x00, 0x40]);
    assert ColOk(c.flags, one) && ColOk(c.flags, two) && ColOrder(collate, one, two) == -1;
    NaNDecides(collate, [c], [one], 0);
    NaNDecides(collate, [c], [two], 0);
    assert !c.flags.desc ==> RowLess(collate, [one], [two]);
  }

  // NaN is the only column of the right flags that breaks the order.
  lemma {:induction false} OnlyNaNBreaksTheOrder(collate: Collator, c: SortCol)
    requires TotalPreorder(collate)
    ensures Comparable(collate, c.flags, c) <==> !NaNColumn(c)
  {
    if NaNColumn(c) {
      NaNBreaksTheOrder(collate, c);
    } else {
      forall x, y | ColOk(c.flags, x) && ColOk(c.flags, y)
        ensures !(RowLess(collate, [c], [x]) && RowLess(collate, [x], [c]))
        ensures !RowLess(collate, [c], [x]) && !RowLess(collate, [y], [c]) ==> !RowLess(collate, [y], [x])
      {
        RowLessAsymmetric(collate, [c.flags], [c], [x]);
        if !RowLess(collate, [c], [x]) && !RowLess(collate, [y], [c]) {
          RowNotGreaterTransitive(collate, [c.flags], [x], [c], [y]);
        }
      }
    }
  }

  lemma {:induction false} HighBytes(h: Bytes)
    requires |h| == 2
    ensures LittleEndian([0, 0, 0, 0, 0, 0] + h) == 0x1_0000_0000_0000 * ((h[0] as int) + 256 * (h[1] as int))
  {
    assert LittleEndian(h) == (h[0] as int) + 256 * (h[1] as int) by {
      assert LittleEndian(h[1..]) == h[1];
    }
    LeadingZero(h);
    LeadingZero([0] + h);
    LeadingZero([0] + ([0] + h));
    LeadingZero([0] + ([0] + ([0] + h)));
    LeadingZero([0] + ([0] + ([0] + ([0] + h))));
    LeadingZero([0] + ([0] + ([0] + ([0] + ([0] + h)))));
    assert [0, 0, 0, 0, 0, 0] + h == [0] + ([0] + ([0] + ([0] + ([0] + ([0] + h)))));
  }

  lemma {:induction false} LeadingZero(k: Bytes)
    ensures LittleEndian([0] + k) == 256 * LittleEndian(k)
  {
    assert ([0] + k)[1..] == k;
  }

  // Two columns of different flags, each less than the other.
  ghost predicate Clash(collate: Collator, f: ColFlags, g: ColFlags) {
    exists a, b :: ColOk(f, a) && ColOk(g, b) && RowLess(collate, [a], [b]) && RowLess(collate, [b], [a])
  }

  // Flags clash exactly if they differ in direction or in being a double; for two flags that
  // differ in being a string only, it depends on the collation, which is not known here.
  lemma {:induction false} MixedFlagsBreakTheOrder(collate: Collator, f: ColFlags, g: ColFlags)
    requires TotalPreorder(collate) && (f.str == g.str || f.float || g.float)
    ensures Clash(collate, f, g) <==> f.desc != g.desc || f.float != g.float
  {
    hide RowLess;
    if f.desc != g.desc {
      var longer, shorter := if f.desc then f else g, if f.desc then g else f;
      var a, b := SortCol(longer, false, [0]), SortCol(shorter, true, []);
      OneColumn(collate, a, b);
      OneColumn(collate, b, a);
    } else if f.float != g.float {
      var double, other := if f.float then f else g, if f.float then g else f;
      var a := SortCol(double, f.desc, if f.desc then [0] else []);
      var b := SortCol(other, !f.desc, if f.desc then [] else [0]);
      OneColumn(collate, a, b);
      OneColumn(collate, b, a);
    } else if Clash(collate, f, g) {
      var a, b :| ColOk(f, a) && ColOk(g, b) && RowLess(collate, [a], [b]) && RowLess(collate, [b], [a]);
      OneColumn(collate, a, b);
      OneColumn(collate, b, a);
      OneColumn(collate, a, b.(flags := f));
      OneColumn(collate, b.(flags := f), a);
      RowLessAsymmetric(collate, [f], [a], [b.(flags := f)]);
    }
  }

  lemma {:induction false} OneColumn(collate: Collator, a: SortCol, b: SortCol)
    ensures RowLess(collate, [a], [b]) <==>
              if a.flags.desc then ColOrder(collate, a, b) > 0 else ColOrder(collate, a, b) < 0
  {
    assert !RowLess(collate, [a][1..], [b][1..]);
  }

  // ---------------------------------------------------------------------------
  // The doubles that the keys encode: sign, 11 bits of exponent, 52 bits of fraction

  function Exponent(k: Bytes): (e: nat)
    requires |k| == SIZEOF_DOUBLE
    ensures e < 0x800
  {
    (k[7] as int) % 128 * 16 + (k[6] as int) / 16
  }

  function Fraction(k: Bytes): (f: nat)
    requires |k| == SIZEOF_DOUBLE
    ensures f < 0x10_0000_0000_0000
  {
    (k[6] as int) % 16 * 0x1_0000_0000_0000 + (k[5] as int) * 0x100_0000_0000 + (k[4] as int) * 0x1_0000_0000
    + (k[3] as int) * 0x100_0000 + (k[2] as int) * 0x1_0000 + (k[1] as int) * 0x100 + (k[0] as int)
  }

  predicate Finite(k: Bytes)
    requires |k| == SIZEOF_DOUBLE
  {
    Exponent(k) < 0x7FF
  }

  predicate Infinite(k: Bytes)
    requires |k| == SIZEOF_DOUBLE
  {
    Exponent(k) == 0x7FF && Fraction(k) == 0
  }

  function Power2(n: nat): (p: nat)
    ensures p > 0
  {
    if n == 0 then 1 else 2 * Power2(n - 1)
  }

  // The size of a finite double, in units of the smallest one there is.
  function Scaled(exponent: nat, fraction: nat): nat {
    if exponent == 0 then fraction else (0x10_0000_0000_0000 + fraction) * Power2(exponent - 1)
  }

  function Value(k: Bytes): int
    requires |k| == SIZEOF_DOUBLE && Finite(k)
  {
    if k[7] >= 128 then 0 - Scaled(Exponent(k), Fraction(k)) else Scaled(Exponent(k), Fraction(k))
  }

  lemma {:induction false} LittleEndianIs(k: Bytes)
    requires |k| == SIZEOF_DOUBLE
    ensures LittleEndian(k)
            == (k[7] as int) / 128 * 0x8000_0000_0000_0000 + Exponent(k) * 0x10_0000_0000_0000 + Fraction(k)
  {
    assert LittleEndian(k[7..]) == k[7] by {
      assert k[7..][1..] == [];
    }
    assert LittleEndian(k[6..]) == k[6] + 256 * LittleEndian(k[7..]) by { assert k[6..][1..] == k[7..]; }
    assert LittleEndian(k[5..]) == k[5] + 256 * LittleEndian(k[6..]) by { assert k[5..][1..] == k[6..]; }
    assert LittleEndian(k[4..]) == k[4] + 256 * LittleEndian(k[5..]) by { assert k[4..][1..] == k[5..]; }
    assert LittleEndian(k[3..]) == k[3] + 256 * LittleEndian(k[4..]) by { assert k[3..][1..] == k[4..]; }
    assert LittleEndian(k[2..]) == k[2] + 256 * LittleEndian(k[3..]) by { assert k[2..][1..] == k[3..]; }
    assert LittleEndian(k[1..]) == k[1] + 256 * LittleEndian(k[2..]) by { assert k[1..][1..] == k[2..]; }
  }

  // The fields as the comparison takes them out of the number.
  lemma {:induction false} FieldsOf(k: Bytes)
    requires |k| == SIZEOF_DOUBLE
    ensures Magnitude(k) == Exponent(k) * 0x10_0000_0000_0000 + Fraction(k)
    ensures IsNegative(k) <==> k[7] >= 128
    ensures IsNaN(k) <==> Exponent(k) == 0x7FF && Fraction(k) != 0
  {
    hide LittleEndian, Exponent, Fraction;
    LittleEndianIs(k);
  }

  lemma {:induction false} Power2Grows(m: nat, n: nat)
    requires m <= n
    ensures Power2(m) <= Power2(n)
  {
    if m < n {
      Power2Grows(m, n - 1);
    }
  }

  // Reading exponent and fraction as one number keeps the order of the sizes.
  lemma {:induction false} ScaledGrows(e: nat, f: nat, d: nat, g: nat)
    requires f < 0x10_0000_0000_0000 && g < 0x10_0000_0000_0000
    requires e * 0x10_0000_0000_0000 + f < d * 0x10_0000_0000_0000 + g
    ensures Scaled(e, f) < Scaled(d, g)
  {
    hide Scaled, Power2;
    if e < d {
      ScaledBounds(e, f);
      ScaledBounds(d, g);
      Power2Grows(e, d - 1);
    } else {
      ScaledWithin(e, f, g);
    }
  }

  lemma {:induction false} ScaledWithin(e: nat, f: nat, g: nat)
    requires f < g
    ensures Scaled(e, f) < Scaled(e, g)
  {
    hide Power2;
    if e > 0 {
      Multiplied(0x10_0000_0000_0000 + f, 0x10_0000_0000_0000 + g, Power2(e - 1));
    }
  }

  lemma {:induction false} Multiplied(x: nat, y: nat, p: nat)
    requires x < y && p > 0
    ensures x * p < y * p
  {
    assert y * p - x * p == (y - x) * p > 0;
  }

  lemma {:induction false} ScaledBounds(e: nat, f: nat)
    requires f < 0x10_0000_0000_0000
    ensures Scaled(e, f) < 0x10_0000_0000_0000 * Power2(e)
    ensures e > 0 ==> 0x10_0000_0000_0000 * Power2(e - 1) <= Scaled(e, f)
  {
    if e > 0 {
      Between(0x10_0000_0000_0000, f, Power2(e - 1));
    }
  }

  lemma {:induction false} Between(c: nat, f: nat, p: nat)
    requires f < c && p > 0
    ensures c * p <= (c + f) * p < c * (2 * p)
  {
    assert (c + f) * p == c * p + f * p;
    assert c * p - f * p == (c - f) * p > 0;
  }

  // Finite keys compare as the doubles they encode; both zeroes are equal.
  lemma {:induction false} DoublesByValue(a: Bytes, b: Bytes)
    requires |a| == SIZEOF_DOUBLE && |b| == SIZEOF_DOUBLE && Finite(a) && Finite(b)
    ensures DoubleLess(a, b) <==> Value(a) < Value(b)
    ensures DoubleEq(a, b) <==> Value(a) == Value(b)
  {
    hide LittleEndian, Exponent, Fraction, Scaled, Magnitude, IsNegative, IsNaN, Finite;
    FieldsOf(a);
    FieldsOf(b);
    SameOrder(Exponent(a), Fraction(a), Exponent(b), Fraction(b));
    SameOrder(Exponent(a), Fraction(a), 0, 0);
    SameOrder(Exponent(b), Fraction(b), 0, 0);
    assert Scaled(0, 0) == 0 by { ScaledZero(); }
    assert !IsNaN(a) && !IsNaN(b) by {
      FiniteIsNoNaN(a);
      FiniteIsNoNaN(b);
    }
  }

  lemma {:induction false} ScaledZero()
    ensures Scaled(0, 0) == 0
  {
  }

  lemma {:induction false} FiniteIsNoNaN(k: Bytes)
    requires |k| == SIZEOF_DOUBLE && Finite(k)
    ensures !IsNaN(k)
  {
    FieldsOf(k);
  }

  lemma {:induction false} SameOrder(e: nat, f: nat, d: nat, g: nat)
    requires f < 0x10_0000_0000_0000 && g < 0x10_0000_0000_0000
    ensures e * 0x10_0000_0000_0000 + f < d * 0x10_0000_0000_0000 + g <==> Scaled(e, f) < Scaled(d, g)
    ensures e * 0x10_0000_0000_0000 + f == d * 0x10_0000_0000_0000 + g <==> Scaled(e, f) == Scaled(d, g)
  {
    if e * 0x10_0000_0000_0000 + f < d * 0x10_0000_0000_0000 + g {
      ScaledGrows(e, f, d, g);
    } else if d * 0x10_0000_0000_0000 + g < e * 0x10_0000_0000_0000 + f {
      ScaledGrows(d, g, e, f);
    }
  }

  // The infinities are the extremes, and a NaN is not comparable to anything.
  lemma {:induction false} InfinitiesAreExtreme(a: Bytes, b: Bytes)
    requires |a| == SIZEOF_DOUBLE && |b| == SIZEOF_DOUBLE
    ensures Finite(a) && Infinite(b) ==> if b[7] >= 128 then DoubleLess(b, a) else DoubleLess(a, b)
    ensures Infinite(a) && Infinite(b) ==>
              && (DoubleLess(a, b) <==> a[7] >= 128 && b[7] < 128)
              && (DoubleEq(a, b) <==> (a[7] >= 128 <==> b[7] >= 128))
    ensures !Finite(a) && !Infinite(a) ==>
              !DoubleLess(a, b) && !DoubleLess(b, a) && !DoubleEq(a, b) && !DoubleEq(b, a)
  {
    hide LittleEndian, Exponent, Fraction, Magnitude, IsNegative, IsNaN;
    FieldsOf(a);
    FieldsOf(b);
  }

  // ---------------------------------------------------------------------------
  // What less means, column by column

  // a comes before b as a string of bytes: at the first byte that differs, or as a shorter beginning.
  ghost predicate BytesLess(a: Bytes, b: Bytes) {
    exists i :: 0 <= i <= |a| && i <= |b| && a[..i] == b[..i] && if i < |a| then i < |b| && a[i] < b[i] else i < |b|
  }

  lemma {:induction false} LexIsFirstDifference(a: Bytes, b: Bytes)
    ensures Lex(a, b) < 0 <==> BytesLess(a, b)
    ensures Lex(a, b) == 0 <==> a == b
  {
    hide BytesLess;
    if a == [] || b == [] {
      NothingIsFirst(a, b);
    } else if a[0] != b[0] {
      HeadsDecide(a, b);
    } else {
      LexIsFirstDifference(a[1..], b[1..]);
      SameHeads(a, b);
      assert a == [a[0]] + a[1..] && b == [b[0]] + b[1..];
    }
  }

  lemma {:induction false} NothingIsFirst(a: Bytes, b: Bytes)
    requires a == [] || b == []
    ensures BytesLess(a, b) <==> a == [] && b != []
  {
    if a == [] && b != [] {
      assert a[..0] == b[..0];
    }
  }

  lemma {:induction false} HeadsDecide(a: Bytes, b: Bytes)
    requires a != [] && b != [] && a[0] != b[0]
    ensures BytesLess(a, b) <==> a[0] < b[0]
  {
    if a[0] < b[0] {
      assert a[..0] == b[..0];
    }
    forall i | 0 < i <= |a| && i <= |b|
      ensures a[..i] != b[..i]
    {
      assert a[..i][0] == a[0] && b[..i][0] == b[0];
    }
  }

  lemma {:induction false} SameHeads(a: Bytes, b: Bytes)
    requires a != [] && b != [] && a[0] == b[0]
    ensures BytesLess(a, b) <==> BytesLess(a[1..], b[1..])
  {
    var c, d := a[1..], b[1..];
    if i :| 0 <= i <= |c| && i <= |d| && c[..i] == d[..i] && if i < |c| then i < |d| && c[i] < d[i] else i < |d| {
      assert a[..i + 1] == [a[0]] + c[..i] && b[..i + 1] == [b[0]] + d[..i];
      assert BytesLess(a, b);
    }
    if i :| 0 <= i <= |a| && i <= |b| && a[..i] == b[..i] && if i < |a| then i < |b| && a[i] < b[i] else i < |b| {
      assert i > 0;
      assert c[..i - 1] == a[..i][1..] && d[..i - 1] == b[..i][1..];
      assert BytesLess(c, d);
    }
  }

  // One column of either kind against another: doubles by value; else null comes first; strings
  // by the collation and then by length; everything else by its bytes.
  lemma {:induction false} ColumnOrders(collate: Collator, a: SortCol, b: SortCol)
    requires a.flags == b.flags
    ensures var less := ColOrder(collate, a, b) < 0;
            && (a.flags.float && |a.key| == |b.key| == SIZEOF_DOUBLE && Finite(a.key) && Finite(b.key) ==>
                  (less <==> Value(a.key) < Value(b.key)))
            && (a.flags.float && |a.key| == |b.key| == SIZEOF_DOUBLE && !IsNaN(a.key) && !IsNaN(b.key) ==>
                  (less <==> DoubleLess(a.key, b.key)))
            && (a.flags.float && (|a.key| != SIZEOF_DOUBLE || |b.key| != SIZEOF_DOUBLE) ==>
                  (less <==> |a.key| < |b.key|))
            && (!a.flags.float && a.isNull != b.isNull ==> (less <==> a.isNull))
            && (!a.flags.float && a.isNull && b.isNull ==> (less <==> |a.key| < |b.key|))
            && (!a.flags.float && !a.isNull && !b.isNull && a.flags.str ==>
                  (less <==> collate(a.key, b.key) < 0 || (collate(a.key, b.key) == 0 && |a.key| < |b.key|)))
            && (!a.flags.float && !a.isNull && !b.isNull && !a.flags.str ==> (less <==> BytesLess(a.key, b.key)))
  {
    hide BytesLess, Finite, Value, Memcmp, Lex, LittleEndian;
    if a.flags.float && |a.key| == |b.key| == SIZEOF_DOUBLE && Finite(a.key) && Finite(b.key) {
      DoublesByValue(a.key, b.key);
    }
    MemcmpIsLex(a.key, b.key);
    LexIsFirstDifference(a.key, b.key);
  }

  // a is less at column i, all before it comparing equal: it has no more columns, or its column is
  // less, or greater where it is descending.
  ghost predicate LessAt(collate: Collator, a: Cols, b: Cols, ignoreOrder: bool, i: nat) {
    && i <= |a| && i < |b|
    && (forall j :: 0 <= j < i ==> ColOrder(collate, a[j], b[j]) == 0)
    && (i == |a| || if a[i].flags.desc && !ignoreOrder then ColOrder(collate, a[i], b[i]) > 0
                    else ColOrder(collate, a[i], b[i]) < 0)
  }

  lemma {:induction false} RowLessExactly(collate: Collator, a: Cols, b: Cols, ignoreOrder: bool)
    ensures RowLess(collate, a, b, ignoreOrder) <==> exists i :: LessAt(collate, a, b, ignoreOrder, i)
  {
    if a != [] && b != [] && ColOrder(collate, a[0], b[0]) == 0 {
      var c, d := a[1..], b[1..];
      RowLessExactly(collate, c, d, ignoreOrder);
      forall i: nat
        ensures LessAt(collate, c, d, ignoreOrder, i) <==> LessAt(collate, a, b, ignoreOrder, i + 1)
      {
        assert i < |c| ==> c[i] == a[i + 1];
        assert i < |d| ==> d[i] == b[i + 1];
        assert i <= |c| && i <= |d| ==> forall j :: 1 <= j < i + 1 ==> a[j] == c[j - 1] && b[j] == d[j - 1];
      }
      if i: nat :| LessAt(collate, a, b, ignoreOrder, i) {
        assert LessAt(collate, c, d, ignoreOrder, i - 1);
      }
    } else if RowLess(collate, a, b, ignoreOrder) {
      assert LessAt(collate, a, b, ignoreOrder, 0);
    }
  }
}
