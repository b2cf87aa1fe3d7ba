/** The DLMS unit codes of EN 62056-62 as SML transmits them, and the firmware's
    lookup of a code's printable symbol (src/unit.h). */
module Units {
  import opened Base

  /** One row of the lookup table: a unit code and its symbol. */
  datatype UnitEntry = UnitEntry(code: byte, unit: string)

  /** The static table `dlms_units`, in source order, closed by the sentinel `{0, ""}`. */
  const DlmsUnits: seq<UnitEntry> :=
    [
      UnitEntry(1, "a"),
      UnitEntry(2, "mo"),
      UnitEntry(3, "wk"),
      UnitEntry(4, "d"),
      UnitEntry(5, "h"),
      UnitEntry(6, "min."),
      UnitEntry(7, "s"),
      UnitEntry(8, "\U{B0}")
    ] +
    [
      UnitEntry(9, "\U{B0}C"),
      UnitEntry(10, "currency"),
      UnitEntry(11, "m"),
      UnitEntry(12, "m/s"),
      UnitEntry(13, "m\U{B3}"),
      UnitEntry(14, "m\U{B3}"),
      UnitEntry(15, "m\U{B3}/h"),
      UnitEntry(16, "m\U{B3}/h")
    ] +
    [
      UnitEntry(17, "m\U{B3}/d"),
      UnitEntry(18, "m\U{B3}/d"),
      UnitEntry(19, "l"),
      UnitEntry(20, "kg"),
      UnitEntry(21, "N"),
      UnitEntry(22, "Nm"),
      UnitEntry(23, "Pa"),
      UnitEntry(24, "bar")
    ] +
    [
      UnitEntry(25, "J"),
      UnitEntry(26, "J/h"),
      UnitEntry(27, "W"),
      UnitEntry(28, "VA"),
      UnitEntry(29, "var"),
      UnitEntry(30, "Wh"),
      UnitEntry(31, "VAh"),
      UnitEntry(32, "varh")
    ] +
    [
      UnitEntry(33, "A"),
      UnitEntry(34, "C"),
      UnitEntry(35, "V"),
      UnitEntry(36, "V/m"),
      UnitEntry(37, "F"),
      UnitEntry(38, "\U{3A9}"),
      UnitEntry(39, "\U{3A9}m\U{B2}/m"),
      UnitEntry(40, "Wb")
    ] +
    [
      UnitEntry(41, "T"),
      UnitEntry(42, "A/m"),
      UnitEntry(43, "H"),
      UnitEntry(44, "Hz"),
      UnitEntry(45, "1/(Wh)"),
      UnitEntry(46, "1/(varh)"),
      UnitEntry(47, "1/(VAh)"),
      UnitEntry(48, "V\U{B2}h")
    ] +
    [
      UnitEntry(49, "A\U{B2}h"),
      UnitEntry(50, "kg/s"),
      UnitEntry(51, "S, mho"),
      UnitEntry(52, "K"),
      UnitEntry(53, "1/(V\U{B2}h)"),
      UnitEntry(54, "1/(A\U{B2}h)"),
      UnitEntry(55, "1/m\U{B3}"),
      UnitEntry(56, "%")
    ] +
    [
      UnitEntry(57, "Ah"),
      UnitEntry(60, "Wh/m\U{B3}"),
      UnitEntry(61, "J/m\U{B3}"),
      UnitEntry(62, "Mol %"),
      UnitEntry(63, "g/m\U{B3}"),
      UnitEntry(64, "Pa s"),
      UnitEntry(253, "(reserved)"),
      UnitEntry(254, "(other)")
    ] +
    [
      UnitEntry(255, "(unitless)"),
      UnitEntry(0, "")
    ]

  /** Number of real (non-sentinel) rows. */
  const Listed: nat := 65

  /** A table the do-while search may run over: it ends with a zero-code sentinel. */
  predicate Terminated(table: seq<UnitEntry>)
  {
    |table| >= 2 && table[|table| - 1].code == 0
  }

  /** The index at which the do-while of `dlms_get_unit` stops when it starts at
      row `i`: the row it compares last. Every row from `i` to `k` is compared once,
      so the search makes `k - i + 1` comparisons. The search stops at the first row
      whose code matches, or at the last row before the sentinel. */
  function Probe(table: seq<UnitEntry>, code: byte, i: nat): (k: nat)
    requires Terminated(table) && i + 1 < |table|
    decreases |table| - i
    ensures i <= k && k + 1 < |table|
    ensures table[k].code == code || table[k + 1].code == 0
    ensures forall j :: i <= j < k ==> table[j].code != code
    ensures forall j :: i < j <= k ==> table[j].code != 0
  {
    if table[i].code == code || table[i + 1].code == 0 then i
    else Probe(table, code, i + 1)
  }

  /** Codes strictly increase from row `i` up to the sentinel. */
  predicate IncreasingFrom(t: seq<UnitEntry>, i: nat)
    requires i < |t|
    decreases |t| - i
  {
    i + 2 >= |t| || (t[i].code < t[i + 1].code && IncreasingFrom(t, i + 1))
  }

  lemma {:induction false} IncreasingFromOrders(t: seq<UnitEntry>, i: nat)
    requires i < |t| && IncreasingFrom(t, i)
    ensures forall j, l :: i <= j < l < |t| - 1 ==> t[j].code < t[l].code
    decreases |t| - i
  {
    if i + 2 < |t| {
      IncreasingFromOrders(t, i + 1);
    }
  }

  lemma IncreasingFrom56()
    ensures IncreasingFrom(DlmsUnits, 56)
  {
    assert IncreasingFrom(DlmsUnits, 63);
    assert IncreasingFrom(DlmsUnits, 62);
    assert IncreasingFrom(DlmsUnits, 61);
    assert IncreasingFrom(DlmsUnits, 60);
    assert IncreasingFrom(DlmsUnits, 59);
    assert IncreasingFrom(DlmsUnits, 58);
    assert IncreasingFrom(DlmsUnits, 57);
    assert IncreasingFrom(DlmsUnits, 56);
  }

  lemma IncreasingFrom48()
    ensures IncreasingFrom(DlmsUnits, 48)
  {
    IncreasingFrom56();
    assert IncreasingFrom(DlmsUnits, 55);
    assert IncreasingFrom(DlmsUnits, 54);
    assert IncreasingFrom(DlmsUnits, 53);
    assert IncreasingFrom(DlmsUnits, 52);
    assert IncreasingFrom(DlmsUnits, 51);
    assert IncreasingFrom(DlmsUnits, 50);
    assert IncreasingFrom(DlmsUnits, 49);
    assert IncreasingFrom(DlmsUnits, 48);
  }

  lemma IncreasingFrom40()
    ensures IncreasingFrom(DlmsUnits, 40)
  {
    IncreasingFrom48();
    assert IncreasingFrom(DlmsUnits, 47);
    assert IncreasingFrom(DlmsUnits, 46);
    assert IncreasingFrom(DlmsUnits, 45);
    assert IncreasingFrom(DlmsUnits, 44);
    assert IncreasingFrom(DlmsUnits, 43);
    assert IncreasingFrom(DlmsUnits, 42);
    assert IncreasingFrom(DlmsUnits, 41);
    assert IncreasingFrom(DlmsUnits, 40);
  }

  lemma IncreasingFrom32()
    ensures IncreasingFrom(DlmsUnits, 32)
  {
    IncreasingFrom40();
    assert IncreasingFrom(DlmsUnits, 39);
    assert IncreasingFrom(DlmsUnits, 38);
    assert IncreasingFrom(DlmsUnits, 37);
    assert IncreasingFrom(DlmsUnits, 36);
    assert IncreasingFrom(DlmsUnits, 35);
    assert IncreasingFrom(DlmsUnits, 34);
    assert IncreasingFrom(DlmsUnits, 33);
    assert IncreasingFrom(DlmsUnits, 32);
  }

  lemma IncreasingFrom24()
    ensures IncreasingFrom(DlmsUnits, 24)
  {
    IncreasingFrom32();
    assert IncreasingFrom(DlmsUnits, 31);
    assert IncreasingFrom(DlmsUnits, 30);
    assert IncreasingFrom(DlmsUnits, 29);
    assert IncreasingFrom(DlmsUnits, 28);
    assert IncreasingFrom(DlmsUnits, 27);
    assert IncreasingFrom(DlmsUnits, 26);
    assert IncreasingFrom(DlmsUnits, 25);
    assert IncreasingFrom(DlmsUnits, 24);
  }

  lemma IncreasingFrom16()
    ensures IncreasingFrom(DlmsUnits, 16)
  {
    IncreasingFrom24();
    assert IncreasingFrom(DlmsUnits, 23);
    assert IncreasingFrom(DlmsUnits, 22);
    assert IncreasingFrom(DlmsUnits, 21);
    assert IncreasingFrom(DlmsUnits, 20);
    assert IncreasingFrom(DlmsUnits, 19);
    assert IncreasingFrom(DlmsUnits, 18);
    assert IncreasingFrom(DlmsUnits, 17);
    assert IncreasingFrom(DlmsUnits, 16);
  }

  lemma IncreasingFrom8()
    ensures IncreasingFrom(DlmsUnits, 8)
  {
    IncreasingFrom16();
    assert IncreasingFrom(DlmsUnits, 15);
    assert IncreasingFrom(DlmsUnits, 14);
    assert IncreasingFrom(DlmsUnits, 13);
    assert IncreasingFrom(DlmsUnits, 12);
    assert IncreasingFrom(DlmsUnits, 11);
    assert IncreasingFrom(DlmsUnits, 10);
    assert IncreasingFrom(DlmsUnits, 9);
    assert IncreasingFrom(DlmsUnits, 8);
  }

  lemma IncreasingFrom0()
    ensures IncreasingFrom(DlmsUnits, 0)
  {
    IncreasingFrom8();
    assert IncreasingFrom(DlmsUnits, 7);
    assert IncreasingFrom(DlmsUnits, 6);
    assert IncreasingFrom(DlmsUnits, 5);
    assert IncreasingFrom(DlmsUnits, 4);
    assert IncreasingFrom(DlmsUnits, 3);
    assert IncreasingFrom(DlmsUnits, 2);
    assert IncreasingFrom(DlmsUnits, 1);
    assert IncreasingFrom(DlmsUnits, 0);
  }

  /** The table's codes are 1..57, 60..64, 253..255: unique and strictly increasing,
      so no two rows share a code and no real row has the sentinel's code 0. */
  lemma CodesStrictlyIncreasing()
    ensures |DlmsUnits| == Listed + 1 && Terminated(DlmsUnits)
    ensures DlmsUnits[0].code == 1
    ensures forall j, l :: 0 <= j < l < Listed ==> DlmsUnits[j].code < DlmsUnits[l].code
  {
    IncreasingFrom0();
    IncreasingFromOrders(DlmsUnits, 0);
  }

  /** `dlms_get_unit`: the symbol of a unit code, or None for the null pointer.
      A symbol is returned only for a code that a real row carries, and None only
      when no real row carries the code. */
  function GetUnit(code: byte): (r: Option<string>)
    ensures r.Some? ==> exists j :: 0 <= j < Listed && DlmsUnits[j] == UnitEntry(code, r.value)
    ensures r.None? ==> forall j :: 0 <= j < Listed ==> DlmsUnits[j].code != code
  {
    CodesStrictlyIncreasing();
    var k := Probe(DlmsUnits, code, 0);
    if DlmsUnits[k].code == code then Some(DlmsUnits[k].unit) else None
  }

  /** Every listed code yields the symbol on its own row: because codes are
      unique, the first row that matches is that row. */
  lemma GetUnitListed(j: nat)
    requires j < Listed
    ensures GetUnit(DlmsUnits[j].code) == Some(DlmsUnits[j].unit)
  {
    CodesStrictlyIncreasing();
    var code := DlmsUnits[j].code;
    var k := Probe(DlmsUnits, code, 0);
    assert DlmsUnits[0].code <= DlmsUnits[k].code;
  }

  /** The do-while never compares the sentinel: code 0 yields the null pointer,
      not the sentinel's empty string. */
  lemma GetUnitZero()
    ensures GetUnit(0) == None
  {
    CodesStrictlyIncreasing();
    forall j | 0 <= j < Listed ensures DlmsUnits[j].code != 0 {
      assert DlmsUnits[0].code <= DlmsUnits[j].code;
    }
  }

  /** The codes missing from the table (58, 59 and 65 to 252) yield the null pointer. */
  lemma GetUnitUnlisted(code: byte)
    requires code == 58 || code == 59 || 65 <= code <= 252
    ensures GetUnit(code) == None
  {
    CodesStrictlyIncreasing();
    var t := DlmsUnits;
    assert t[56].code == 57 && t[57].code == 60 && t[61].code == 64 && t[62].code == 253;
    forall j | 0 <= j < Listed ensures t[j].code != code {
      if j < 56 {
        assert t[j].code < t[56].code;
      } else if 57 < j <= 61 {
        assert t[57].code < t[j].code;
        assert j == 61 || t[j].code < t[61].code;
      } else if 62 < j {
        assert t[62].code < t[j].code;
      }
    }
  }

  /** The search never compares more rows than the table has real rows. */
  lemma SearchIsBounded(code: byte)
    ensures Probe(DlmsUnits, code, 0) + 1 <= Listed
  {
    CodesStrictlyIncreasing();
  }

  /** A row of the table gives the symbol of its code. */
  lemma UnitOfRow(j: nat, code: byte, unit: string)
    requires j < Listed && DlmsUnits[j] == UnitEntry(code, unit)
    ensures GetUnit(code) == Some(unit)
  {
    GetUnitListed(j);
  }

  /** Symbols of the units a household meter reports: active power and energy. */
  lemma PowerAndEnergyUnits()
    ensures GetUnit(27) == Some("W")
    ensures GetUnit(30) == Some("Wh")
  {
    UnitOfRow(26, 27, "W");
    UnitOfRow(29, 30, "Wh");
  }

  /** Symbols of voltage and of a plain count. */
  lemma VoltageAndCountUnits()
    ensures GetUnit(35) == Some("V")
    ensures GetUnit(255) == Some("(unitless)")
  {
    UnitOfRow(34, 35, "V");
    UnitOfRow(64, 255, "(unitless)");
  }

}
