/** The bidi classes, the eight implicit-level state tables and the mirroring pairs. */
module BidiTables {

  // Bidi classes, in the order of the table columns.
  const B := 0    // block separator
  const S := 1    // segment separator
  const L := 2
  const R := 3
  const EN := 4
  const AN := 5
  const W := 6
  const N := 7
  const BD := 8
  const AL := 9
  const ET := 10
  const ES := 11
  const CS := 12
  const NSM := 13
  const N_SWAP := -7  // a neutral marked for symmetric swapping

  const ITIL := 8     // column: level increment
  const ITCOND := 9   // column: conditional flag

  type Table = seq<seq<int>>

  const IMP_TAB_LTR: Table := [
    [0, 0, 0, 3, 0, 1, 0, 0, 0, 0],
    [0, 0, 0, 3, 0, 1, 2, 2, 2, 0],
    [0, 0, 0, 3, 0, 17, 2, 2, 0, 1],
    [0, 0, 0, 3, 5, 5, 4, 4, 1, 0],
    [0, 0, 0, 3, 21, 21, 4, 4, 0, 1],
    [0, 0, 0, 3, 5, 5, 4, 4, 2, 0]]

  const IMP_TAB_RTL: Table := [
    [0, 0, 2, 0, 1, 1, 0, 0, 0, 0],
    [0, 0, 2, 0, 1, 1, 0, 0, 1, 0],
    [0, 0, 2, 0, 2, 1, 3, 3, 1, 0],
    [0, 0, 2, 0, 2, 33, 3, 3, 0, 1]]

  const IMP_TAB_LTR_R: Table := [
    [0, 0, 0, 2, 0, 1, 0, 0, 0, 0],
    [0, 0, 0, 2, 0, 1, 3, 3, 2, 0],
    [0, 0, 0, 2, 4, 1, 3, 3, 1, 0],
    [0, 0, 0, 34, 4, 4, 3, 3, 1, 1],
    [0, 0, 0, 34, 4, 4, 3, 3, 2, 1]]

  const IMP_TAB_RTL_R: Table := [
    [0, 0, 3, 0, 1, 2, 0, 0, 0, 0],
    [32, 32, 3, 32, 1, 34, 5, 5, 1, 1],
    [0, 0, 3, 0, 1, 2, 0, 0, 1, 0],
    [0, 0, 3, 0, 3, 2, 4, 4, 1, 0],
    [0, 0, 3, 0, 3, 34, 4, 4, 0, 1],
    [32, 32, 3, 32, 1, 34, 5, 5, 0, 1]]

  const IMP_TAB_LTR_W: Table := [
    [0, 0, 0, 2, 1, 1, 0, 0, 0, 0],
    [0, 0, 0, 2, 1, 1, 0, 0, 2, 0],
    [0, 0, 0, 2, 4, 4, 3, 3, 1, 0],
    [0, 0, 0, 2, 20, 20, 3, 3, 0, 1],
    [0, 0, 0, 2, 4, 4, 3, 3, 2, 0]]

  const IMP_TAB_LTR_M: Table := [
    [0, 0, 0, 99, 0, 1, 0, 0, 0, 0],
    [0, 0, 0, 99, 0, 1, 2, 2, 2, 0],
    [0, 0, 0, 99, 0, 33, 2, 2, 1, 1],
    [0, 0, 0, 99, 85, 86, 4, 4, 1, 0],
    [48, 48, 48, 67, 85, 86, 4, 4, 1, 1],
    [48, 48, 48, 67, 5, 86, 4, 4, 2, 0],
    [48, 48, 48, 67, 85, 6, 4, 4, 2, 0]]

  const IMP_TAB_RTL_M: Table := [
    [0, 0, 3, 0, 1, 1, 0, 0, 0, 0],
    [0, 0, 115, 0, 1, 1, 2, 2, 1, 0],
    [0, 0, 115, 0, 1, 1, 2, 2, 0, 0],
    [0, 0, 3, 0, 3, 134, 4, 4, 1, 0],
    [144, 144, 163, 144, 5, 134, 4, 4, 0, 1],
    [144, 144, 163, 144, 5, 134, 4, 4, 1, 1],
    [144, 144, 163, 144, 6, 6, 4, 4, 1, 1]]

  const IMP_TAB_LTR_WM: Table := [
    [0, 0, 0, 98, 1, 1, 0, 0, 0, 0],
    [0, 0, 0, 98, 1, 1, 0, 0, 2, 0],
    [0, 0, 0, 98, 84, 84, 3, 3, 1, 0],
    [48, 48, 48, 66, 84, 84, 3, 3, 1, 1],
    [48, 48, 48, 66, 4, 4, 3, 3, 2, 0]]

  const TABLES: seq<Table> := [IMP_TAB_LTR, IMP_TAB_RTL, IMP_TAB_LTR_R, IMP_TAB_RTL_R,
                               IMP_TAB_LTR_W, IMP_TAB_LTR_M, IMP_TAB_RTL_M, IMP_TAB_LTR_WM]

  predicate IsTable(tab: Table) { tab in TABLES }

  /** Entry e of column c, in a row with the given conditional flag, is one the machine can act on: its
      low nibble names a row, its action is known, rewriting the conditional run (action 1) stands only in
      conditional rows, and the actions that look at the current character stand in digit columns. */
  predicate EntryOk(tab: Table, cond: int, c: int, e: int)
  {
    && 0 <= e
    && e % 16 < |tab|
    && e / 16 <= 10
    && (e / 16 == 1 ==> cond == 1)
    && (e / 16 == 5 ==> c == EN || c == AN)
    && (e / 16 == 8 ==> c == AN)
    && (e / 16 == 3 ==> |tab[e % 16]| == 10 && tab[e % 16][ITIL] == 0 && tab[e % 16][ITCOND] == 0)
  }

  predicate RowOk(tab: Table, row: seq<int>)
  {
    && |row| == 10
    && (forall c :: 0 <= c < 8 ==> EntryOk(tab, row[ITCOND], c, row[c]))
    && 0 <= row[ITIL] <= 2
    && 0 <= row[ITCOND] <= 1
  }

  predicate TableOk(tab: Table)
  {
    && 0 < |tab| <= 16
    && (forall s :: 0 <= s < |tab| ==> RowOk(tab, tab[s]))
    && tab[0][ITCOND] == 0
  }

  /** The largest action number of a row. */
  predicate RowActions(row: seq<int>, max: int)
  {
    |row| == 10 && forall c :: 0 <= c < 8 ==> row[c] / 16 <= max
  }

  /** Tables whose actions only deal with the conditional run (no marker insertion). */
  predicate Plain(tab: Table) { forall s :: 0 <= s < |tab| ==> RowActions(tab[s], 2) }

  /** Tables that insert LRMs before digits in left-to-right text (action 3). */
  predicate InsertsInLtr(tab: Table)
  {
    exists s, c :: 0 <= s < |tab| && 0 <= c < |tab[s]| && c < 8 && tab[s][c] / 16 == 3
  }

  /** Row s of tab, written out, can be acted on entry by entry. */
  lemma RowByEntries(tab: Table, row: seq<int>)
    requires |row| == 10
    requires EntryOk(tab, row[ITCOND], 0, row[0]) && EntryOk(tab, row[ITCOND], 1, row[1])
    requires EntryOk(tab, row[ITCOND], 2, row[2]) && EntryOk(tab, row[ITCOND], 3, row[3])
    requires EntryOk(tab, row[ITCOND], 4, row[4]) && EntryOk(tab, row[ITCOND], 5, row[5])
    requires EntryOk(tab, row[ITCOND], 6, row[6]) && EntryOk(tab, row[ITCOND], 7, row[7])
    requires 0 <= row[ITIL] <= 2 && 0 <= row[ITCOND] <= 1
    ensures RowOk(tab, row)
  {
    forall c | 0 <= c < 8 ensures EntryOk(tab, row[ITCOND], c, row[c]) {
      if c < 4 {
        assert c == 0 || c == 1 || c == 2 || c == 3;
      } else {
        assert c == 4 || c == 5 || c == 6 || c == 7;
      }
    }
  }

  lemma Ok_LTR()
    ensures TableOk(IMP_TAB_LTR)
  {
    var tab := IMP_TAB_LTR;
    RowByEntries(tab, tab[0]);
    RowByEntries(tab, tab[1]);
    RowByEntries(tab, tab[2]);
    RowByEntries(tab, tab[3]);
    RowByEntries(tab, tab[4]);
    RowByEntries(tab, tab[5]);
  }

  lemma Ok_RTL()
    ensures TableOk(IMP_TAB_RTL)
  {
    var tab := IMP_TAB_RTL;
    RowByEntries(tab, tab[0]);
    RowByEntries(tab, tab[1]);
    RowByEntries(tab, tab[2]);
    RowByEntries(tab, tab[3]);
  }

  lemma Ok_LTR_R()
    ensures TableOk(IMP_TAB_LTR_R)
  {
    var tab := IMP_TAB_LTR_R;
    RowByEntries(tab, tab[0]);
    RowByEntries(tab, tab[1]);
    RowByEntries(tab, tab[2]);
    RowByEntries(tab, tab[3]);
    RowByEntries(tab, tab[4]);
  }

  lemma Ok_RTL_R()
    ensures TableOk(IMP_TAB_RTL_R)
  {
    var tab := IMP_TAB_RTL_R;
    RowByEntries(tab, tab[0]);
    RowByEntries(tab, tab[1]);
    RowByEntries(tab, tab[2]);
    RowByEntries(tab, tab[3]);
    RowByEntries(tab, tab[4]);
    RowByEntries(tab, tab[5]);
  }

  lemma Ok_LTR_W()
    ensures TableOk(IMP_TAB_LTR_W)
  {
    var tab := IMP_TAB_LTR_W;
    RowByEntries(tab, tab[0]);
    RowByEntries(tab, tab[1]);
    RowByEntries(tab, tab[2]);
    RowByEntries(tab, tab[3]);
    RowByEntries(tab, tab[4]);
  }

  lemma Ok_LTR_M()
    ensures TableOk(IMP_TAB_LTR_M)
  {
    var tab := IMP_TAB_LTR_M;
    RowByEntries(tab, tab[0]);
    RowByEntries(tab, tab[1]);
    RowByEntries(tab, tab[2]);
    RowByEntries(tab, tab[3]);
    RowByEntries(tab, tab[4]);
    RowByEntries(tab, tab[5]);
    RowByEntries(tab, tab[6]);
  }

  lemma Ok_RTL_M()
    ensures TableOk(IMP_TAB_RTL_M)
  {
    var tab := IMP_TAB_RTL_M;
    RowByEntries(tab, tab[0]);
    RowByEntries(tab, tab[1]);
    RowByEntries(tab, tab[2]);
    RowByEntries(tab, tab[3]);
    RowByEntries(tab, tab[4]);
    RowByEntries(tab, tab[5]);
    RowByEntries(tab, tab[6]);
  }

  lemma Ok_LTR_WM()
    ensures TableOk(IMP_TAB_LTR_WM)
  {
    var tab := IMP_TAB_LTR_WM;
    RowByEntries(tab, tab[0]);
    RowByEntries(tab, tab[1]);
    RowByEntries(tab, tab[2]);
    RowByEntries(tab, tab[3]);
    RowByEntries(tab, tab[4]);
  }

  lemma RowActionsByEntries(row: seq<int>, max: int)
    requires |row| == 10
    requires row[0] / 16 <= max && row[1] / 16 <= max && row[2] / 16 <= max && row[3] / 16 <= max
    requires row[4] / 16 <= max && row[5] / 16 <= max && row[6] / 16 <= max && row[7] / 16 <= max
    ensures RowActions(row, max)
  {
    forall c | 0 <= c < 8 ensures row[c] / 16 <= max {
      assert c == 0 || c == 1 || c == 2 || c == 3 || c == 4 || c == 5 || c == 6 || c == 7;
    }
  }

  lemma Plain_LTR()
    ensures Plain(IMP_TAB_LTR)
  {
    var tab := IMP_TAB_LTR;
    RowActionsByEntries(tab[0], 2);
    RowActionsByEntries(tab[1], 2);
    RowActionsByEntries(tab[2], 2);
    RowActionsByEntries(tab[3], 2);
    RowActionsByEntries(tab[4], 2);
    RowActionsByEntries(tab[5], 2);
  }

  lemma Plain_RTL()
    ensures Plain(IMP_TAB_RTL)
  {
    var tab := IMP_TAB_RTL;
    RowActionsByEntries(tab[0], 2);
    RowActionsByEntries(tab[1], 2);
    RowActionsByEntries(tab[2], 2);
    RowActionsByEntries(tab[3], 2);
  }

  lemma Plain_LTR_R()
    ensures Plain(IMP_TAB_LTR_R)
  {
    var tab := IMP_TAB_LTR_R;
    RowActionsByEntries(tab[0], 2);
    RowActionsByEntries(tab[1], 2);
    RowActionsByEntries(tab[2], 2);
    RowActionsByEntries(tab[3], 2);
    RowActionsByEntries(tab[4], 2);
  }

  lemma Plain_RTL_R()
    ensures Plain(IMP_TAB_RTL_R)
  {
    var tab := IMP_TAB_RTL_R;
    RowActionsByEntries(tab[0], 2);
    RowActionsByEntries(tab[1], 2);
    RowActionsByEntries(tab[2], 2);
    RowActionsByEntries(tab[3], 2);
    RowActionsByEntries(tab[4], 2);
    RowActionsByEntries(tab[5], 2);
  }

  lemma Plain_LTR_W()
    ensures Plain(IMP_TAB_LTR_W)
  {
    var tab := IMP_TAB_LTR_W;
    RowActionsByEntries(tab[0], 2);
    RowActionsByEntries(tab[1], 2);
    RowActionsByEntries(tab[2], 2);
    RowActionsByEntries(tab[3], 2);
    RowActionsByEntries(tab[4], 2);
  }

  /** The right-to-left insertion table has no action 3. */
  lemma NoLtrInsertion_RTL_M()
    ensures !InsertsInLtr(IMP_TAB_RTL_M)
  {
    var tab := IMP_TAB_RTL_M;
    forall s, c | 0 <= s < 7 && 0 <= c < 8 ensures tab[s][c] / 16 != 3 {
      var row := tab[s];
      assert s == 0 || s == 1 || s == 2 || s == 3 || s == 4 || s == 5 || s == 6;
      assert c == 0 || c == 1 || c == 2 || c == 3 || c == 4 || c == 5 || c == 6 || c == 7;
      assert row[0] / 16 != 3 && row[1] / 16 != 3 && row[2] / 16 != 3 && row[3] / 16 != 3;
      assert row[4] / 16 != 3 && row[5] / 16 != 3 && row[6] / 16 != 3 && row[7] / 16 != 3;
    }
  }

  /** All eight tables are ones the machine can run on. */
  lemma TablesOk(tab: Table)
    requires IsTable(tab)
    ensures TableOk(tab)
  {
    Ok_LTR();
    Ok_RTL();
    Ok_LTR_R();
    Ok_RTL_R();
    Ok_LTR_W();
    Ok_LTR_M();
    Ok_RTL_M();
    Ok_LTR_WM();
  }
}
