/**
 * Short event sequences worked through the grid's functions: two presses
 * then a late sweep, a held key, and a full row.
 */
module Scenarios {
  import opened Wrappers
  import opened Settings
  import opened Text
  import opened Tk
  import opened Rows
  import opened Grid

  /** The grid after a press of `A` at 0 ms (label 0). */
  function AfterA(): GridState<char>
  {
    GridState([RowState([Entry(0, 0, "0ms", 0)], Some(0), Some('A'), 0)], Some(0))
  }

  /** ... and a press of `B` at 50 ms (label 1). */
  function AfterAB(): GridState<char>
  {
    GridState([RowState([Entry(0, 0, "0ms", 0), Entry(1, Millis(50), "50ms", 50)], Some(1), Some('B'), Millis(50))], Some(Millis(50)))
  }

  /** The grid's first event opens a row holding its label with gap 0. */
  lemma FirstPress()
    ensures Ingest(EmptyGrid<char>(), 0, 0, 'A') == AfterA()
  {
    assert Ingest(EmptyGrid<char>(), 0, 0, 'A').rows == AfterA().rows;
  }

  /** A different key 50 ms later joins the same row and records a 50 ms gap. */
  lemma SecondPress()
    ensures Ingest(AfterA(), 1, Millis(50), 'B') == AfterAB()
  {
    var g1 := AfterA();
    assert ElapsedMs(Millis(50)) == 50;
    assert IntText(50) == "50" by {
      assert NatText(5) == "5";
    }
    assert NewEntry(1, Millis(50), 0) == Entry(1, Millis(50), "50ms", 50);
    assert TargetRows(g1, Millis(50)) == g1.rows;
    assert !Coalesces(g1.rows[0], 'B', Millis(50));
    var r := AddToRow(g1.rows[0], 1, Millis(50), 'B');
    assert r == RowState(g1.rows[0].labels + [NewEntry(1, Millis(50), 0)], Some(1), Some('B'), Millis(50));
    var a, b := Entry(0, 0, "0ms", 0), Entry(1, Millis(50), "50ms", 50);
    assert [a] + [b] == [a, b];
    assert r.labels == [a, b];
    assert Ingest(g1, 1, Millis(50), 'B').rows == g1.rows[0 := r] == [r];
  }

  /**
   * Press `A` at 0 ms and `B` at 50 ms: one row of two labels, the second
   * showing a 50 ms gap; a sweep at 3000 ms drops the row.
   */
  lemma TwoPressesThenSweep()
    ensures var g1 := Ingest(EmptyGrid<char>(), 0, 0, 'A');
            var g2 := Ingest(g1, 1, Millis(50), 'B');
            && |g2.rows| == 1
            && g2.rows[0].labels == [Entry(0, 0, "0ms", 0), Entry(1, Millis(50), "50ms", 50)]
            && LabelWidget(7, g1.lastActive, Millis(50), Press).text == "50"
            && Sweep(g2, Millis(3000)).rows == []
  {
    FirstPress();
    SecondPress();
    assert IntText(50) == "50" by {
      assert NatText(5) == "5";
    }
    assert KeptIndices(AfterAB().rows, Millis(3000)) == [];
  }

  /** In the same run, the sweep at 3000 ms destroys both labels of the row, once each. */
  lemma TwoPressesSweepDestroysBoth(ws: seq<Widget>)
    requires |ws| == 2
    ensures var g2 := Ingest(Ingest(EmptyGrid<char>(), 0, 0, 'A'), 1, Millis(50), 'B');
            DestroyRows(ws, g2.rows, Millis(3000))
            == [ws[0].(destroyed := ws[0].destroyed + 1), ws[1].(destroyed := ws[1].destroyed + 1)]
  {
    FirstPress();
    SecondPress();
    var rows := AfterAB().rows;
    var labels := rows[0].labels;
    assert rows[..0] == [];
    assert Cleared(rows[0], Millis(3000));
    assert DestroyRows(ws, rows, Millis(3000)) == DestroyAll(ws, labels);
    assert labels[..1] == [labels[0]] && labels[..1][..0] == [];
    assert DestroyAll(ws, labels[..1]) == Destroyed(ws, 0);
    assert labels[..|labels| - 1] == labels[..1];
    assert DestroyAll(ws, labels) == Destroyed(Destroyed(ws, 0), 1);
    DestroyBothOfTwo(ws);
  }

  lemma DestroyBothOfTwo(ws: seq<Widget>)
    requires |ws| == 2
    ensures Destroyed(Destroyed(ws, 0), 1)
            == [ws[0].(destroyed := ws[0].destroyed + 1), ws[1].(destroyed := ws[1].destroyed + 1)]
  {
    var d0 := Destroyed(ws, 0);
    assert d0 == [ws[0].(destroyed := ws[0].destroyed + 1), ws[1]];
  }

  /** Press `A` at 0 ms and again at 30 ms: the repeat is a hold, so the row still shows one label. */
  lemma QuickRepeatCoalesces()
    ensures var g1 := Ingest(EmptyGrid<char>(), 0, 0, 'A');
            var g2 := Ingest(g1, 1, Millis(30), 'A');
            && |g2.rows| == 1
            && g2.rows[0].labels == [Entry(0, 0, "0ms", 0)]
            && g2.rows[0].lastActive == Millis(30)
  {
    var g1 := Ingest(EmptyGrid<char>(), 0, 0, 'A');
    assert g1.rows == [RowState([Entry(0, 0, "0ms", 0)], Some(0), Some('A'), 0)];
    assert Coalesces(g1.rows[0], 'A', Millis(30));
  }

  /**
   * The root's labels in the same run: the repeat turns the first label blue,
   * and the label made for the repeat is created but never shown.
   */
  lemma QuickRepeatRecolours(icon: Icon)
    ensures var g1 := GridState([RowState([Entry(0, 0, "0ms", 0)], Some(0), Some('A'), 0)], Some(0));
            var ws1 := [LabelWidget(icon, None, 0, Press)];
            && g1 == Ingest(EmptyGrid<char>(), 0, 0, 'A')
            && ws1 == IngestWidgets([], EmptyGrid<char>(), icon, 0, 'A', Press)
            && IngestWidgets(ws1, g1, icon, Millis(30), 'A', Press)
               == [ws1[0].(fg := Blue), LabelWidget(icon, Some(0), Millis(30), Press)]
  {
    var g1 := GridState([RowState([Entry(0, 0, "0ms", 0)], Some(0), Some('A'), 0)], Some(0));
    assert g1 == Ingest(EmptyGrid<char>(), 0, 0, 'A');
    assert TargetRows(g1, Millis(30)) == g1.rows;
  }

  /** An event shortly after a row has filled up still opens a new row, whose first label shows no gap. */
  lemma FullRowOpensRow<K>(g: GridState<K>, handle: Handle, now: Instant, key: K)
    requires GridInv(g) && g.rows != []
    requires |g.rows[|g.rows| - 1].labels| == MaxLabels() && !IsNewRowGap(now - g.lastActive.value)
    ensures |Ingest(g, handle, now, key).rows| == |g.rows| + 1
    ensures Ingest(g, handle, now, key).rows[..|g.rows|] == g.rows
    ensures Ingest(g, handle, now, key).rows[|g.rows|].labels == [Entry(handle, now, "0ms", 0)]
  {
    assert OpensRow(g, now);
  }
}
