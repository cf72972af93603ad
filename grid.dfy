/**
 * The grid of rows (`LabelGrid`): which row an event's label goes to, the
 * label it creates, and the sweep that drops idle rows and stacks the rest.
 *
 * `GridState` is the grid's value; `Ingest`, `IngestWidgets`, `Sweep` and
 * `RepositionWidgets` say what one call does to it and to the root's labels,
 * and the lemmas here state what the source promises about them. The class
 * `LabelGrid` holds `LabelRow` objects and is proved against these functions.
 */
module Grid {
  import opened Wrappers
  import opened Settings
  import opened Text
  import opened Tk
  import opened Rows

  /** Which hook delivered the event: `add_label` serves presses, `add_label_release` releases. */
  datatype Edge = Press | Release

  /** The fields of a `LabelGrid`; a `last_active` still at its initial `0` is `None`. */
  datatype GridState<K> = GridState(rows: seq<RowState<K>>, lastActive: Option<Instant>)

  function EmptyGrid<K>(): GridState<K>
  {
    GridState([], None)
  }

  /** Once the grid holds a row it has a timestamp (rows are only made by an ingest, which stamps it). */
  predicate Stamped<K>(g: GridState<K>)
  {
    g.rows != [] ==> g.lastActive.Some?
  }

  /** The handle of label `i` of row `k`. */
  function HandleAt<K>(rows: seq<RowState<K>>, k: int, i: int): Handle
    requires 0 <= k < |rows| && 0 <= i < |rows[k].labels|
  {
    rows[k].labels[i].handle
  }

  /** No label handle occurs twice anywhere in the grid. */
  predicate DistinctHandles<K>(rows: seq<RowState<K>>)
  {
    forall k1, i1, k2, i2 {:trigger HandleAt(rows, k1, i1), HandleAt(rows, k2, i2)} ::
      && 0 <= k1 < |rows| && 0 <= i1 < |rows[k1].labels|
      && 0 <= k2 < |rows| && 0 <= i2 < |rows[k2].labels|
      && HandleAt(rows, k1, i1) == HandleAt(rows, k2, i2)
      ==> k1 == k2 && i1 == i2
  }

  /** Brings `HandleAt` terms into a proof about the labels of `rows`. */
  lemma HandlesAt<K>(rows: seq<RowState<K>>)
    ensures forall k, i {:trigger rows[k].labels[i]} :: 0 <= k < |rows| && 0 <= i < |rows[k].labels| ==>
              HandleAt(rows, k, i) == rows[k].labels[i].handle
  {
  }

  /** Every row keeps its own invariant and holds at most `MaxLabels()` labels. */
  predicate GridInv<K>(g: GridState<K>)
  {
    && Stamped(g)
    && (forall k :: 0 <= k < |g.rows| ==> RowInv(g.rows[k]) && |g.rows[k].labels| <= MaxLabels())
    && DistinctHandles(g.rows)
  }

  predicate GridOwned<K>(rows: seq<RowState<K>>, ws: seq<Widget>)
  {
    forall k :: 0 <= k < |rows| ==> Owned(rows[k].labels, ws)
  }

  predicate GridLive<K>(rows: seq<RowState<K>>, ws: seq<Widget>)
  {
    forall k :: 0 <= k < |rows| ==> Live(rows[k].labels, ws)
  }

  predicate NotInRows<K>(h: Handle, rows: seq<RowState<K>>)
  {
    forall k :: 0 <= k < |rows| ==> NotIn(h, rows[k].labels)
  }

  /** An ingest at `now` appends a row: there is none, the pause is too long, or the last row is full. */
  predicate OpensRow<K>(g: GridState<K>, now: Instant): (b: bool)
    requires Stamped(g)
    ensures g.rows == [] ==> b
    ensures GridInv(g) && !b ==> |g.rows[|g.rows| - 1].labels| < MaxLabels() && !IsNewRowGap(now - g.lastActive.value)
  {
    g.rows == [] || IsNewRowGap(now - g.lastActive.value) || |g.rows[|g.rows| - 1].labels| == MaxLabels()
  }

  /** The rows after the two row-creation checks; the label goes to the last one. */
  function TargetRows<K>(g: GridState<K>, now: Instant): (rs: seq<RowState<K>>)
    requires Stamped(g)
    ensures |rs| == |g.rows| + (if OpensRow(g, now) then 1 else 0)
    ensures rs[..|g.rows|] == g.rows
    ensures OpensRow(g, now) ==> rs[|g.rows|] == EmptyRow(now)
  {
    var rs := if g.rows == [] || IsNewRowGap(now - g.lastActive.value) then g.rows + [EmptyRow(now)] else g.rows;
    if |rs[|rs| - 1].labels| == MaxLabels() then rs + [EmptyRow(now)] else rs
  }

  /** `LabelGrid.add_label(..., now, key)` on the grid's value, where `handle` is the label just created. */
  function Ingest<K(==)>(g: GridState<K>, handle: Handle, now: Instant, key: K): (h: GridState<K>)
    requires Stamped(g)
    ensures h.lastActive == Some(now)
    ensures |h.rows| == |g.rows| + (if OpensRow(g, now) then 1 else 0)
    ensures forall k :: 0 <= k < |g.rows| - 1 ==> h.rows[k] == g.rows[k]
    ensures OpensRow(g, now) ==>
              && h.rows[..|g.rows|] == g.rows
              && h.rows[|g.rows|].labels == [Entry(handle, now, "0ms", 0)]
    ensures !OpensRow(g, now) ==> h.rows[|g.rows| - 1] == AddToRow(g.rows[|g.rows| - 1], handle, now, key)
  {
    var rs := TargetRows(g, now);
    var n := |rs| - 1;
    FirstAddAppends<K>(handle, now, key);
    GridState(rs[n := AddToRow(rs[n], handle, now, key)], Some(now))
  }

  /** A row opened by an ingest is a fresh row given that one event: its label, key and time. */
  lemma IngestNewRow<K>(g: GridState<K>, handle: Handle, now: Instant, key: K)
    requires Stamped(g) && OpensRow(g, now)
    ensures var h := Ingest(g, handle, now, key);
            && h.rows[|g.rows|] == AddToRow(EmptyRow(now), handle, now, key)
            && h.rows[|g.rows|].prevLabel == Some(handle) && h.rows[|g.rows|].prevKey == Some(key)
            && h.rows[|g.rows|].lastActive == now
  {
  }

  /** A label handle that no row holds yet keeps the grid's invariant through an ingest. */
  lemma IngestKeepsInv<K>(g: GridState<K>, handle: Handle, now: Instant, key: K)
    requires GridInv(g) && NotInRows(handle, g.rows)
    ensures GridInv(Ingest(g, handle, now, key))
  {
    IngestKeepsRowInv(g, handle, now, key);
    IngestKeepsDistinct(g, handle, now, key);
  }

  /** Every row of the ingested grid keeps its own invariant and the row capacity. */
  lemma IngestKeepsRowInv<K>(g: GridState<K>, handle: Handle, now: Instant, key: K)
    requires GridInv(g) && NotInRows(handle, g.rows)
    ensures var h := Ingest(g, handle, now, key);
            forall k :: 0 <= k < |h.rows| ==> RowInv(h.rows[k]) && |h.rows[k].labels| <= MaxLabels()
  {
    var rs := TargetRows(g, now);
    var n := |rs| - 1;
    var h := Ingest(g, handle, now, key);
    assert h.rows == rs[n := AddToRow(rs[n], handle, now, key)];
    assert |rs[n].labels| < MaxLabels();
    forall k | 0 <= k < |h.rows|
      ensures RowInv(h.rows[k]) && |h.rows[k].labels| <= MaxLabels()
    {
      if k < n {
        assert h.rows[k] == g.rows[k];
      }
    }
  }

  /** No two places of the ingested grid hold the same label handle. */
  lemma IngestKeepsDistinct<K>(g: GridState<K>, handle: Handle, now: Instant, key: K)
    requires GridInv(g) && NotInRows(handle, g.rows)
    ensures DistinctHandles(Ingest(g, handle, now, key).rows)
  {
    var rs := TargetRows(g, now);
    var h := Ingest(g, handle, now, key);
    forall k1, i1, k2, i2 |
      && 0 <= k1 < |h.rows| && 0 <= i1 < |h.rows[k1].labels|
      && 0 <= k2 < |h.rows| && 0 <= i2 < |h.rows[k2].labels|
      && HandleAt(h.rows, k1, i1) == HandleAt(h.rows, k2, i2)
      ensures k1 == k2 && i1 == i2
    {
      HandleOrigin(g, rs, h, handle, now, key, k1, i1);
      HandleOrigin(g, rs, h, handle, now, key, k2, i2);
      var old1 := k1 < |g.rows| && i1 < |g.rows[k1].labels| && h.rows[k1].labels[i1] == g.rows[k1].labels[i1];
      var old2 := k2 < |g.rows| && i2 < |g.rows[k2].labels| && h.rows[k2].labels[i2] == g.rows[k2].labels[i2];
      if old1 && old2 {
        assert HandleAt(g.rows, k1, i1) == HandleAt(g.rows, k2, i2);
      } else if old1 {
        assert NotIn(handle, g.rows[k1].labels);
      } else if old2 {
        assert NotIn(handle, g.rows[k2].labels);
      }
    }
  }

  /** Each label of the ingested grid is either the new one (last in the last row) or an old one in the same place. */
  lemma HandleOrigin<K>(g: GridState<K>, rs: seq<RowState<K>>, h: GridState<K>, handle: Handle, now: Instant, key: K, k: int, i: int)
    requires GridInv(g) && rs == TargetRows(g, now) && h == Ingest(g, handle, now, key)
    requires 0 <= k < |h.rows| && 0 <= i < |h.rows[k].labels|
    ensures (k == |rs| - 1 && i == |rs[k].labels| && h.rows[k].labels[i].handle == handle)
         || (k < |g.rows| && i < |g.rows[k].labels| && h.rows[k].labels[i] == g.rows[k].labels[i])
  {
    var n := |rs| - 1;
    if k == n {
      var t := AddToRow(rs[n], handle, now, key);
      assert h.rows[k] == t;
      if i < |rs[n].labels| {
        assert t.labels[i] == rs[n].labels[i];
        assert n < |g.rows| && rs[n] == g.rows[n];
      }
    } else {
      assert h.rows[k] == rs[k] == g.rows[k];
    }
  }

  /**
   * The label `tk.Label` creates: no text for the grid's first event, otherwise
   * the gap since the grid's (not the row's) last event, yellow on a press and
   * red on a release.
   */
  function LabelWidget(icon: Icon, lastActive: Option<Instant>, now: Instant, edge: Edge): (w: Widget)
    ensures w.icon == icon && w.pos == None && w.destroyed == 0
    ensures lastActive.None? ==> w.text == "" && w.fg == Default && w.bg == Default
    ensures lastActive.Some? ==> w.bg == Black && w.fg == (if edge == Press then Yellow else Red)
  {
    match lastActive
    case None => Widget(icon, "", Default, Default, None, 0)
    case Some(t) => Widget(icon, IntText(ElapsedMs(now - t)), if edge == Press then Yellow else Red, Black, None, 0)
  }

  /** After the first event a new label reads as the whole milliseconds since the grid's last event. */
  lemma LabelWidgetText(icon: Icon, lastActive: Option<Instant>, now: Instant, edge: Edge)
    requires lastActive.Some?
    ensures ParseInt(LabelWidget(icon, lastActive, now, edge).text) == Some(ElapsedMs(now - lastActive.value))
  {
    IntTextRoundTrip(ElapsedMs(now - lastActive.value));
  }

  /**
   * The root's labels after an ingest: the new label is created whatever
   * happens to it, and on a hold the trailing label turns blue.
   */
  function IngestWidgets<K(==)>(ws: seq<Widget>, g: GridState<K>, icon: Icon, now: Instant, key: K, edge: Edge): (r: seq<Widget>)
    requires GridInv(g) && GridOwned(g.rows, ws)
    ensures |r| == |ws| + 1 && r[|ws|] == LabelWidget(icon, g.lastActive, now, edge)
    ensures forall h :: 0 <= h < |ws| && r[h] != ws[h] ==>
              && r[h] == ws[h].(fg := Blue)
              && g.rows != [] && g.rows[|g.rows| - 1].prevLabel == Some(h)
  {
    var w1 := ws + [LabelWidget(icon, g.lastActive, now, edge)];
    var rs := TargetRows(g, now);
    var target := rs[|rs| - 1];
    if Coalesces(target, key, now) then
      assert !OpensRow(g, now) && target == g.rows[|g.rows| - 1];
      Recoloured(w1, target.prevLabel.value, Blue)
    else
      w1
  }

  /** The sweep's test: idle for longer than the clear threshold. */
  predicate Cleared<K>(r: RowState<K>, now: Instant)
  {
    IsClearGap(now - r.lastActive)
  }

  /** The positions of the rows that survive a sweep, in their original order. */
  function KeptIndices<K>(rows: seq<RowState<K>>, now: Instant): (idx: seq<nat>)
    ensures |idx| <= |rows|
    ensures forall k :: 0 <= k < |idx| ==> idx[k] < |rows|
    decreases |rows|
  {
    if rows == [] then []
    else
      var n := |rows| - 1;
      KeptIndices(rows[..n], now) + (if Cleared(rows[n], now) then [] else [n])
  }

  /** Every kept position is in range and names a row that is not cleared. */
  lemma {:induction false} KeptIndicesSound<K>(rows: seq<RowState<K>>, now: Instant)
    ensures forall k :: 0 <= k < |KeptIndices(rows, now)| ==>
              KeptIndices(rows, now)[k] < |rows| && !Cleared(rows[KeptIndices(rows, now)[k]], now)
    decreases |rows|
  {
    if rows != [] {
      var n := |rows| - 1;
      KeptIndicesSound(rows[..n], now);
      var p := KeptIndices(rows[..n], now);
      assert forall k :: 0 <= k < |p| ==> rows[..n][p[k]] == rows[p[k]];
    }
  }

  /** The kept positions are strictly increasing: the sweep keeps the rows' order. */
  lemma {:induction false} KeptIndicesIncreasing<K>(rows: seq<RowState<K>>, now: Instant)
    ensures forall k1, k2 :: 0 <= k1 < k2 < |KeptIndices(rows, now)| ==>
              KeptIndices(rows, now)[k1] < KeptIndices(rows, now)[k2]
    decreases |rows|
  {
    if rows != [] {
      var n := |rows| - 1;
      KeptIndicesIncreasing(rows[..n], now);
      KeptIndicesSound(rows[..n], now);
    }
  }

  /** Every row that is not cleared is kept. */
  lemma {:induction false} KeptIndicesComplete<K>(rows: seq<RowState<K>>, now: Instant)
    ensures forall i :: 0 <= i < |rows| && !Cleared(rows[i], now) ==> i in KeptIndices(rows, now)
    decreases |rows|
  {
    if rows != [] {
      var n := |rows| - 1;
      KeptIndicesComplete(rows[..n], now);
      assert forall i :: 0 <= i < n ==> rows[..n][i] == rows[i];
    }
  }

  /** The kept positions are exactly those of the rows not cleared, in increasing order. */
  lemma KeptIndicesSpec<K>(rows: seq<RowState<K>>, now: Instant)
    ensures forall k :: 0 <= k < |KeptIndices(rows, now)| ==>
              KeptIndices(rows, now)[k] < |rows| && !Cleared(rows[KeptIndices(rows, now)[k]], now)
    ensures forall k1, k2 :: 0 <= k1 < k2 < |KeptIndices(rows, now)| ==>
              KeptIndices(rows, now)[k1] < KeptIndices(rows, now)[k2]
    ensures forall i :: 0 <= i < |rows| && !Cleared(rows[i], now) ==> i in KeptIndices(rows, now)
  {
    KeptIndicesSound(rows, now);
    KeptIndicesIncreasing(rows, now);
    KeptIndicesComplete(rows, now);
  }

  /** `kept_rows`: the rows not cleared, in order. */
  function Kept<K>(rows: seq<RowState<K>>, now: Instant): (kept: seq<RowState<K>>)
    ensures |kept| <= |rows|
    ensures forall k :: 0 <= k < |kept| ==> !Cleared(kept[k], now)
  {
    var idx := KeptIndices(rows, now);
    KeptIndicesSpec(rows, now);
    seq(|idx|, k requires 0 <= k < |idx| => rows[idx[k]])
  }

  /** The sweep part of `LabelGrid.reposition(now)` on the grid's value. */
  function Sweep<K>(g: GridState<K>, now: Instant): (s: GridState<K>)
    ensures s.lastActive == g.lastActive && |s.rows| <= |g.rows|
    ensures forall k :: 0 <= k < |s.rows| ==> !Cleared(s.rows[k], now)
  {
    GridState(Kept(g.rows, now), g.lastActive)
  }

  /** Sweeping keeps exactly the rows active within the clear threshold, in order, and the invariant. */
  lemma SweepKeepsInv<K>(g: GridState<K>, now: Instant)
    requires GridInv(g)
    ensures GridInv(Sweep(g, now))
    ensures forall k :: 0 <= k < |Sweep(g, now).rows| ==> !Cleared(Sweep(g, now).rows[k], now)
  {
    var idx := KeptIndices(g.rows, now);
    var kept := Kept(g.rows, now);
    KeptIndicesSpec(g.rows, now);
    HandlesAt(g.rows);
    HandlesAt(kept);
    forall k1, i1, k2, i2 |
      && 0 <= k1 < |kept| && 0 <= i1 < |kept[k1].labels|
      && 0 <= k2 < |kept| && 0 <= i2 < |kept[k2].labels|
      && kept[k1].labels[i1].handle == kept[k2].labels[i2].handle
      ensures k1 == k2 && i1 == i2
    {
      assert kept[k1] == g.rows[idx[k1]] && kept[k2] == g.rows[idx[k2]];
      assert idx[k1] == idx[k2];
    }
  }

  /** When no row is due, the sweep keeps every row. */
  lemma {:induction false} NoneClearedKeepsAll<K>(rows: seq<RowState<K>>, now: Instant)
    requires forall k :: 0 <= k < |rows| ==> !Cleared(rows[k], now)
    ensures KeptIndices(rows, now) == seq(|rows|, i => i)
    ensures Kept(rows, now) == rows
    decreases |rows|
  {
    if rows != [] {
      var n := |rows| - 1;
      NoneClearedKeepsAll(rows[..n], now);
      assert KeptIndices(rows, now) == seq(n, i => i) + [n];
    }
  }

  /** Sweeping twice at the same instant is sweeping once. */
  lemma SweepIdempotent<K>(g: GridState<K>, now: Instant)
    ensures Sweep(Sweep(g, now), now) == Sweep(g, now)
  {
    var kept := Kept(g.rows, now);
    var idx := KeptIndices(g.rows, now);
    KeptIndicesSpec(g.rows, now);
    assert forall k :: 0 <= k < |kept| ==> kept[k] == g.rows[idx[k]];
    NoneClearedKeepsAll(kept, now);
  }

  /** The sweep loop's effect on the root: each cleared row's labels are destroyed, row by row. */
  function DestroyRows<K>(ws: seq<Widget>, rows: seq<RowState<K>>, now: Instant): (r: seq<Widget>)
    requires GridOwned(rows, ws)
    ensures |r| == |ws|
    decreases |rows|
  {
    if rows == [] then ws
    else
      var n := |rows| - 1;
      var before := DestroyRows(ws, rows[..n], now);
      if Cleared(rows[n], now) then DestroyAll(before, rows[n].labels) else before
  }

  /** Every label of a cleared row is destroyed exactly once; labels of kept rows, and all others, are untouched. */
  lemma {:induction false} DestroyRowsOnce<K>(ws: seq<Widget>, rows: seq<RowState<K>>, now: Instant)
    requires GridOwned(rows, ws) && DistinctHandles(rows)
    ensures forall k, i :: 0 <= k < |rows| && 0 <= i < |rows[k].labels| ==>
              DestroyRows(ws, rows, now)[rows[k].labels[i].handle]
              == ws[rows[k].labels[i].handle].(destroyed := ws[rows[k].labels[i].handle].destroyed + if Cleared(rows[k], now) then 1 else 0)
    ensures forall h :: 0 <= h < |ws| && NotInRows(h, rows) ==> DestroyRows(ws, rows, now)[h] == ws[h]
    decreases |rows|
  {
    if rows != [] {
      var n := |rows| - 1;
      var prefix := rows[..n];
      var before := DestroyRows(ws, prefix, now);
      HandlesAt(rows);
      HandlesAt(prefix);
      DestroyRowsOnce(ws, prefix, now);
      var last := rows[n].labels;
      if Cleared(rows[n], now) {
        DestroyAllOnce(before, last);
      }
      forall k, i | 0 <= k < |rows| && 0 <= i < |rows[k].labels|
        ensures DestroyRows(ws, rows, now)[rows[k].labels[i].handle]
                == ws[rows[k].labels[i].handle].(destroyed := ws[rows[k].labels[i].handle].destroyed + if Cleared(rows[k], now) then 1 else 0)
      {
        var h := rows[k].labels[i].handle;
        if k < n {
          assert prefix[k] == rows[k];
          assert NotIn(h, last);
        } else {
          assert NotInRows(h, prefix) by {
            forall k' | 0 <= k' < |prefix| ensures NotIn(h, prefix[k'].labels) {
              assert prefix[k'] == rows[k'];
            }
          }
        }
      }
      forall h | 0 <= h < |ws| && NotInRows(h, rows)
        ensures DestroyRows(ws, rows, now)[h] == ws[h]
      {
        assert NotIn(h, last);
        assert NotInRows(h, prefix) by {
          forall k' | 0 <= k' < |prefix| ensures NotIn(h, prefix[k'].labels) {
            assert prefix[k'] == rows[k'];
          }
        }
      }
    }
  }

  /** When no row is due, the sweep destroys nothing. */
  lemma {:induction false} NoneClearedDestroysNothing<K>(ws: seq<Widget>, rows: seq<RowState<K>>, now: Instant)
    requires GridOwned(rows, ws)
    requires forall k :: 0 <= k < |rows| ==> !Cleared(rows[k], now)
    ensures DestroyRows(ws, rows, now) == ws
    decreases |rows|
  {
    if rows != [] {
      NoneClearedDestroysNothing(ws, rows[..|rows| - 1], now);
    }
  }

  /** The re-stacking loop: the k-th row is laid out at `y = 60 * k`. */
  function PlaceGrid<K>(ws: seq<Widget>, rows: seq<RowState<K>>): (r: seq<Widget>)
    requires GridOwned(rows, ws)
    ensures |r| == |ws|
    decreases |rows|
  {
    if rows == [] then ws
    else
      var n := |rows| - 1;
      PlaceRow(PlaceGrid(ws, rows[..n]), rows[n].labels, ROW_HEIGHT_PX * n)
  }

  /** Re-stacking changes positions only. */
  lemma {:induction false} PlaceGridOnlyMoves<K>(ws: seq<Widget>, rows: seq<RowState<K>>)
    requires GridOwned(rows, ws)
    ensures forall h :: 0 <= h < |ws| ==> PlaceGrid(ws, rows)[h] == ws[h].(pos := PlaceGrid(ws, rows)[h].pos)
    decreases |rows|
  {
    if rows != [] {
      var n := |rows| - 1;
      PlaceGridOnlyMoves(ws, rows[..n]);
      PlaceRowOnlyMoves(PlaceGrid(ws, rows[..n]), rows[n].labels, ROW_HEIGHT_PX * n);
    }
  }

  /** Laying out the grid destroys nothing: its labels stay alive. */
  lemma PlaceGridKeepsLive<K>(ws: seq<Widget>, rows: seq<RowState<K>>)
    requires GridLive(rows, ws)
    ensures GridOwned(rows, ws) && GridLive(rows, PlaceGrid(ws, rows))
  {
    assert GridOwned(rows, ws) by {
      forall k | 0 <= k < |rows| ensures Owned(rows[k].labels, ws) {
        assert Live(rows[k].labels, ws);
      }
    }
    PlaceGridOnlyMoves(ws, rows);
  }

  /** Label i of row k is placed at (45 * i, 60 * k); labels outside the rows do not move. */
  lemma {:induction false} PlaceGridAt<K>(ws: seq<Widget>, rows: seq<RowState<K>>)
    requires GridOwned(rows, ws) && DistinctHandles(rows)
    ensures forall k, i :: 0 <= k < |rows| && 0 <= i < |rows[k].labels| ==>
              PlaceGrid(ws, rows)[rows[k].labels[i].handle]
              == ws[rows[k].labels[i].handle].(pos := Some(Pos(DISTANCE_BETWEEN_LABELS * i, ROW_HEIGHT_PX * k)))
    ensures forall h :: 0 <= h < |ws| && NotInRows(h, rows) ==> PlaceGrid(ws, rows)[h] == ws[h]
    decreases |rows|
  {
    if rows != [] {
      var n := |rows| - 1;
      var prefix := rows[..n];
      var before := PlaceGrid(ws, prefix);
      var last := rows[n].labels;
      HandlesAt(rows);
      HandlesAt(prefix);
      PlaceGridAt(ws, prefix);
      assert DistinctLabels(last);
      PlaceRowAt(before, last, ROW_HEIGHT_PX * n);
      forall k, i | 0 <= k < |rows| && 0 <= i < |rows[k].labels|
        ensures PlaceGrid(ws, rows)[rows[k].labels[i].handle]
                == ws[rows[k].labels[i].handle].(pos := Some(Pos(DISTANCE_BETWEEN_LABELS * i, ROW_HEIGHT_PX * k)))
      {
        var h := rows[k].labels[i].handle;
        if k < n {
          assert prefix[k] == rows[k];
          assert NotIn(h, last);
        } else {
          assert NotInRows(h, prefix) by {
            forall k' | 0 <= k' < |prefix| ensures NotIn(h, prefix[k'].labels) {
              assert prefix[k'] == rows[k'];
            }
          }
        }
      }
      forall h | 0 <= h < |ws| && NotInRows(h, rows)
        ensures PlaceGrid(ws, rows)[h] == ws[h]
      {
        assert NotIn(h, last);
        assert NotInRows(h, prefix) by {
          forall k' | 0 <= k' < |prefix| ensures NotIn(h, prefix[k'].labels) {
            assert prefix[k'] == rows[k'];
          }
        }
      }
    }
  }

  /** Laying the same rows out again moves nothing. */
  lemma PlaceGridIdempotent<K>(ws: seq<Widget>, rows: seq<RowState<K>>)
    requires GridOwned(rows, ws) && DistinctHandles(rows)
    ensures PlaceGrid(PlaceGrid(ws, rows), rows) == PlaceGrid(ws, rows)
  {
    var w1 := PlaceGrid(ws, rows);
    var w2 := PlaceGrid(w1, rows);
    PlaceGridAt(ws, rows);
    PlaceGridAt(w1, rows);
    forall h | 0 <= h < |ws| ensures w2[h] == w1[h] {
      if !NotInRows(h, rows) {
        var k, i :| 0 <= k < |rows| && 0 <= i < |rows[k].labels| && rows[k].labels[i].handle == h;
      }
    }
  }

  /** The whole of `LabelGrid.reposition(now)` on the root's labels: sweep, then re-stack the kept rows from y = 0. */
  function RepositionWidgets<K>(ws: seq<Widget>, g: GridState<K>, now: Instant): (r: seq<Widget>)
    requires GridOwned(g.rows, ws)
    ensures |r| == |ws|
  {
    var swept := DestroyRows(ws, g.rows, now);
    KeptOwned(g.rows, now, ws, swept);
    PlaceGrid(swept, Kept(g.rows, now))
  }

  /** The kept rows' labels are still the root's. */
  lemma KeptOwned<K>(rows: seq<RowState<K>>, now: Instant, ws: seq<Widget>, ws': seq<Widget>)
    requires GridOwned(rows, ws) && |ws'| == |ws|
    ensures GridOwned(Kept(rows, now), ws')
  {
    var idx := KeptIndices(rows, now);
    KeptIndicesSpec(rows, now);
    forall k | 0 <= k < |idx| ensures Owned(Kept(rows, now)[k].labels, ws') {
      assert Kept(rows, now)[k] == rows[idx[k]];
    }
  }

  /** Calling `reposition` twice at the same instant leaves the rows and every label as the first call left them. */
  lemma RepositionTwiceIsStable<K>(ws: seq<Widget>, g: GridState<K>, now: Instant)
    requires GridInv(g) && GridOwned(g.rows, ws)
    ensures Sweep(Sweep(g, now), now) == Sweep(g, now)
    ensures GridOwned(Sweep(g, now).rows, RepositionWidgets(ws, g, now))
    ensures RepositionWidgets(RepositionWidgets(ws, g, now), Sweep(g, now), now) == RepositionWidgets(ws, g, now)
  {
    SweepIdempotent(g, now);
    SweepKeepsInv(g, now);
    var kept := Kept(g.rows, now);
    var swept := DestroyRows(ws, g.rows, now);
    KeptOwned(g.rows, now, ws, swept);
    var w1 := RepositionWidgets(ws, g, now);
    assert w1 == PlaceGrid(swept, kept);
    KeptOwned(g.rows, now, ws, w1);
    NoneClearedDestroysNothing(w1, kept, now);
    NoneClearedKeepsAll(kept, now);
    PlaceGridIdempotent(swept, kept);
  }

  /** The values of a sequence of row objects. */
  ghost function RowViews<K>(rs: seq<LabelRow<K>>): (vs: seq<RowState<K>>)
    reads rs
    ensures |vs| == |rs|
  {
    seq(|rs|, k requires 0 <= k < |rs| reads rs => rs[k].View())
  }

  lemma RowViewAt<K>(rs: seq<LabelRow<K>>, k: int)
    requires 0 <= k < |rs|
    ensures RowViews(rs)[k] == rs[k].View()
  {
  }

  lemma RowViewsAppend<K>(rs: seq<LabelRow<K>>, r: LabelRow<K>)
    ensures RowViews(rs + [r]) == RowViews(rs) + [r.View()]
  {
    var a, b := RowViews(rs + [r]), RowViews(rs) + [r.View()];
    forall k | 0 <= k < |a| ensures a[k] == b[k] {
      RowViewAt(rs + [r], k);
      if k < |rs| {
        RowViewAt(rs, k);
        assert (rs + [r])[k] == rs[k];
      }
    }
  }

  class LabelGrid<K(==)> {
    var lastActive: Option<Instant>
    var rows: seq<LabelRow<K>>

    ghost function View(): GridState<K>
      reads this, rows
    {
      GridState(RowViews(rows), lastActive)
    }

    /** The rows are distinct objects and their values satisfy the grid invariant. */
    ghost predicate Valid()
      reads this, rows
    {
      && (forall i, j :: 0 <= i < j < |rows| ==> rows[i] != rows[j])
      && GridInv(View())
    }

    constructor ()
      ensures Valid() && View() == EmptyGrid() && rows == []
    {
      lastActive := None;
      rows := [];
    }

    /**
     * The two row-creation checks of `add_label`: open a row after a long
     * pause (or when there is none), then another if the target row is full.
     */
    method TargetRow(now: Instant) returns (labelRow: LabelRow<K>)
      requires Valid()
      modifies this
      ensures lastActive == old(lastActive)
      ensures RowViews(rows) == TargetRows(old(View()), now)
      ensures |rows| >= |old(rows)| && rows[..|old(rows)|] == old(rows)
      ensures forall k :: |old(rows)| <= k < |rows| ==> fresh(rows[k])
      ensures forall i, j :: 0 <= i < j < |rows| ==> rows[i] != rows[j]
      ensures labelRow == rows[|rows| - 1]
    {
      ghost var g := View();
      if |rows| == 0 || now - lastActive.value > Millis(NEW_ROW_MILLIS) {
        var _ := OpenRow(now);
      }
      ghost var mid := RowViews(rows);
      assert mid == if g.rows == [] || IsNewRowGap(now - g.lastActive.value) then g.rows + [EmptyRow(now)] else g.rows;
      labelRow := rows[|rows| - 1];
      RowViewAt(rows, |rows| - 1);
      var maxLabels := ROW_WIDTH_PX / (ICON_SIZE + (DISTANCE_BETWEEN_LABELS - ICON_SIZE));
      if |labelRow.labels| == maxLabels {
        labelRow := OpenRow(now);
      }
    }

    /** Appends a fresh, empty row stamped `now`. */
    method OpenRow(now: Instant) returns (row: LabelRow<K>)
      modifies this
      ensures fresh(row) && rows == old(rows) + [row] && lastActive == old(lastActive)
      ensures RowViews(rows) == old(RowViews(rows)) + [EmptyRow(now)]
    {
      row := new LabelRow(now);
      RowViewsAppend(rows, row);
      rows := rows + [row];
    }

    /** The `tk.Label` call of `add_label`: its text and colours depend on the grid's last event. */
    method CreateLabel(root: Root, icon: Icon, now: Instant, edge: Edge) returns (handle: Handle)
      modifies root
      ensures handle == |old(root.widgets)|
      ensures root.widgets == old(root.widgets) + [LabelWidget(icon, lastActive, now, edge)]
    {
      if lastActive.None? {
        handle := root.NewLabel(icon, "", Default, Default);
      } else {
        var timeDiffMs := ElapsedMs(now - lastActive.value);
        handle := root.NewLabel(icon, IntText(timeDiffMs), if edge == Press then Yellow else Red, Black);
      }
    }

    /** Hand the new label to the last row; no other row changes. */
    method AttachLabel(root: Root, labelRow: LabelRow<K>, handle: Handle, now: Instant, key: K)
      requires rows != [] && labelRow == rows[|rows| - 1]
      requires forall i, j :: 0 <= i < j < |rows| ==> rows[i] != rows[j]
      requires labelRow.Valid() && Live(labelRow.labels, root.widgets)
      modifies labelRow, root
      ensures RowViews(rows) == old(RowViews(rows))[|rows| - 1 := AddToRow(old(labelRow.View()), handle, now, key)]
      ensures root.widgets == if Coalesces(old(labelRow.View()), key, now)
                              then Recoloured(old(root.widgets), old(labelRow.View()).prevLabel.value, Blue)
                              else old(root.widgets)
    {
      ghost var pre := RowViews(rows);
      labelRow.AddLabel(root, handle, now, key);
      forall k | 0 <= k < |rows|
        ensures RowViews(rows)[k] == pre[|rows| - 1 := AddToRow(old(labelRow.View()), handle, now, key)][k]
      {
        RowViewAt(rows, k);
        if k < |rows| - 1 {
          assert rows[k] != labelRow;
          assert rows[k].View() == pre[k];
        }
      }
    }

    /**
     * The rest of `add_label` once the target row is chosen and the label
     * made: hand the label to the row and stamp the grid.
     */
    method Deliver(root: Root, labelRow: LabelRow<K>, handle: Handle, now: Instant, key: K,
                   ghost g: GridState<K>, ghost ws: seq<Widget>, ghost icon: Icon, ghost edge: Edge)
      requires GridInv(g) && GridLive(g.rows, ws)
      requires RowViews(rows) == TargetRows(g, now)
      requires forall i, j :: 0 <= i < j < |rows| ==> rows[i] != rows[j]
      requires labelRow == rows[|rows| - 1]
      requires handle == |ws| && root.widgets == ws + [LabelWidget(icon, g.lastActive, now, edge)]
      modifies this, labelRow, root
      ensures rows == old(rows)
      ensures Valid() && GridLive(View().rows, root.widgets)
      ensures View() == Ingest(g, handle, now, key)
      ensures root.widgets == IngestWidgets(ws, g, icon, now, key, edge)
    {
      ghost var rs := RowViews(rows);
      ghost var n := |rows| - 1;
      ghost var w1 := root.widgets;
      RowViewAt(rows, n);
      TargetRowLive(g, ws, LabelWidget(icon, g.lastActive, now, edge), now);
      AttachLabel(root, labelRow, handle, now, key);
      ghost var after := RowViews(rows);
      assert after == rs[n := AddToRow(rs[n], handle, now, key)];
      lastActive := Some(now);
      assert View() == GridState(after, Some(now));
      IngestInSteps(g, ws, rs, w1, icon, now, key, edge);
      ghost var h := Ingest(g, handle, now, key);
      assert View() == h;
      assert GridInv(h);
      assert root.widgets == IngestWidgets(ws, g, icon, now, key, edge);
    }

    /**
     * `add_label` (edge `Press`) and `add_label_release` (edge `Release`):
     * pick or open the target row, create the label, hand it to the row and
     * stamp the grid.
     */
    method AddLabel(root: Root, icon: Icon, now: Instant, key: K, edge: Edge)
      requires Valid() && GridLive(View().rows, root.widgets)
      modifies this, rows, root
      ensures Valid() && GridLive(View().rows, root.widgets)
      ensures View() == Ingest(old(View()), |old(root.widgets)|, now, key)
      ensures root.widgets == IngestWidgets(old(root.widgets), old(View()), icon, now, key, edge)
      ensures |rows| >= |old(rows)| && rows[..|old(rows)|] == old(rows)
      ensures forall k :: |old(rows)| <= k < |rows| ==> fresh(rows[k])
    {
      ghost var g := View();
      ghost var ws := root.widgets;
      var labelRow := TargetRow(now);
      var handle := CreateLabel(root, icon, now, edge);
      Deliver(root, labelRow, handle, now, key, g, ws, icon, edge);
    }

    /**
     * The sweep loop of `reposition` over the row objects `all`, whose values
     * are `vs`: destroy each row idle for longer than the clear threshold and
     * collect the others, in order.
     */
    static method DestroyIdle(root: Root, all: seq<LabelRow<K>>, now: Instant, ghost vs: seq<RowState<K>>)
      returns (keptRows: seq<LabelRow<K>>)
      requires |vs| == |all| && forall j :: 0 <= j < |all| ==> all[j].View() == vs[j]
      requires forall i, j :: 0 <= i < j < |all| ==> all[i] != all[j]
      requires GridOwned(vs, root.widgets)
      modifies all, root
      ensures root.widgets == DestroyRows(old(root.widgets), vs, now)
      ensures var idx := KeptIndices(vs, now);
              |keptRows| == |idx| && forall k :: 0 <= k < |idx| ==> idx[k] < |all| && keptRows[k] == all[idx[k]]
      ensures forall j :: 0 <= j < |all| && !Cleared(vs[j], now) ==> all[j].View() == vs[j]
    {
      ghost var ws := root.widgets;
      keptRows := [];
      for i := 0 to |all|
        invariant |root.widgets| == |ws|
        invariant root.widgets == DestroyRows(ws, vs[..i], now)
        invariant var idx := KeptIndices(vs[..i], now);
                  |keptRows| == |idx| && forall k :: 0 <= k < |idx| ==> idx[k] < |all| && keptRows[k] == all[idx[k]]
        invariant forall j :: i <= j < |all| ==> all[j].View() == vs[j]
        invariant forall j :: 0 <= j < i && !Cleared(vs[j], now) ==> all[j].View() == vs[j]
      {
        assert vs[..i + 1][..i] == vs[..i];
        var row := all[i];
        if now - row.lastActive > Millis(CLEAR_ROW_MILLIS) {
          assert Owned(vs[i].labels, ws);
          row.Destroy(root);
        } else {
          keptRows := keptRows + [row];
        }
      }
      assert vs[..|all|] == vs;
    }

    /**
     * The sweep part of `reposition`: destroy every row idle for longer than
     * the clear threshold and keep the others, in order.
     */
    method ClearIdleRows(root: Root, now: Instant)
      requires Valid() && GridLive(View().rows, root.widgets)
      modifies this, rows, root
      ensures Valid() && GridLive(View().rows, root.widgets)
      ensures View() == Sweep(old(View()), now)
      ensures root.widgets == DestroyRows(old(root.widgets), old(View()).rows, now)
      ensures var idx := KeptIndices(old(View()).rows, now);
              |rows| == |idx| && forall k :: 0 <= k < |idx| ==> idx[k] < |old(rows)| && rows[k] == old(rows)[idx[k]]
    {
      ghost var g := View();
      ghost var ws := root.widgets;
      var all := rows;
      forall j | 0 <= j < |all| ensures all[j].View() == g.rows[j] {
        RowViewAt(all, j);
      }
      var keptRows := DestroyIdle(root, all, now, g.rows);
      KeptRowViews(all, keptRows, g.rows, now);
      rows := keptRows;
      assert View() == Sweep(g, now);
      SweepKeepsInv(g, now);
      KeptLive(g, ws, now);
    }

    /** The re-stacking loop of `reposition`: row k is laid out at y = 60 * k. */
    method Restack(root: Root, wraparound: int)
      requires GridLive(View().rows, root.widgets)
      modifies root
      ensures GridLive(View().rows, root.widgets)
      ensures root.widgets == PlaceGrid(old(root.widgets), View().rows)
    {
      ghost var vs := View().rows;
      ghost var ws := root.widgets;
      PlaceGridKeepsLive(ws, vs);
      var y := 0;
      for k := 0 to |rows|
        invariant y == ROW_HEIGHT_PX * k
        invariant GridOwned(vs[..k], ws)
        invariant root.widgets == PlaceGrid(ws, vs[..k])
      {
        assert vs[..k + 1][..k] == vs[..k];
        PlaceGridOnlyMoves(ws, vs[..k]);
        RowViewAt(rows, k);
        assert Live(rows[k].labels, root.widgets) by {
          assert Live(vs[k].labels, ws);
        }
        y := rows[k].Reposition(root, y, wraparound);
        assert GridOwned(vs[..k + 1], ws) by {
          assert vs[..k + 1][k] == vs[k];
        }
      }
      assert vs[..|rows|] == vs;
      assert View().rows == vs;
      PlaceGridKeepsLive(ws, vs);
    }

    /**
     * `reposition(now, wraparound)`: destroy the rows idle for longer than
     * the clear threshold, keep the others in order, and stack them from
     * y = 0. `wraparound` is handed to each row, which ignores it.
     */
    method Reposition(root: Root, now: Instant, wraparound: int)
      requires Valid() && GridLive(View().rows, root.widgets)
      modifies this, rows, root
      ensures Valid() && GridLive(View().rows, root.widgets)
      ensures View() == Sweep(old(View()), now)
      ensures root.widgets == RepositionWidgets(old(root.widgets), old(View()), now)
      ensures var idx := KeptIndices(old(View()).rows, now);
              |rows| == |idx| && forall k :: 0 <= k < |idx| ==> idx[k] < |old(rows)| && rows[k] == old(rows)[idx[k]]
    {
      ClearIdleRows(root, now);
      Restack(root, wraparound);
    }
  }

  /** The row objects a sweep keeps are distinct and hold, in order, the values `Kept` selects. */
  lemma KeptRowViews<K>(all: seq<LabelRow<K>>, keptRows: seq<LabelRow<K>>, vs: seq<RowState<K>>, now: Instant)
    requires |vs| == |all| && forall i, j :: 0 <= i < j < |all| ==> all[i] != all[j]
    requires forall j :: 0 <= j < |all| && !Cleared(vs[j], now) ==> all[j].View() == vs[j]
    requires var idx := KeptIndices(vs, now);
             |keptRows| == |idx| && forall k :: 0 <= k < |idx| ==> idx[k] < |all| && keptRows[k] == all[idx[k]]
    ensures RowViews(keptRows) == Kept(vs, now)
    ensures forall i, j :: 0 <= i < j < |keptRows| ==> keptRows[i] != keptRows[j]
  {
    var idx := KeptIndices(vs, now);
    KeptIndicesSpec(vs, now);
    var kept := Kept(vs, now);
    forall k | 0 <= k < |keptRows| ensures RowViews(keptRows)[k] == kept[k] {
      RowViewAt(keptRows, k);
      assert keptRows[k] == all[idx[k]];
    }
    forall i, j | 0 <= i < j < |keptRows| ensures keptRows[i] != keptRows[j] {
      assert idx[i] < idx[j];
    }
  }

  /**
   * An ingest done in the order `add_label` does it (target the row, create
   * the label, hand it to the row) yields `Ingest` and `IngestWidgets`, and
   * keeps the grid's invariant and its labels alive.
   */
  lemma IngestInSteps<K>(g: GridState<K>, ws: seq<Widget>, rs: seq<RowState<K>>, w1: seq<Widget>,
                         icon: Icon, now: Instant, key: K, edge: Edge)
    requires GridInv(g) && GridLive(g.rows, ws)
    requires rs == TargetRows(g, now) && w1 == ws + [LabelWidget(icon, g.lastActive, now, edge)]
    ensures Ingest(g, |ws|, now, key) == GridState(rs[|rs| - 1 := AddToRow(rs[|rs| - 1], |ws|, now, key)], Some(now))
    ensures IngestWidgets(ws, g, icon, now, key, edge)
            == if Coalesces(rs[|rs| - 1], key, now) then Recoloured(w1, rs[|rs| - 1].prevLabel.value, Blue) else w1
    ensures GridInv(Ingest(g, |ws|, now, key))
    ensures GridLive(Ingest(g, |ws|, now, key).rows, IngestWidgets(ws, g, icon, now, key, edge))
  {
    assert NotInRows(|ws|, g.rows);
    IngestKeepsInv(g, |ws|, now, key);
    GridLiveAfterIngest(g, ws, icon, now, key, edge);
  }

  /** The row an ingest targets keeps its invariant, and its labels are alive once the new label exists. */
  lemma TargetRowLive<K>(g: GridState<K>, ws: seq<Widget>, w: Widget, now: Instant)
    requires GridInv(g) && GridLive(g.rows, ws)
    ensures var rs := TargetRows(g, now);
            RowInv(rs[|rs| - 1]) && Live(rs[|rs| - 1].labels, ws + [w])
  {
    var rs := TargetRows(g, now);
    var n := |rs| - 1;
    if n < |g.rows| {
      assert rs[n] == g.rows[n];
      assert Live(g.rows[n].labels, ws);
    }
  }

  /** After an ingest every row's labels are still alive in the root. */
  lemma GridLiveAfterIngest<K>(g: GridState<K>, ws: seq<Widget>, icon: Icon, now: Instant, key: K, edge: Edge)
    requires GridInv(g) && GridLive(g.rows, ws)
    ensures GridLive(Ingest(g, |ws|, now, key).rows, IngestWidgets(ws, g, icon, now, key, edge))
  {
    var h := Ingest(g, |ws|, now, key);
    var w := IngestWidgets(ws, g, icon, now, key, edge);
    forall k, i | 0 <= k < |h.rows| && 0 <= i < |h.rows[k].labels|
      ensures h.rows[k].labels[i].handle < |w| && w[h.rows[k].labels[i].handle].destroyed == 0
    {
      HandleOrigin(g, TargetRows(g, now), h, |ws|, now, key, k, i);
    }
  }

  /** After the sweep the kept rows' labels are still alive. */
  lemma KeptLive<K>(g: GridState<K>, ws: seq<Widget>, now: Instant)
    requires GridInv(g) && GridLive(g.rows, ws)
    ensures GridLive(Kept(g.rows, now), DestroyRows(ws, g.rows, now))
  {
    var idx := KeptIndices(g.rows, now);
    KeptIndicesSpec(g.rows, now);
    DestroyRowsOnce(ws, g.rows, now);
    forall k | 0 <= k < |idx| ensures Live(Kept(g.rows, now)[k].labels, DestroyRows(ws, g.rows, now)) {
      assert Kept(g.rows, now)[k] == g.rows[idx[k]];
    }
  }
}
