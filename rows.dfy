/**
 * One row of the overlay (`LabelRow`): a run of labels laid out left to
 * right, with hold-coalescing of a key repeated quickly.
 *
 * `RowState` is the row's value and `AddToRow`, `PlaceRow` and `DestroyAll`
 * say what one call does to it and to the root's labels; the class
 * `LabelRow` is the object the grid mutates, and its methods are proved
 * against those functions.
 */
module Rows {
  import opened Wrappers
  import opened Settings
  import opened Text
  import opened Tk

  /** One element of `labels`: the label, when it was added, its text and the gap it shows. */
  datatype Entry = Entry(handle: Handle, time: Instant, text: string, gapMs: int)

  /** The fields of a `LabelRow`; `K` is the type of key tokens. */
  datatype RowState<K> = RowState(labels: seq<Entry>, prevLabel: Option<Handle>, prevKey: Option<K>, lastActive: Instant)

  /** A row just created at `now`. */
  function EmptyRow<K>(now: Instant): RowState<K>
  {
    RowState([], None, None, now)
  }

  /** The trailing key and label are set exactly when there is a label, and name the last one. */
  predicate RowInv<K>(r: RowState<K>)
  {
    && (r.prevKey.Some? <==> r.labels != [])
    && r.prevLabel == (if r.labels == [] then None else Some(r.labels[|r.labels| - 1].handle))
  }

  /** The hold test: the trailing key again, less than the hold threshold after the row's last event. */
  predicate Coalesces<K(==)>(r: RowState<K>, key: K, now: Instant)
  {
    r.prevKey.Some? && key == r.prevKey.value && IsHoldGap(now - r.lastActive)
  }

  /** The entry appended for `label` at `now`, in a row last active at `since`. */
  function NewEntry(handle: Handle, now: Instant, since: Instant): (e: Entry)
    ensures e.handle == handle && e.time == now
    ensures since <= now ==> 0 <= e.gapMs && Millis(e.gapMs) <= now - since < Millis(e.gapMs + 1)
    ensures now < since ==> e.gapMs <= 0 && Millis(e.gapMs - 1) < now - since <= Millis(e.gapMs)
  {
    var gap := ElapsedMs(now - since);
    Entry(handle, now, IntText(gap) + "ms", gap)
  }

  /** `LabelRow.add_label(label, now, key)` on the row's value. */
  function AddToRow<K(==)>(r: RowState<K>, handle: Handle, now: Instant, key: K): (t: RowState<K>)
    ensures RowInv(r) ==> RowInv(t)
    ensures t.lastActive == now
    ensures |t.labels| == |r.labels| + (if Coalesces(r, key, now) then 0 else 1)
    ensures t.labels[..|r.labels|] == r.labels
    ensures Coalesces(r, key, now) ==> t.prevLabel == r.prevLabel && t.prevKey == r.prevKey
    ensures !Coalesces(r, key, now) ==>
              && t.prevLabel == Some(handle) && t.prevKey == Some(key)
              && t.labels[|r.labels|].handle == handle && t.labels[|r.labels|].time == now
              && t.labels[|r.labels|].gapMs == ElapsedMs(now - r.lastActive)
  {
    if Coalesces(r, key, now) then
      r.(lastActive := now)
    else
      RowState(r.labels + [NewEntry(handle, now, r.lastActive)], Some(handle), Some(key), now)
  }

  /** An appended entry's stored text is its gap in decimal followed by `ms`, and reads back as that gap. */
  lemma EntryTextReadsAsGap(handle: Handle, now: Instant, since: Instant)
    ensures var e := NewEntry(handle, now, since);
            && |e.text| >= 3 && e.text[|e.text| - 2..] == "ms"
            && ParseInt(e.text[..|e.text| - 2]) == Some(e.gapMs)
  {
    var e := NewEntry(handle, now, since);
    var digits := IntText(e.gapMs);
    assert e.text[..|e.text| - 2] == digits;
    IntTextRoundTrip(e.gapMs);
  }

  /** The first label of a row created at the same instant records a gap of zero. */
  lemma FirstAddAppends<K>(handle: Handle, now: Instant, key: K)
    ensures AddToRow(EmptyRow(now), handle, now, key).labels == [Entry(handle, now, "0ms", 0)]
  {
    assert ElapsedMs(now - now) == 0 && IntText(0) == "0";
    assert IntText(0) + "ms" == "0ms";
  }

  /** Applies `(label, now, key)` additions one after another. */
  function AddAll<K(==)>(r: RowState<K>, events: seq<(Handle, Instant, K)>): RowState<K>
    decreases |events|
  {
    if events == [] then r else AddAll(AddToRow(r, events[0].0, events[0].1, events[0].2), events[1..])
  }

  /** Every event repeats `key`, each less than the hold threshold after the one before (the first after `start`). */
  predicate HoldRun<K(==)>(key: K, start: Instant, events: seq<(Handle, Instant, K)>)
    decreases |events|
  {
    events != [] ==>
      && events[0].2 == key
      && IsHoldGap(events[0].1 - start)
      && HoldRun(key, events[0].1, events[1..])
  }

  /** A held key recolours the trailing label however often it repeats: no label is appended. */
  lemma {:induction false} HoldRunCoalesces<K>(r: RowState<K>, key: K, events: seq<(Handle, Instant, K)>)
    requires r.prevKey == Some(key) && HoldRun(key, r.lastActive, events)
    ensures AddAll(r, events).labels == r.labels
    ensures AddAll(r, events).prevLabel == r.prevLabel && AddAll(r, events).prevKey == r.prevKey
    ensures AddAll(r, events).lastActive == if events == [] then r.lastActive else events[|events| - 1].1
    decreases |events|
  {
    if events != [] {
      var e := events[0];
      assert Coalesces(r, e.2, e.1);
      var r' := AddToRow(r, e.0, e.1, e.2);
      HoldRunCoalesces(r', key, events[1..]);
    }
  }

  /** Pressing a key into a fresh row and then holding it leaves exactly one label in the row. */
  lemma HeldKeyShowsOneLabel<K>(handle: Handle, now: Instant, key: K, events: seq<(Handle, Instant, K)>)
    requires HoldRun(key, now, events)
    ensures |AddAll(AddToRow(EmptyRow(now), handle, now, key), events).labels| == 1
  {
    HoldRunCoalesces(AddToRow(EmptyRow(now), handle, now, key), key, events);
  }

  /** Every label of the row names a label the root has created. */
  predicate Owned(labels: seq<Entry>, ws: seq<Widget>)
  {
    forall i :: 0 <= i < |labels| ==> labels[i].handle < |ws|
  }

  /** ... and none of them has been destroyed. */
  predicate Live(labels: seq<Entry>, ws: seq<Widget>)
  {
    Owned(labels, ws) && forall i :: 0 <= i < |labels| ==> ws[labels[i].handle].destroyed == 0
  }

  predicate DistinctLabels(labels: seq<Entry>)
  {
    forall i, j :: 0 <= i < j < |labels| ==> labels[i].handle != labels[j].handle
  }

  predicate NotIn(h: Handle, labels: seq<Entry>)
  {
    forall i :: 0 <= i < |labels| ==> labels[i].handle != h
  }

  /** The row's `reposition(y)` loop: the i-th label is placed at `x = 45 * i`. */
  function PlaceRow(ws: seq<Widget>, labels: seq<Entry>, y: int): (r: seq<Widget>)
    requires Owned(labels, ws)
    ensures |r| == |ws|
    decreases |labels|
  {
    if labels == [] then ws
    else
      var n := |labels| - 1;
      Placed(PlaceRow(ws, labels[..n], y), labels[n].handle, DISTANCE_BETWEEN_LABELS * n, y)
  }

  /** Laying a row out changes positions only. */
  lemma {:induction false} PlaceRowOnlyMoves(ws: seq<Widget>, labels: seq<Entry>, y: int)
    requires Owned(labels, ws)
    ensures forall h :: 0 <= h < |ws| ==> PlaceRow(ws, labels, y)[h] == ws[h].(pos := PlaceRow(ws, labels, y)[h].pos)
    decreases |labels|
  {
    if labels != [] {
      PlaceRowOnlyMoves(ws, labels[..|labels| - 1], y);
    }
  }

  /** The row's labels sit at a fixed pitch on one line, whatever their number; nothing else moves. */
  lemma {:induction false} PlaceRowAt(ws: seq<Widget>, labels: seq<Entry>, y: int)
    requires Owned(labels, ws) && DistinctLabels(labels)
    ensures forall i :: 0 <= i < |labels| ==>
              PlaceRow(ws, labels, y)[labels[i].handle] == ws[labels[i].handle].(pos := Some(Pos(DISTANCE_BETWEEN_LABELS * i, y)))
    ensures forall h :: 0 <= h < |ws| && NotIn(h, labels) ==> PlaceRow(ws, labels, y)[h] == ws[h]
  {
    if labels != [] {
      var n := |labels| - 1;
      PlaceRowAt(ws, labels[..n], y);
    }
  }

  /** The row's `destroy` loop: `destroy` on each label in order. */
  function DestroyAll(ws: seq<Widget>, labels: seq<Entry>): (r: seq<Widget>)
    requires Owned(labels, ws)
    ensures |r| == |ws|
    decreases |labels|
  {
    if labels == [] then ws
    else
      var n := |labels| - 1;
      Destroyed(DestroyAll(ws, labels[..n]), labels[n].handle)
  }

  /** Every label of the row is destroyed exactly once, and no other label is touched. */
  lemma {:induction false} DestroyAllOnce(ws: seq<Widget>, labels: seq<Entry>)
    requires Owned(labels, ws) && DistinctLabels(labels)
    ensures forall i :: 0 <= i < |labels| ==>
              DestroyAll(ws, labels)[labels[i].handle]
              == ws[labels[i].handle].(destroyed := ws[labels[i].handle].destroyed + 1)
    ensures forall h :: 0 <= h < |ws| && NotIn(h, labels) ==> DestroyAll(ws, labels)[h] == ws[h]
  {
    if labels != [] {
      var n := |labels| - 1;
      DestroyAllOnce(ws, labels[..n]);
    }
  }

  class LabelRow<K(==)> {
    var labels: seq<Entry>
    var prevLabel: Option<Handle>
    var prevKey: Option<K>
    var lastActive: Instant

    function View(): RowState<K>
      reads this
    {
      RowState(labels, prevLabel, prevKey, lastActive)
    }

    ghost predicate Valid()
      reads this
    {
      RowInv(View())
    }

    constructor (now: Instant)
      ensures View() == EmptyRow(now) && Valid()
    {
      labels := [];
      prevLabel := None;
      prevKey := None;
      lastActive := now;
    }

    /** A repeat of the trailing key within the hold threshold turns the trailing label blue. */
    method AddLabel(root: Root, handle: Handle, now: Instant, key: K)
      requires Valid() && Live(labels, root.widgets)
      modifies this, root
      ensures Valid()
      ensures View() == AddToRow(old(View()), handle, now, key)
      ensures root.widgets == if Coalesces(old(View()), key, now)
                              then Recoloured(old(root.widgets), old(prevLabel).value, Blue)
                              else old(root.widgets)
    {
      if prevKey.Some? && key == prevKey.value && now - lastActive < Millis(HOLD_MS_THRESHOLD) {
        root.Config(prevLabel.value, Blue);
      } else {
        var timeDiffMs := ElapsedMs(now - lastActive);
        var labelText := IntText(timeDiffMs) + "ms";
        labels := labels + [Entry(handle, now, labelText, timeDiffMs)];
        prevLabel := Some(handle);
        prevKey := Some(key);
      }
      lastActive := now;
    }

    method Destroy(root: Root)
      requires Owned(labels, root.widgets)
      modifies this, root
      ensures Valid()
      ensures View() == EmptyRow(old(lastActive))
      ensures root.widgets == DestroyAll(old(root.widgets), old(labels))
    {
      var ls := labels;
      for i := 0 to |ls|
        invariant unchanged(this)
        invariant root.widgets == DestroyAll(old(root.widgets), ls[..i])
      {
        assert ls[..i + 1][..i] == ls[..i];
        root.Destroy(ls[i].handle);
      }
      assert ls[..|ls|] == ls;
      labels := [];
      prevLabel := None;
      prevKey := None;
    }

    /** `wraparound` is accepted and ignored: the row never reflows. */
    method Reposition(root: Root, y: int, wraparound: int) returns (nextY: int)
      requires Live(labels, root.widgets)
      modifies root
      ensures nextY == y + ROW_HEIGHT_PX
      ensures root.widgets == PlaceRow(old(root.widgets), labels, y)
    {
      var xpos := 0;
      for i := 0 to |labels|
        invariant xpos == DISTANCE_BETWEEN_LABELS * i
        invariant root.widgets == PlaceRow(old(root.widgets), labels[..i], y)
      {
        assert labels[..i + 1][..i] == labels[..i];
        PlaceRowOnlyMoves(old(root.widgets), labels[..i], y);
        root.Place(labels[i].handle, xpos, y);
        xpos := xpos + DISTANCE_BETWEEN_LABELS;
      }
      assert labels[..|labels|] == labels;
      nextY := y + ROW_HEIGHT_PX;
    }
  }
}
