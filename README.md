# Key overlay label grid, modelled in Dafny

The key overlay (`overlay.py`) shows each key press and release as a small
icon label on a Tk window. It also shows the gap in milliseconds since the
previous event. Its core is a time-bucketing engine made of two classes:

- `LabelRow` holds a run of labels laid out left to right, 45 px apart. A
  key repeated within 75 ms of the row's last event is a hold: the trailing
  label turns blue and nothing is appended.
- `LabelGrid` holds the rows and the time of the last event. It opens a new
  row after a pause of more than 1380 ms, or when the last row already holds
  `410 // 45 = 9` labels. `reposition` destroys every row idle for more than
  2250 ms and stacks the survivors 60 px apart from the top.

The project models both classes as Dafny classes with the same fields.
Each method is proved against a specification function:

| file | contents |
|---|---|
| `settings.dfy` | the constants, time as integer microseconds, the three threshold tests, whole-millisecond truncation |
| `text.dfy` | `f"{n}"` as decimal text, and the parse that reads it back |
| `tk.dfy` | the Tk root: labels as handles into the list of every label created, with `place`, `config` and `destroy` |
| `rows.dfy` | the row's value `RowState`, `AddToRow`, `PlaceRow`, `DestroyAll`, their lemmas, and the class `LabelRow` |
| `grid.dfy` | the grid's value `GridState`, `Ingest`, `IngestWidgets`, `Sweep`, `DestroyRows`, `PlaceGrid`, `RepositionWidgets`, their lemmas, and the class `LabelGrid` |
| `scenarios.dfy` | short event sequences worked through the functions |

`add_label` and `add_label_release` differ only in the foreground colour of
the new label. Both are modelled as `LabelGrid.AddLabel`, with an `Edge`
parameter that picks the colour.

The grid's `last_active` starts as the integer `0`, which Python treats as
false. It is modelled as `Option<Instant>` starting at `None`. A Tk label is
a `Handle`, its index in `Root.widgets`. Each `Widget` records its text,
colours, last placement and how many times `destroy` was called on it, so
"destroyed exactly once" and "never moved" can be stated.

Three facts follow from the code rather than from its comments:

- An ingest adds at most one row, never two. A row opened because of a long
  pause is empty, so the capacity check cannot fire on it as well. `Ingest`
  states the exact condition, `OpensRow`.
- A label created for a coalesced repeat is never placed and never
  destroyed. `IngestWidgets` creates it whichever branch the row takes, and
  no row refers to it (overlay.py:58-60, 134-138).
- The displayed gap on the icon is measured against the grid's last event.
  The gap kept in the row's entry, stored as the text `"<n>ms"` but never
  displayed, is measured against the row's last event.

## Model

| member | source | states |
|---|---|---|
| Settings.MaxLabels | overlay.py:128 | the row capacity is 9: nine labels at the 45 px pitch fit in 410 px and ten do not (the icon size cancels out) |
| Settings.ElapsedMs | overlay.py:62 | `int(delta.total_seconds() * 1000)` truncates toward zero: for a non-negative gap the whole milliseconds not exceeding it, and symmetrically for a negative one |
| Text.IntTextRoundTrip | overlay.py:137 | the decimal text of any integer parses back to that integer, so the shown gap determines the gap |
| Text.NatTextValue | overlay.py:63 | the digits of a natural number have that number as their value |
| Rows.NewEntry | overlay.py:62-64 | the entry records the label and `now`, and its gap is the whole ms between the row's last event and `now`, truncated toward zero on either sign |
| Rows.AddToRow | overlay.py:58-67 | on a hold (trailing key set, same key, gap under 75 ms) the labels and the trailing key and label are unchanged; otherwise exactly one entry is appended, carrying the new label, `now` and the whole-ms gap since the row's last event, and it becomes the trailing label and key; `last_active` is `now` in both branches; the row invariant is kept |
| Rows.EntryTextReadsAsGap | overlay.py:62-64 | an appended entry's stored text is its gap followed by `ms`, and the part before `ms` reads back as the gap |
| Rows.FirstAddAppends | overlay.py:39-67 | the first label added to a row created at the same instant is appended with gap 0 and text `0ms` |
| Rows.HoldRunCoalesces | overlay.py:58-67 | a run of repeats of the trailing key, each under 75 ms after the previous event, appends nothing and keeps the trailing key and label; the row's time is the last repeat's |
| Rows.HeldKeyShowsOneLabel | overlay.py:58-66 | pressing a key into a fresh row and holding it leaves exactly one label in the row, however many repeats follow |
| Rows.PlaceRowOnlyMoves | overlay.py:90-92 | laying a row out changes only label positions |
| Rows.PlaceRowAt | overlay.py:88-99 | label i of the row is placed at (45 * i, y); labels outside the row do not move |
| Rows.PlaceRow | overlay.py:88-92 | the layout fold of `reposition` over the row's labels, one `place` per label; the root keeps its number of labels (where each label goes is `PlaceRowAt`) |
| Rows.DestroyAllOnce | overlay.py:69-72 | each label of the row is destroyed exactly once and no other label is touched |
| Rows.DestroyAll | overlay.py:71-72 | the destroy fold over the row's labels, one `destroy` per label; the root keeps its number of labels (each label destroyed once is `DestroyAllOnce`) |
| Rows.LabelRow.constructor | overlay.py:32-42 | a new row has no labels, no trailing key or label, and `last_active = now` |
| Rows.LabelRow.AddLabel | overlay.py:44-67 | the row's new fields are `AddToRow` of the old ones; on a hold the trailing label is recoloured blue and no other label changes, otherwise the root is untouched |
| Rows.LabelRow.Destroy | overlay.py:69-75 | every label in `labels` is destroyed in order, then the row is empty with no trailing key or label, so a second call destroys nothing |
| Rows.LabelRow.Reposition | overlay.py:76-99 | the labels are placed as `PlaceRow` says, `wraparound` is ignored, and the result is `y + 60` |
| Grid.TargetRows | overlay.py:124-131 | a row is appended exactly when there is none, the pause exceeds 1380 ms, or the last row holds 9 labels; the earlier rows are kept and the new row is empty |
| Grid.OpensRow | overlay.py:124-131 | a grid with no rows always opens one; when no row is opened under the grid invariant, the last row has room for another label and the pause is at most 1380 ms |
| Grid.Ingest | overlay.py:115-139 | the grid's time becomes `now`; a row is added exactly when `OpensRow`, and then it holds only the new label with gap 0; otherwise the last row is `AddToRow` of itself; earlier rows never change |
| Grid.IngestNewRow | overlay.py:124-139 | a row opened by an ingest is a fresh row given that one event: it holds the new label, and its trailing key and label and its time are the event's |
| Grid.IngestKeepsInv | overlay.py:124-139 | an ingest keeps the grid invariant: every row keeps its own invariant and at most 9 labels, no label is in two places, and the grid has a time once it has a row |
| Grid.IngestKeepsRowInv | overlay.py:124-139 | after an ingest every row keeps its own invariant and holds at most 9 labels |
| Grid.IngestKeepsDistinct | overlay.py:124-139 | after an ingest of a handle no row held, no label handle is in two places |
| Grid.LabelWidget | overlay.py:133-137 | the new label has no text and default colours for the grid's first event; afterwards it is black with yellow text on a press and red text on a release |
| Grid.LabelWidgetText | overlay.py:136-137 | after the first event the new label's text reads as the whole ms since the grid's (not the row's) last event |
| Grid.IngestWidgets | overlay.py:133-138 | an ingest creates exactly one label, and the only existing label it may change is the last row's trailing label, turned blue |
| Grid.IngestInSteps | overlay.py:124-139 | targeting the row, creating the label, then handing it to the row gives `Ingest` and `IngestWidgets`, keeps the invariant, and keeps every row's labels alive |
| Grid.TargetRowLive | overlay.py:124-131 | the targeted row keeps its invariant and its labels are alive |
| Grid.GridLiveAfterIngest | overlay.py:133-139 | after an ingest no row holds a destroyed label |
| Grid.KeptIndicesSound | overlay.py:175-180 | every kept position names a row idle for at most 2250 ms |
| Grid.KeptIndicesIncreasing | overlay.py:175-180 | the kept positions increase, so the rows keep their relative order |
| Grid.KeptIndicesComplete | overlay.py:175-180 | every row idle for at most 2250 ms is kept |
| Grid.KeptIndicesSpec | overlay.py:175-181 | the kept rows are exactly the rows not cleared, in their original order |
| Grid.KeptIndices | overlay.py:175-180 | the positions of the rows the `kept_rows` loop keeps: at most one per row, each a valid row position |
| Grid.Kept | overlay.py:175-180 | the rows the sweep keeps: no more than there were, and none of them idle for longer than 2250 ms |
| Grid.Sweep | overlay.py:175-181 | the grid after the sweep keeps its time, has no more rows than before, and none of them idle for longer than 2250 ms |
| Grid.SweepKeepsInv | overlay.py:175-181 | after the sweep every row satisfies `now - last_active <= 2250 ms`, and the grid invariant holds |
| Grid.NoneClearedKeepsAll | overlay.py:175-181 | when no row is due, the sweep keeps every row |
| Grid.SweepIdempotent | overlay.py:175-181 | sweeping twice at the same instant is sweeping once |
| Grid.DestroyRowsOnce | overlay.py:176-178 | every label of a cleared row is destroyed exactly once; labels of kept rows, and all others, are untouched |
| Grid.NoneClearedDestroysNothing | overlay.py:176-178 | when no row is due, the sweep destroys nothing |
| Grid.DestroyRows | overlay.py:176-178 | the destroy pass over every cleared row, in order; the root keeps its number of labels (which labels are destroyed is `DestroyRowsOnce`) |
| Grid.PlaceGridOnlyMoves | overlay.py:182-184 | re-stacking changes only label positions |
| Grid.PlaceGridAt | overlay.py:182-184 | label i of kept row k is placed at (45 * i, 60 * k); labels outside the rows do not move |
| Grid.PlaceGridIdempotent | overlay.py:182-184 | laying the same rows out twice gives the same placements as once |
| Grid.PlaceGrid | overlay.py:182-184 | the re-stacking fold, row k laid out at y = 60 * k; the root keeps its number of labels (where each label goes is `PlaceGridAt`) |
| Grid.PlaceGridKeepsLive | overlay.py:182-184 | laying the rows out destroys none of their labels |
| Grid.RepositionTwiceIsStable | overlay.py:167-184 | a second `reposition` at the same instant keeps the same rows and leaves every label as the first call left it |
| Grid.RepositionWidgets | overlay.py:167-184 | the root after `reposition`: the destroy pass, then re-stacking the kept rows; it keeps the number of labels |
| Grid.KeptLive | overlay.py:175-181 | the kept rows hold no destroyed label |
| Grid.KeptRowViews | overlay.py:175-181 | the row objects a sweep keeps are distinct and hold, in order, the values `Kept` selects |
| Grid.LabelGrid.constructor | overlay.py:109-113 | a new grid has no rows and no time |
| Grid.LabelGrid.TargetRow | overlay.py:124-131 | the row objects after the two creation checks have the values `TargetRows` gives; new rows are fresh objects and the returned row is the last |
| Grid.LabelGrid.OpenRow | overlay.py:126-130 | one fresh row, empty and stamped `now`, is appended; nothing else changes |
| Grid.LabelGrid.CreateLabel | overlay.py:133-137 | one label is created, with `LabelWidget`'s text and colours |
| Grid.LabelGrid.AttachLabel | overlay.py:138 | only the last row changes, to `AddToRow` of its old value; on a hold its trailing label turns blue |
| Grid.LabelGrid.Deliver | overlay.py:138-139 | after the new label is handed to the row and the grid's time is stamped, the grid is `Ingest` of its old value and the root is `IngestWidgets` of its old labels |
| Grid.LabelGrid.AddLabel | overlay.py:115-165 | `add_label` and `add_label_release`: the grid's new value is `Ingest` of the old one, the root's labels are `IngestWidgets` of the old ones, the invariant holds and no row holds a destroyed label; existing row objects stay in place |
| Grid.LabelGrid.DestroyIdle | overlay.py:175-180 | the sweep loop destroys the labels of exactly the cleared rows and collects the other row objects in order, unchanged |
| Grid.LabelGrid.ClearIdleRows | overlay.py:175-181 | the rows become the objects at the kept positions, with the values `Sweep` gives; the root's labels are `DestroyRows` of the old ones |
| Grid.LabelGrid.Restack | overlay.py:182-184 | the rows are laid out as `PlaceGrid` says, each 60 px below the previous one, starting at y = 0 |
| Grid.LabelGrid.Reposition | overlay.py:167-184 | the grid becomes `Sweep` of its old value and the root `RepositionWidgets` of the old labels: cleared rows destroyed, the rest kept in order and re-stacked |
| Tk.Root.NewLabel | overlay.py:134-137 | `tk.Label` adds one unplaced, live label with the given image, text and colours |
| Tk.Root.Config | overlay.py:59 | `config(fg=...)` changes only the trailing label's colour |
| Tk.Root.Destroy | overlay.py:72 | `destroy` counts one more destruction of that label only |
| Tk.Root.Place | overlay.py:91 | `place(x, y)` sets only that label's position |
| Scenarios.TwoPressesThenSweep | overlay.py:115-184 | presses of A at 0 ms and B at 50 ms make one row of two labels, the second storing a 50 ms gap and showing "50"; a sweep at 3000 ms leaves no row |
| Scenarios.TwoPressesSweepDestroysBoth | overlay.py:175-178 | in that run the sweep at 3000 ms destroys both labels of the row, each exactly once |
| Scenarios.FirstPress | overlay.py:124-139 | the grid's first event opens a row holding only its label, with gap 0 and text "0ms" |
| Scenarios.SecondPress | overlay.py:115-139 | a different key 50 ms later joins the same row and records a 50 ms gap |
| Scenarios.QuickRepeatCoalesces | overlay.py:58-67 | A at 0 ms and again at 30 ms leave one row with one label, last active at 30 ms |
| Scenarios.QuickRepeatRecolours | overlay.py:58-59 | in that run the first label turns blue, and a second label is created but is never part of a row |
| Scenarios.FullRowOpensRow | overlay.py:128-131 | an event soon after a row fills up still opens a new row, whose first label has gap 0 |

## Left out

- Tk widget details are not modelled: fonts, `borderwidth`, `compound`, the window, `mainloop`, and the hex colour strings (kept only as the names of the five colours used).
- The `pynput` listener and the `on_press`/`on_release` callbacks are OS hooks on another thread. Press hands over the key object and release hands over `kid`, so the key is modelled as an opaque token of a type with equality.
- A key token is assumed to be truthy. Python's `if self.prev_key` is modelled as "a trailing key is set". All tokens the hooks hand over are pynput key objects, non-zero codes or non-empty names.
- The icon assets (`find_origin`, `crop_key`, `key_tkimage` and their arrow variants) are foreign-library image work. An icon is an opaque integer.
- The static `keys` table and `keyid` are configuration data and pynput inspection.
- `suppress_alt` and `suppress_ctrl_c` are trivial Tk event handlers.
- Settings.ElapsedMs: does not model the floating-point rounding of `total_seconds() * 1000`. Time is whole microseconds, which `timedelta` stores exactly, and the product is truncated exactly.
- Time is a parameter of each call. The wall clock that `datetime.now()` reads is not modelled.
- `wraparound` is accepted and ignored, as in the source, where the wrapping code is commented out.
- Rows.LabelRow.AddLabel, Rows.LabelRow.Reposition and Grid.LabelGrid.Restack require the placed or recoloured labels to be alive. Tk raises an error on a destroyed widget, and the grid's invariant keeps every label in a row alive.
