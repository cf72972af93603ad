/**
 * The Tk side of the overlay, reduced to what the label grid uses: a root
 * window that creates labels, places them at pixel coordinates, recolours
 * them and destroys them. A label is named by an integer handle, its index
 * in the root's list of every label ever created.
 */
module Tk {
  import opened Wrappers

  /** An image handle (a `PhotoImage` prepared at start-up); never inspected. */
  type Icon = int

  /** A label widget, as the index of its creation. */
  type Handle = nat

  /** The colours the overlay uses; `Default` is the toolkit's own. */
  datatype Colour = Default | Black | Yellow | Red | Blue

  datatype Pos = Pos(x: int, y: int)

  /**
   * One created label: its image, text and colours, where it was last placed
   * (`None` while never placed) and how many times `destroy` was called on it.
   */
  datatype Widget = Widget(icon: Icon, text: string, fg: Colour, bg: Colour, pos: Option<Pos>, destroyed: nat)

  /** `label.place(x=x, y=y)` */
  function Placed(ws: seq<Widget>, h: Handle, x: int, y: int): seq<Widget>
    requires h < |ws|
  {
    ws[h := ws[h].(pos := Some(Pos(x, y)))]
  }

  /** `label.config(fg=fg)` */
  function Recoloured(ws: seq<Widget>, h: Handle, fg: Colour): seq<Widget>
    requires h < |ws|
  {
    ws[h := ws[h].(fg := fg)]
  }

  /** `label.destroy()` */
  function Destroyed(ws: seq<Widget>, h: Handle): seq<Widget>
    requires h < |ws|
  {
    ws[h := ws[h].(destroyed := ws[h].destroyed + 1)]
  }

  /** The root window, owner of every label. */
  class Root {
    var widgets: seq<Widget>

    constructor ()
      ensures widgets == []
    {
      widgets := [];
    }

    /** `tk.Label(root, image=icon, text=text, fg=fg, bg=bg)`: a new, unplaced label. */
    method NewLabel(icon: Icon, text: string, fg: Colour, bg: Colour) returns (h: Handle)
      modifies this
      ensures h == |old(widgets)|
      ensures widgets == old(widgets) + [Widget(icon, text, fg, bg, None, 0)]
    {
      h := |widgets|;
      widgets := widgets + [Widget(icon, text, fg, bg, None, 0)];
    }

    /** Placing a destroyed label is a Tcl error, so the label must be alive. */
    method Place(h: Handle, x: int, y: int)
      requires h < |widgets| && widgets[h].destroyed == 0
      modifies this
      ensures widgets == Placed(old(widgets), h, x, y)
    {
      widgets := Placed(widgets, h, x, y);
    }

    /** Configuring a destroyed label is a Tcl error, so the label must be alive. */
    method Config(h: Handle, fg: Colour)
      requires h < |widgets| && widgets[h].destroyed == 0
      modifies this
      ensures widgets == Recoloured(old(widgets), h, fg)
    {
      widgets := Recoloured(widgets, h, fg);
    }

    method Destroy(h: Handle)
      requires h < |widgets|
      modifies this
      ensures widgets == Destroyed(old(widgets), h)
    {
      widgets := Destroyed(widgets, h);
    }
  }
}
