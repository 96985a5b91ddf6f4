// Mouse events as callers submit them, and what a history of them asks for.
module MouseInput {
  datatype Input =
    | RelativeMotion(x: int, y: int)
    | AbsoluteMotion(x: int, y: int, width: int, height: int, fractional: bool, absoluteX: real, absoluteY: real)
    | ButtonChange(button: int, pressed: bool)
    | VerticalScroll(distance: int)
    | HorizontalScroll(distance: int)

  /** What the caller asked for so far. */
  datatype Asked = Asked(x: int, y: int, vertical: int, horizontal: int)

  function AskedFor(inputs: seq<Input>): Asked {
    if inputs == [] then Asked(0, 0, 0, 0)
    else
      AddAsked(AskedFor(inputs[..|inputs| - 1]), inputs[|inputs| - 1])
  }

  function AddAsked(a: Asked, i: Input): Asked {
    match i
    case RelativeMotion(x, y) => a.(x := a.x + x, y := a.y + y)
    case VerticalScroll(d) => a.(vertical := a.vertical + d)
    case HorizontalScroll(d) => a.(horizontal := a.horizontal + d)
    case _ => a
  }
}
