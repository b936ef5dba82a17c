/** Border edges and the five-edge Borders value. */
module Borders {
  import opened Wrappers
  import opened Colors

  datatype BorderType = Left | Right | Top | Bottom | Diagonal

  /** The edges in the order equality visits them. */
  const EdgeOrder: seq<BorderType> := [Left, Right, Top, Bottom, Diagonal]

  /** Border style codes 0 (None) to 13 (SlantDashDot). */
  const StyleNone: int := 0
  const StyleCount: int := 14

  predicate IsBorderStyle(code: int) {
    0 <= code < StyleCount
  }

  /** One edge; its colour is None until first read, when it materialises as a cleared colour. */
  datatype Border = Border(borderType: BorderType, style: int, color: Option<Color>)

  function EdgeColor(b: Border): (r: Color)
    ensures b.color.None? ==> !IsUsed(r)
  {
    if b.color.Some? then b.color.value else Cleared
  }

  /** SetBorderProperty for the style: an undefined code or null is ignored. */
  function SetBorderStyle(b: Border, code: Option<int>): (r: Border)
    ensures r.borderType == b.borderType && r.color == b.color
    ensures code.Some? && IsBorderStyle(code.value) ==> r.style == code.value
    ensures code.None? || !IsBorderStyle(code.value) ==> r == b
  {
    if code.Some? && IsBorderStyle(code.value) then b.(style := code.value) else b
  }

  /** SetBorderProperty for the colour: null is ignored. */
  function SetBorderColor(b: Border, c: Option<Color>): (r: Border)
    ensures r.borderType == b.borderType && r.style == b.style
    ensures c.Some? ==> r.color == c
    ensures c.None? ==> r == b
  {
    if c.Some? then b.(color := c) else b
  }

  /** The four-argument constructor: a None-style edge, then style and colour set in turn. */
  function NewBorder(t: BorderType, style: Option<int>, color: Option<Color>): Border
  {
    SetBorderColor(SetBorderStyle(Border(t, StyleNone, None), style), color)
  }

  /** Clone: the same type and style, the (materialised) colour shared. */
  function CloneBorder(b: Border): Border
  {
    NewBorder(b.borderType, Some(b.style), Some(EdgeColor(b)))
  }

  /** Edge equality: style and colour. */
  predicate BorderEqual(a: Border, b: Border)
  {
    b.style == a.style && ColorsEqual(EdgeColor(b), EdgeColor(a))
  }

  /** Clone keeps type, style and colour of an edge with a defined style. */
  lemma CloneBorderPreserves(b: Border)
    requires IsBorderStyle(b.style)
    ensures CloneBorder(b).borderType == b.borderType && CloneBorder(b).style == b.style
    ensures CloneBorder(b).color == Some(EdgeColor(b))
    ensures BorderEqual(CloneBorder(b), b)
  {
    ColorsEqualIsEquivalence(EdgeColor(b), EdgeColor(b), EdgeColor(b));
  }

  lemma BorderEqualIsEquivalence(a: Border, b: Border, c: Border)
    ensures BorderEqual(a, a)
    ensures BorderEqual(a, b) ==> BorderEqual(b, a)
    ensures BorderEqual(a, b) && BorderEqual(b, c) ==> BorderEqual(a, c)
  {
    ColorsEqualIsEquivalence(EdgeColor(a), EdgeColor(b), EdgeColor(c));
    ColorsEqualIsEquivalence(EdgeColor(c), EdgeColor(b), EdgeColor(a));
    ColorsEqualIsEquivalence(EdgeColor(b), EdgeColor(a), EdgeColor(c));
  }

  const DefaultBordersId: int := 0

  /** The five edge slots; an empty slot is None. */
  datatype Borders = Borders(bordersId: int, left: Option<Border>, right: Option<Border>, top: Option<Border>,
                             bottom: Option<Border>, diagonal: Option<Border>)

  function Slot(b: Borders, t: BorderType): Option<Border>
  {
    match t
    case Left => b.left
    case Right => b.right
    case Top => b.top
    case Bottom => b.bottom
    case Diagonal => b.diagonal
  }

  /** Every slot holds an edge, as in the tables' entries. */
  predicate Complete(b: Borders) {
    b.left.Some? && b.right.Some? && b.top.Some? && b.bottom.Some? && b.diagonal.Some?
  }

  /** SetBorder: stores the edge in the slot named by its type; null is ignored. */
  function SetBorder(b: Borders, e: Option<Border>): (r: Borders)
    ensures e.Some? ==> Slot(r, e.value.borderType) == e
    ensures forall t :: e.None? || t != e.value.borderType ==> Slot(r, t) == Slot(b, t)
    ensures r.bordersId == b.bordersId
  {
    if e.None? then b
    else match e.value.borderType
      case Left => b.(left := e)
      case Right => b.(right := e)
      case Top => b.(top := e)
      case Bottom => b.(bottom := e)
      case Diagonal => b.(diagonal := e)
  }

  /**
   * GetBorder on borders that belong to the tables: the edge in the slot, or
   * the "border not set" error when the slot is empty.
   */
  function GetBorder(b: Borders, t: BorderType): (r: Result<Border>)
    ensures r.Ok? <==> Slot(b, t).Some?
    ensures r.Ok? ==> r.value == Slot(b, t).value
  {
    if Slot(b, t).Some? then Ok(Slot(b, t).value) else Err(Failure("border not set"))
  }

  /**
   * GetBorder on a range's borders: an empty slot falls back to a copy of the
   * corresponding edge of the range's current table entry.
   */
  function GetRangeBorder(b: Borders, t: BorderType, current: Borders): (r: Result<Border>)
    ensures Slot(b, t).Some? ==> r == Ok(Slot(b, t).value)
    ensures Slot(b, t).None? && Slot(current, t).Some? ==> r == Ok(CloneBorder(Slot(current, t).value))
    ensures r.Err? <==> Slot(b, t).None? && Slot(current, t).None?
  {
    if Slot(b, t).Some? then Ok(Slot(b, t).value)
    else match GetBorder(current, t)
      case Ok(e) => Ok(CloneBorder(e))
      case Err(x) => Err(x)
  }

  /**
   * Equality visits the edges in order, reading the other side's edge first;
   * reading an empty slot raises the error, an unequal pair stops with false.
   */
  function EdgesEqual(a: Borders, b: Borders, order: seq<BorderType>): Result<bool>
  {
    if order == [] then Ok(true)
    else
      var t := order[0];
      match GetBorder(b, t)
      case Err(x) => Err(x)
      case Ok(eb) =>
        match GetBorder(a, t)
        case Err(x) => Err(x)
        case Ok(ea) => if !BorderEqual(ea, eb) then Ok(false) else EdgesEqual(a, b, order[1..])
  }

  function BordersEqual(a: Borders, b: Borders): Result<bool>
  {
    EdgesEqual(a, b, EdgeOrder)
  }

  /** The mathematical meaning of the comparison over complete borders: all visited edges pairwise equal. */
  lemma {:induction false} EdgesEqualMeaning(a: Borders, b: Borders, order: seq<BorderType>)
    requires Complete(a) && Complete(b)
    ensures EdgesEqual(a, b, order).Ok?
    ensures EdgesEqual(a, b, order).value <==>
      forall i :: 0 <= i < |order| ==> BorderEqual(Slot(a, order[i]).value, Slot(b, order[i]).value)
  {
    if order != [] {
      EdgesEqualMeaning(a, b, order[1..]);
      assert forall i :: 1 <= i < |order| ==> order[i] == order[1..][i - 1];
    }
  }

  /** Complete borders compare without error, and are equal exactly when all five edges are. */
  lemma BordersEqualMeaning(a: Borders, b: Borders)
    requires Complete(a) && Complete(b)
    ensures BordersEqual(a, b).Ok?
    ensures BordersEqual(a, b).value <==> forall t :: BorderEqual(Slot(a, t).value, Slot(b, t).value)
  {
    EdgesEqualMeaning(a, b, EdgeOrder);
    if BordersEqual(a, b).value {
      forall t ensures BorderEqual(Slot(a, t).value, Slot(b, t).value) {
        match t
        case Left => assert EdgeOrder[0] == t;
        case Right => assert EdgeOrder[1] == t;
        case Top => assert EdgeOrder[2] == t;
        case Bottom => assert EdgeOrder[3] == t;
        case Diagonal => assert EdgeOrder[4] == t;
      }
    }
  }

  /** Reading an empty slot of a table entry fails: comparison with incomplete borders raises the error. */
  lemma IncompleteBordersFailToCompare(a: Borders)
    requires a.left.None?
    ensures BordersEqual(a, a).Err?
  {
  }

  /** Borders equality over complete values is an equivalence that ignores the id. */
  lemma BordersEqualIsEquivalence(a: Borders, b: Borders, c: Borders)
    requires Complete(a) && Complete(b) && Complete(c)
    ensures BordersEqual(a, a) == Ok(true)
    ensures BordersEqual(a, b) == Ok(true) ==> BordersEqual(b, a) == Ok(true)
    ensures BordersEqual(a, b) == Ok(true) && BordersEqual(b, c) == Ok(true) ==> BordersEqual(a, c) == Ok(true)
    ensures BordersEqual(a, a.(bordersId := c.bordersId)) == Ok(true)
  {
    BordersEqualMeaning(a, a);
    BordersEqualMeaning(a, b);
    BordersEqualMeaning(b, a);
    BordersEqualMeaning(b, c);
    BordersEqualMeaning(a, c);
    BordersEqualMeaning(a, a.(bordersId := c.bordersId));
    forall t
      ensures BorderEqual(Slot(a, t).value, Slot(a, t).value)
      ensures BorderEqual(Slot(a, t).value, Slot(b, t).value) ==> BorderEqual(Slot(b, t).value, Slot(a, t).value)
      ensures BorderEqual(Slot(a, t).value, Slot(b, t).value) && BorderEqual(Slot(b, t).value, Slot(c, t).value) ==>
              BorderEqual(Slot(a, t).value, Slot(c, t).value)
    {
      BorderEqualIsEquivalence(Slot(a, t).value, Slot(b, t).value, Slot(c, t).value);
    }
  }

  /** The copy the borders table stores: each edge cloned through the getter, under the new id. */
  function CloneEdges(b: Borders, newId: int): (r: Borders)
    requires Complete(b)
    ensures r.bordersId == newId && Complete(r)
    ensures forall t :: Slot(r, t) == Some(CloneBorder(Slot(b, t).value))
  {
    Borders(newId, Some(CloneBorder(b.left.value)), Some(CloneBorder(b.right.value)), Some(CloneBorder(b.top.value)),
            Some(CloneBorder(b.bottom.value)), Some(CloneBorder(b.diagonal.value)))
  }

  /** A table copy is equal to the original when all its edges have defined styles. */
  lemma CloneEdgesIsEqual(b: Borders, newId: int)
    requires Complete(b) && forall t :: IsBorderStyle(Slot(b, t).value.style)
    ensures BordersEqual(CloneEdges(b, newId), b) == Ok(true)
  {
    var r := CloneEdges(b, newId);
    BordersEqualMeaning(r, b);
    forall t ensures BorderEqual(Slot(r, t).value, Slot(b, t).value) {
      CloneBorderPreserves(Slot(b, t).value);
    }
  }
}
