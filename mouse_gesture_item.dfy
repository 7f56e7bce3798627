/** The five direction symbols of a gesture and their one-character forms. */
module MouseGestureItems {

  datatype MouseGestureItem = Up | Down | Left | Right | Unrecognized

  /** The characters a recognized direction is written with. */
  predicate IsDirectionSymbol(c: char)
  {
    c == 'U' || c == 'D' || c == 'L' || c == 'R'
  }

  /** The character of an item: U, D, L, R, and '?' for Unrecognized. The symbol
      alphabet is "UDLR?" and only Unrecognized is written '?'. */
  function GetSymbol(item: MouseGestureItem): (c: char)
    ensures IsDirectionSymbol(c) || c == '?'
    ensures c == 'U' <==> item == Up
    ensures c == 'D' <==> item == Down
    ensures c == 'L' <==> item == Left
    ensures c == 'R' <==> item == Right
    ensures c == '?' <==> item == Unrecognized
  {
    match item
    case Up => 'U'
    case Down => 'D'
    case Left => 'L'
    case Right => 'R'
    case Unrecognized => '?'
  }

  /** The item a character stands for; every character other than U, D, L and R
      (including '?') is Unrecognized. */
  function ToMouseGestureItem(c: char): (item: MouseGestureItem)
    ensures item == Up <==> c == 'U'
    ensures item == Down <==> c == 'D'
    ensures item == Left <==> c == 'L'
    ensures item == Right <==> c == 'R'
    ensures item == Unrecognized <==> !IsDirectionSymbol(c)
  {
    match c
    case 'U' => Up
    case 'D' => Down
    case 'L' => Left
    case 'R' => Right
    case _ => Unrecognized
  }

  /** Every character of the string mapped on its own, in order. */
  function ToMouseGestureItems(s: string): (items: seq<MouseGestureItem>)
    ensures |items| == |s|
    ensures forall k :: 0 <= k < |s| ==> items[k] == ToMouseGestureItem(s[k])
  {
    if s == [] then [] else [ToMouseGestureItem(s[0])] + ToMouseGestureItems(s[1..])
  }

  /** Parsing the symbol of any item gives that item back. */
  lemma SymbolRoundTrip(item: MouseGestureItem)
    ensures ToMouseGestureItem(GetSymbol(item)) == item
  {
  }

  /** Writing back the item parsed from c gives c exactly for the five symbol
      characters "UDLR?"; every other character comes back as '?'. */
  lemma CharRoundTrip(c: char)
    ensures GetSymbol(ToMouseGestureItem(c)) == c <==> IsDirectionSymbol(c) || c == '?'
    ensures !IsDirectionSymbol(c) ==> GetSymbol(ToMouseGestureItem(c)) == '?'
  {
  }

  /** Distinct items have distinct symbols. */
  lemma GetSymbolInjective(a: MouseGestureItem, b: MouseGestureItem)
    ensures GetSymbol(a) == GetSymbol(b) ==> a == b
  {
    SymbolRoundTrip(a);
    SymbolRoundTrip(b);
  }
}
