/** A gesture: a list of direction items and its string form. */
module MouseGestures {
  import opened MouseGestureItems

  /** string.Join("", items.Select(GetSymbol)): one symbol per item, in order. */
  function Render(items: seq<MouseGestureItem>): (s: string)
    ensures |s| == |items|
    ensures forall k :: 0 <= k < |items| ==> s[k] == GetSymbol(items[k])
  {
    if items == [] then [] else [GetSymbol(items[0])] + Render(items[1..])
  }

  /** A gesture is an object: the class defines no equality, so List.Contains and
      List.Remove compare MouseGesture references, never the strings. */
  class MouseGesture {
    const gestureItems: seq<MouseGestureItem>

    /** MouseGesture(List<MouseGestureItem>). */
    constructor FromItems(items: seq<MouseGestureItem>)
      ensures gestureItems == items
    {
      gestureItems := items;
    }

    /** MouseGesture(string): every character parsed on its own. */
    constructor FromString(gestureString: string)
      ensures gestureItems == ToMouseGestureItems(gestureString)
    {
      gestureItems := ToMouseGestureItems(gestureString);
    }

    /** The GestureString property: as long as the item list, character k being
        the symbol of item k. */
    function GestureString(): (s: string)
      ensures |s| == |gestureItems|
      ensures forall k :: 0 <= k < |gestureItems| ==> s[k] == GetSymbol(gestureItems[k])
    {
      Render(gestureItems)
    }

    /** ToString is the gesture string; the empty gesture prints as "". */
    function ToString(): (s: string)
      ensures s == GestureString()
      ensures gestureItems == [] ==> s == ""
    {
      GestureString()
    }
  }

  /** The string form of the gesture parsed from s keeps every U, D, L and R
      and turns any other character into '?'. */
  lemma {:induction false} ParseThenRender(s: string)
    ensures |Render(ToMouseGestureItems(s))| == |s|
    ensures forall k :: 0 <= k < |s| ==>
      Render(ToMouseGestureItems(s))[k] == (if IsDirectionSymbol(s[k]) then s[k] else '?')
  {
    forall k | 0 <= k < |s|
      ensures Render(ToMouseGestureItems(s))[k] == (if IsDirectionSymbol(s[k]) then s[k] else '?')
    {
      CharRoundTrip(s[k]);
    }
  }

  /** s is written in the symbol alphabet "UDLR?". */
  predicate IsSymbolString(s: string)
  {
    forall k :: 0 <= k < |s| ==> IsDirectionSymbol(s[k]) || s[k] == '?'
  }

  /** new MouseGesture(s).GestureString == s exactly when s is written in the
      symbol alphabet "UDLR?"; in particular for every string of U, D, L, R. */
  lemma ParseThenRenderIdentity(s: string)
    ensures Render(ToMouseGestureItems(s)) == s <==> IsSymbolString(s)
    ensures (forall k :: 0 <= k < |s| ==> IsDirectionSymbol(s[k])) ==> Render(ToMouseGestureItems(s)) == s
  {
    ParseThenRender(s);
    if Render(ToMouseGestureItems(s)) == s {
      forall k | 0 <= k < |s| ensures IsDirectionSymbol(s[k]) || s[k] == '?' {
        assert Render(ToMouseGestureItems(s))[k] == s[k];
      }
    }
  }

  /** Parsing the string of a gesture built from an item list gives that list back. */
  lemma RenderThenParse(items: seq<MouseGestureItem>)
    ensures ToMouseGestureItems(Render(items)) == items
  {
    var r := ToMouseGestureItems(Render(items));
    forall k | 0 <= k < |items| ensures r[k] == items[k] {
      SymbolRoundTrip(items[k]);
    }
  }

  /** Two item lists with the same string are the same list. */
  lemma RenderInjective(a: seq<MouseGestureItem>, b: seq<MouseGestureItem>)
    ensures Render(a) == Render(b) ==> a == b
  {
    RenderThenParse(a);
    RenderThenParse(b);
  }
}
