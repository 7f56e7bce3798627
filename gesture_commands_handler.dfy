/** GestureCommandsHandler: recognizes a point trace and dispatches it to the
    registry. The two events it raises are modelled as the value Handle returns;
    the other operations recognize a trace (where they take one) and delegate to
    the registry with this layer's own defaults. */
module GestureCommandsHandlers {
  import opened Common
  import opened MouseGestureItems
  import opened MouseGestures
  import opened Recognition
  import opened GestureCommands
  import opened GestureCommandsRepositories

  /** The event Handle raises: GestureCommandInvoked with the matched command's id
      and the gesture string, or MouseGestureNotRecognized with the gesture string. */
  datatype Dispatch =
    | GestureCommandInvoked(commandId: string, gestureString: string)
    | MouseGestureNotRecognized(gestureString: string)

  /** The string of the gesture recognized from a trace (Unrecognized segments
      dropped, the default): only the letters U, D, L and R. */
  function RecognizedString(points: seq<Point2D>): (s: string)
    requires |points| >= 2
    ensures |s| == |RecognizedItems(points, true)|
    ensures forall k :: 0 <= k < |s| ==> IsDirectionSymbol(s[k])
    ensures ToMouseGestureItems(s) == RecognizedItems(points, true)
  {
    var items := RecognizedItems(points, true);
    RecognizedShape(points, true);
    RenderThenParse(items);
    assert forall k :: 0 <= k < |items| ==> items[k] != Unrecognized;
    Render(items)
  }

  /** A recognized string is blank exactly when no direction was recognized, so a
      trace that yields the empty gesture is refused by the registry's blank check. */
  lemma RecognizedBlankIffEmpty(points: seq<Point2D>)
    requires |points| >= 2
    ensures IsNullOrWhiteSpace(RecognizedString(points)) <==> RecognizedItems(points, true) == []
  {
    var s := RecognizedString(points);
    if s != [] {
      assert IsDirectionSymbol(s[0]) && !IsWhiteSpace(s[0]);
    }
  }

  class GestureCommandsHandler {
    const repository: GestureCommandsRepository

    constructor (repository: GestureCommandsRepository)
      ensures this.repository == repository
    {
      this.repository := repository;
    }

    /** Handle: a trace of fewer than 2 points makes recognition throw, and no event
        is raised; otherwise exactly one event, GestureCommandInvoked with the id of
        the first entry holding the recognized string when there is one, and
        MouseGestureNotRecognized otherwise, both carrying that string. */
    method Handle(points: seq<Point2D>) returns (r: Result<Dispatch>)
      ensures r.Failure? <==> |points| < 2
      ensures r.Failure? ==> r.error == Argument(TooFewPoints)
      ensures r.Success? ==> r.value.gestureString == RecognizedString(points)
      ensures r.Success? ==>
        (r.value.GestureCommandInvoked? <==>
           exists k :: 0 <= k < |repository.commands| &&
                       HasGestureString(repository.commands[k].gestures.items, r.value.gestureString))
      ensures r.Success? && r.value.GestureCommandInvoked? ==>
        exists k :: 0 <= k < |repository.commands| &&
                    HasGestureString(repository.commands[k].gestures.items, r.value.gestureString) &&
                    (forall j :: 0 <= j < k ==> !HasGestureString(repository.commands[j].gestures.items, r.value.gestureString)) &&
                    r.value.commandId == repository.commands[k].CommandId()
    {
      var gesture := Recognize(points);
      if gesture.Failure? {
        return Failure(gesture.error);
      }
      var gestureString := gesture.value.GestureString();
      assert gestureString == RecognizedString(points);
      var command := repository.GetCommandByGesture(gesture.value);
      if command != null {
        return Success(GestureCommandInvoked(command.CommandId(), gestureString));
      }
      return Success(MouseGestureNotRecognized(gestureString));
    }

    /** AddGestureCommand(string, List<Point2D>): Add(string, string) with the
        recognized string. */
    method AddGestureCommand(commandId: string, points: seq<Point2D>) returns (r: Outcome)
      modifies repository
      ensures |points| < 2 ==> r == Fail(Argument(TooFewPoints)) && repository.commands == old(repository.commands)
      ensures |points| >= 2 ==> repository.NamedAdded(commandId, RecognizedString(points), r)
    {
      var gesture := Recognize(points);
      if gesture.Failure? {
        return Fail(gesture.error);
      }
      r := repository.AddNamed(commandId, gesture.value.GestureString());
    }

    /** AddGestureCommand(string, string): Add(string, string) as it is. */
    method AddGestureCommandString(commandId: string, gestureString: string) returns (r: Outcome)
      modifies repository
      ensures repository.NamedAdded(commandId, gestureString, r)
    {
      r := repository.AddNamed(commandId, gestureString);
    }

    /** UpdateGestureCommand: Update by the recognized gesture, where overwrite and
        force both default to true. The string is taken from RecognizedString, the
        value Recognize is proved to produce, so no gesture object is allocated
        between the call and the registry's update. */
    method UpdateGestureCommand(commandId: string, points: seq<Point2D>, overwrite: bool := true, force: bool := true)
      returns (r: Outcome)
      modifies repository.EntrySet(), repository.ListSet()
      ensures |points| < 2 ==> r == Fail(Argument(TooFewPoints))
      ensures |points| < 2 ==> forall gc :: gc in repository.commands ==>
        gc.gestures == old(gc.gestures) && gc.gestures.items == old(gc.gestures.items)
      ensures |points| >= 2 ==> repository.GestureCommandUpdated(commandId, RecognizedString(points), overwrite, force, r)
      ensures |points| >= 2 ==>
        repository.PreviousListKept(commandId, RecognizedString(points), overwrite, r, old(repository.ListOf(commandId)))
    {
      if |points| < 2 {
        return Fail(Argument(TooFewPoints));
      }
      r := repository.Update(commandId, RecognizedString(points), overwrite, force);
    }

    /** RemoveGestureCommand: Remove as it is. */
    method RemoveGestureCommand(commandId: string) returns (r: Outcome)
      modifies repository
      ensures repository.EntryRemoved(commandId, r)
    {
      r := repository.Remove(commandId);
    }

    /** AddGestureToCommand: the registry's AddGestureToCommand with the recognized
        string, where force defaults to true. */
    method AddGestureToCommand(commandId: string, points: seq<Point2D>, force: bool := true) returns (r: Outcome)
      modifies repository.ListSet()
      ensures |points| < 2 ==> r == Fail(Argument(TooFewPoints))
      ensures |points| < 2 ==> forall gc :: gc in repository.commands ==> gc.gestures.items == old(gc.gestures.items)
      ensures |points| >= 2 ==> repository.GestureAddedToCommand(commandId, RecognizedString(points), force, r)
    {
      var gesture := Recognize(points);
      if gesture.Failure? {
        return Fail(gesture.error);
      }
      r := repository.AddGestureToCommand(commandId, gesture.value.GestureString(), force);
    }

    /** RemoveGestureFromCommand: the registry's RemoveGestureFromCommand with the
        recognized string. */
    method RemoveGestureFromCommand(commandId: string, points: seq<Point2D>) returns (r: Outcome)
      modifies repository.ListSet()
      ensures |points| < 2 ==> r == Fail(Argument(TooFewPoints))
      ensures |points| < 2 ==> forall gc :: gc in repository.commands ==> gc.gestures.items == old(gc.gestures.items)
      ensures |points| >= 2 ==> repository.GestureRemovedFromCommand(commandId, RecognizedString(points), r)
    {
      var gesture := Recognize(points);
      if gesture.Failure? {
        return Fail(gesture.error);
      }
      r := repository.RemoveGestureFromCommand(commandId, gesture.value.GestureString());
    }

    /** GetGesturesInfo: the registry's, as it is. */
    method GetGesturesInfo() returns (r: Result<map<string, string>>)
      ensures r == GesturesInfo(repository.View())
    {
      r := repository.GetGesturesInfo();
    }
  }
}
