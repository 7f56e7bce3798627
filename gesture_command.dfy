/** GestureCommand: a command together with the list of gestures bound to it. */
module GestureCommands {
  import opened Common
  import opened MouseGestureItems
  import opened MouseGestures
  import opened Commands

  /** List<MouseGesture>: a list object of its own, so that two holders of the same
      list see each other's in-place changes. */
  class GestureList {
    var items: seq<MouseGesture>

    constructor (items: seq<MouseGesture>)
      ensures this.items == items
    {
      this.items := items;
    }
  }

  /** The gesture strings of a list of gestures, in order. */
  function GestureStrings(gestures: seq<MouseGesture>): (ss: seq<string>)
    ensures |ss| == |gestures|
    ensures forall k :: 0 <= k < |gestures| ==> ss[k] == gestures[k].GestureString()
  {
    if gestures == [] then [] else [gestures[0].GestureString()] + GestureStrings(gestures[1..])
  }

  /** Appending a gesture appends its string. */
  lemma GestureStringsAppend(gestures: seq<MouseGesture>, gesture: MouseGesture)
    ensures GestureStrings(gestures + [gesture]) == GestureStrings(gestures) + [gesture.GestureString()]
  {
  }

  /** Some gesture of the list has exactly this string (Any over GestureString). */
  predicate HasGestureString(gestures: seq<MouseGesture>, gestureString: string)
  {
    exists k :: 0 <= k < |gestures| && gestures[k].GestureString() == gestureString
  }

  /** Having a gesture of this string is having the string among the gesture strings. */
  lemma HasGestureStringIn(gestures: seq<MouseGesture>, gestureString: string)
    ensures HasGestureString(gestures, gestureString) <==> gestureString in GestureStrings(gestures)
  {
    if gestureString in GestureStrings(gestures) {
      var k :| 0 <= k < |gestures| && GestureStrings(gestures)[k] == gestureString;
    }
  }

  /** The position of the first gesture with this string (Enumerable.First), or
      None where First would throw. */
  function FirstGestureWithString(gestures: seq<MouseGesture>, gestureString: string): (r: Option<nat>)
    ensures r.None? <==> !HasGestureString(gestures, gestureString)
    ensures r.Some? ==> r.value < |gestures| && gestures[r.value].GestureString() == gestureString
    ensures r.Some? ==> forall j :: 0 <= j < r.value ==> gestures[j].GestureString() != gestureString
  {
    if gestures == [] then None
    else if gestures[0].GestureString() == gestureString then Some(0)
    else
      match FirstGestureWithString(gestures[1..], gestureString)
      case None => None
      case Some(k) => Some(k + 1)
  }

  /** GestureCommand. The Command reference is never reassigned by the engine,
      so it is a constant; the Gestures list is both mutated in place and
      replaced by the registry, so it is a variable holding a list object. */
  class GestureCommand {
    const command: Command
    var gestures: GestureList

    /** GestureCommand(Command, MouseGesture): a new list holding that very gesture. */
    constructor WithGesture(command: Command, gesture: MouseGesture)
      ensures this.command == command
      ensures fresh(gestures) && gestures.items == [gesture]
    {
      this.command := command;
      gestures := new GestureList([gesture]);
    }

    /** GestureCommand(Command, List<MouseGesture>): the caller's list object itself
        is stored, so later changes to it are shared. */
    constructor WithGestures(command: Command, gestures: GestureList)
      ensures this.command == command && this.gestures == gestures
    {
      this.command := command;
      this.gestures := gestures;
    }

    /** GestureCommand(string gesture, string commandId, string description): a new
        Command and one gesture parsed from the string. */
    constructor FromStrings(gesture: string, commandId: string, description: string)
      ensures fresh(command) && command.commandId == commandId && command.description == description
      ensures fresh(gestures) && |gestures.items| == 1 && fresh(gestures.items[0])
      ensures gestures.items[0].gestureItems == ToMouseGestureItems(gesture)
    {
      command := new Command(commandId, description);
      var g := new MouseGesture.FromString(gesture);
      gestures := new GestureList([g]);
    }

    /** CommandId reads through the command. */
    function CommandId(): string
    {
      command.commandId
    }

    /** Description reads through the command, so it follows CommandsRepository.Update. */
    function Description(): string
      reads command
    {
      command.description
    }
  }
}
