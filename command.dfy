/** The command catalog: Command (an id and a description that can change) and
    CommandsRepository, the list of known commands keyed by id. */
module Commands {
  import opened Common

  /** Command. No code of the engine reassigns the id, so it is a constant; the
      description is changed in place by CommandsRepository.Update. */
  class Command {
    const commandId: string
    var description: string

    constructor (commandId: string, description: string)
      ensures this.commandId == commandId && this.description == description
    {
      this.commandId := commandId;
      this.description := description;
    }

    /** "{CommandId} - {Description}": the id, then " - ", then the description. */
    function ToString(): (s: string)
      reads this
      ensures |s| == |commandId| + 3 + |description|
      ensures s[..|commandId|] == commandId
      ensures s[|commandId|..|commandId| + 3] == " - "
      ensures s[|commandId| + 3..] == description
    {
      commandId + " - " + description
    }
  }

  /** The position of the first command with the given id (Enumerable.FirstOrDefault
      with an id predicate), or None when no command has it. */
  function FirstIndexOfId(cs: seq<Command>, commandId: string): (r: Option<nat>)
    ensures r.None? <==> forall k :: 0 <= k < |cs| ==> cs[k].commandId != commandId
    ensures r.Some? ==> r.value < |cs| && cs[r.value].commandId == commandId
    ensures r.Some? ==> forall j :: 0 <= j < r.value ==> cs[j].commandId != commandId
  {
    if cs == [] then None
    else if cs[0].commandId == commandId then Some(0)
    else
      match FirstIndexOfId(cs[1..], commandId)
      case None => None
      case Some(k) => Some(k + 1)
  }

  /** The ToString of every command, in order. */
  function InfoLines(cs: seq<Command>): (lines: seq<string>)
    reads set c | c in cs
    ensures |lines| == |cs|
    ensures forall k :: 0 <= k < |cs| ==> lines[k] == cs[k].ToString()
  {
    if cs == [] then [] else [cs[0].ToString()] + InfoLines(cs[1..])
  }

  /** CommandsRepository: the commands in insertion order. Add refuses an id that
      is already present, so ids stay unique. */
  class CommandsRepository {
    var commands: seq<Command>

    /** No two stored commands share an id. */
    ghost predicate Valid()
      reads this
    {
      forall i, j :: 0 <= i < j < |commands| ==> commands[i].commandId != commands[j].commandId
    }

    ghost function CommandSet(): set<Command>
      reads this
    {
      set c | c in commands
    }

    constructor ()
      ensures Valid() && commands == []
    {
      commands := [];
    }

    /** Has(string): some stored command has this id. */
    function Has(commandId: string): (b: bool)
      reads this
      ensures b <==> exists k :: 0 <= k < |commands| && commands[k].commandId == commandId
    {
      FirstIndexOfId(commands, commandId).Some?
    }

    /** Has(Command): decided by the id alone, never by the object. */
    function HasCommand(command: Command): (b: bool)
      reads this
      ensures b <==> exists k :: 0 <= k < |commands| && commands[k].commandId == command.commandId
    {
      Has(command.commandId)
    }

    /** Get: the first command with the id, or null. */
    function Get(commandId: string): (c: Command?)
      reads this
      ensures c == null <==> !Has(commandId)
      ensures c != null ==> c.commandId == commandId
      ensures c != null ==> exists k :: 0 <= k < |commands| && commands[k] == c &&
                                        (forall j :: 0 <= j < k ==> commands[j].commandId != commandId)
    {
      match FirstIndexOfId(commands, commandId)
      case None => null
      case Some(k) => commands[k]
    }

    /** Add(Command): an id already present is refused with no change; otherwise
        the command is appended. */
    method Add(command: Command) returns (r: Outcome)
      requires Valid()
      modifies this
      ensures Valid()
      ensures r == if old(Has(command.commandId)) then Fail(Argument(CommandExists)) else Pass
      ensures commands == if r.Pass? then old(commands) + [command] else old(commands)
    {
      if Has(command.commandId) {
        return Fail(Argument(CommandExists));
      }
      commands := commands + [command];
      return Pass;
    }

    /** Add(string, string): Add of a new Command. */
    method AddNamed(commandId: string, description: string) returns (r: Outcome)
      requires Valid()
      modifies this
      ensures Valid()
      ensures r == if old(Has(commandId)) then Fail(Argument(CommandExists)) else Pass
      ensures r.Fail? ==> commands == old(commands)
      ensures r.Pass? ==> |commands| == |old(commands)| + 1 && commands[..|old(commands)|] == old(commands)
      ensures r.Pass? ==> var c := commands[|commands| - 1];
        fresh(c) && c.commandId == commandId && c.description == description
    {
      var command := new Command(commandId, description);
      r := Add(command);
    }

    /** Remove(string): the command found by Get is taken out (List.Remove of that
        object); a missing id changes nothing. */
    method Remove(commandId: string)
      requires Valid()
      modifies this
      ensures Valid()
      ensures !Has(commandId)
      ensures match old(FirstIndexOfId(commands, commandId))
        case None => commands == old(commands)
        case Some(k) => commands == old(commands[..k] + commands[k + 1..])
    {
      var cmd := Get(commandId);
      if cmd != null {
        ghost var k := FirstIndexOfId(commands, commandId).value;
        RemoveFirstAt(commands, k);
        commands := RemoveFirst(commands, cmd);
        RemovedPositionValid(old(commands), k);
      }
    }

    /** Remove(Command): Has by id, then List.Remove of that very object; another
        object with the same id is left in place. */
    method RemoveCommand(command: Command)
      requires Valid()
      modifies this
      ensures Valid()
      ensures command !in old(commands) ==> commands == old(commands)
      ensures command in old(commands) ==>
        exists k :: 0 <= k < |old(commands)| && old(commands)[k] == command &&
                    commands == old(commands[..k] + commands[k + 1..])
    {
      if HasCommand(command) {
        if command in commands {
          var k := IndexOf(commands, command).value;
          commands := RemoveFirst(commands, command);
          RemovedPositionValid(old(commands), k);
        } else {
          commands := RemoveFirst(commands, command);
        }
      }
    }

    /** Update: the description of the command with that id is replaced; ids, the
        list and every other command stay as they were; a missing id changes nothing. */
    method Update(commandId: string, description: string)
      requires Valid()
      modifies CommandSet()
      ensures Valid() && commands == old(commands)
      ensures forall c :: c in commands && c.commandId != commandId ==> c.description == old(c.description)
      ensures forall c :: c in commands && c.commandId == commandId ==> c.description == description
    {
      if Has(commandId) {
        var k := FirstIndexOfId(commands, commandId).value;
        commands[k].description := description;
      }
    }

    /** GetCommandsInfo: "id - description" for each command, in insertion order. */
    function GetCommandsInfo(): (info: seq<string>)
      reads this, CommandSet()
      ensures |info| == |commands|
      ensures forall k :: 0 <= k < |commands| ==> info[k] == commands[k].ToString()
    {
      InfoLines(commands)
    }
  }

  /** Taking one command out of a list with unique ids leaves the ids unique and
      removes that id altogether. */
  lemma RemovedPositionValid(cs: seq<Command>, k: nat)
    requires k < |cs|
    requires forall i, j :: 0 <= i < j < |cs| ==> cs[i].commandId != cs[j].commandId
    ensures var rest := cs[..k] + cs[k + 1..];
      && (forall i, j :: 0 <= i < j < |rest| ==> rest[i].commandId != rest[j].commandId)
      && (forall i :: 0 <= i < |rest| ==> rest[i].commandId != cs[k].commandId)
  {
    var rest := cs[..k] + cs[k + 1..];
    assert forall i :: 0 <= i < |rest| ==> rest[i] == if i < k then cs[i] else cs[i + 1];
  }
}
