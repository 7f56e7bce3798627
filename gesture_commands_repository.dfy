/** GestureCommandsRepository: the gesture registry. It keeps GestureCommand entries
    in insertion order, each with a list of gestures, and checks command ids
    against the command catalog (a CommandsRepository). */
module GestureCommandsRepositories {
  import opened Common
  import opened MouseGestureItems
  import opened MouseGestures
  import opened Commands
  import opened GestureCommands
  import opened Dictionaries

  // ---------------------------------------------------------------------------
  // The registry as a value
  // ---------------------------------------------------------------------------

  /** One entry seen from outside: its command id, its description and its
      gesture strings in list order. */
  datatype Entry = Entry(commandId: string, description: string, gestures: seq<string>)

  /** Every bound gesture string, entry by entry, each entry's in list order. */
  function BoundStrings(es: seq<Entry>): seq<string>
  {
    if es == [] then [] else es[0].gestures + BoundStrings(es[1..])
  }

  /** A string is bound when some entry lists it. */
  lemma {:induction false} BoundStringsMembership(es: seq<Entry>, s: string)
    ensures s in BoundStrings(es) <==> exists k :: 0 <= k < |es| && s in es[k].gestures
  {
    if es != [] {
      BoundStringsMembership(es[1..], s);
      if s in BoundStrings(es[1..]) {
        var k :| 0 <= k < |es[1..]| && s in es[1..][k].gestures;
        assert s in es[k + 1].gestures;
      }
      if exists k :: 0 <= k < |es| && s in es[k].gestures {
        var k :| 0 <= k < |es| && s in es[k].gestures;
        if k > 0 { assert s in es[1..][k - 1].gestures; }
      }
    }
  }

  /** The bound strings split around entry k. */
  lemma {:induction false} BoundStringsSplit(es: seq<Entry>, k: nat)
    requires k < |es|
    ensures BoundStrings(es) == BoundStrings(es[..k]) + es[k].gestures + BoundStrings(es[k + 1..])
  {
    if k == 0 {
      assert es[..0] == [];
      assert es[1..] == es[k + 1..];
    } else {
      BoundStringsSplit(es[1..], k - 1);
      assert es[1..][..k - 1] == es[..k][1..];
      assert es[1..][k - 1 + 1..] == es[k + 1..];
      assert BoundStrings(es[..k]) == es[0].gestures + BoundStrings(es[..k][1..]);
    }
  }

  /** Global uniqueness of gesture strings: no string is bound twice, neither on two
      commands nor twice on one. */
  predicate UniqueBindings(es: seq<Entry>)
  {
    Distinct(BoundStrings(es))
  }

  /** Entry k with one more gesture string. */
  function BindOneMore(es: seq<Entry>, k: nat, s: string): (es': seq<Entry>)
    requires k < |es|
    ensures |es'| == |es|
  {
    es[k := es[k].(gestures := es[k].gestures + [s])]
  }

  /** Binding a string that is bound nowhere keeps the bindings unique. */
  lemma BindUnboundKeepsUnique(es: seq<Entry>, k: nat, s: string)
    requires k < |es|
    requires UniqueBindings(es) && s !in BoundStrings(es)
    ensures UniqueBindings(BindOneMore(es, k, s))
  {
    var a, g, b := BoundStrings(es[..k]), es[k].gestures, BoundStrings(es[k + 1..]);
    BoundStringsSplit(es, k);
    BoundStringsBind(es, k, s);
    DistinctInsert(a + g, b, s);
  }

  /** The bound strings after BindOneMore: the new string follows entry k's own. */
  lemma BoundStringsBind(es: seq<Entry>, k: nat, s: string)
    requires k < |es|
    ensures BoundStrings(BindOneMore(es, k, s)) ==
            BoundStrings(es[..k]) + es[k].gestures + [s] + BoundStrings(es[k + 1..])
  {
    var es' := BindOneMore(es, k, s);
    BoundStringsSplit(es', k);
    assert es'[..k] == es[..k];
    assert es'[k + 1..] == es[k + 1..];
  }

  lemma DistinctInsert(a: seq<string>, b: seq<string>, s: string)
    requires Distinct(a + b) && s !in a + b
    ensures Distinct((a + [s]) + b)
  {
    var x, y := a + b, a + [s] + b;
    assert forall i :: 0 <= i < |y| ==> y[i] == (if i < |a| then x[i] else if i == |a| then s else x[i - 1]);
    forall i, j | 0 <= i < j < |y| ensures y[i] != y[j] {
      if i == |a| {
        assert y[j] == x[j - 1];
      } else if j == |a| {
        assert y[i] == x[i];
      } else {
        var xi, xj := if i < |a| then i else i - 1, if j < |a| then j else j - 1;
        assert xi < xj && y[i] == x[xi] && y[j] == x[xj];
      }
    }
  }

  /** The (gesture string, description) pairs GetGesturesInfo adds, one for each
      gesture of one entry. */
  function DescribedAs(gestures: seq<string>, description: string): (ps: seq<(string, string)>)
    ensures |ps| == |gestures|
    ensures forall i :: 0 <= i < |gestures| ==> ps[i] == (gestures[i], description)
  {
    seq(|gestures|, i requires 0 <= i < |gestures| => (gestures[i], description))
  }

  /** All pairs GetGesturesInfo adds, in the order of its two loops. */
  function GesturePairs(es: seq<Entry>): (ps: seq<(string, string)>)
    ensures KeysOf(ps) == BoundStrings(es)
  {
    if es == [] then []
    else
      var ps := DescribedAs(es[0].gestures, es[0].description) + GesturePairs(es[1..]);
      assert KeysOf(ps) == es[0].gestures + BoundStrings(es[1..]);
      ps
  }

  /** The pairs from entry i on: entry i's, then the rest. */
  lemma GesturePairsFrom(es: seq<Entry>, i: nat)
    requires i < |es|
    ensures GesturePairs(es[i..]) == DescribedAs(es[i].gestures, es[i].description) + GesturePairs(es[i + 1..])
  {
    assert es[i..][0] == es[i] && es[i..][1..] == es[i + 1..];
  }

  /** The pairs of gestures from j on: gesture j's, then the rest. */
  lemma DescribedAsFrom(gestures: seq<string>, description: string, j: nat)
    requires j < |gestures|
    ensures DescribedAs(gestures[j..], description) ==
            [(gestures[j], description)] + DescribedAs(gestures[j + 1..], description)
  {
  }

  /** What GetGesturesInfo returns for the registry es. */
  function GesturesInfo(es: seq<Entry>): Result<map<string, string>>
  {
    AddAll(map[], GesturePairs(es))
  }

  /** The pair of gesture p of entry k is among the pairs added. */
  lemma {:induction false} GesturePairsHas(es: seq<Entry>, k: nat, p: nat)
    requires k < |es| && p < |es[k].gestures|
    ensures (es[k].gestures[p], es[k].description) in GesturePairs(es)
  {
    var head := DescribedAs(es[0].gestures, es[0].description);
    assert GesturePairs(es) == head + GesturePairs(es[1..]);
    if k == 0 {
      assert head[p] == (es[k].gestures[p], es[k].description);
    } else {
      GesturePairsHas(es[1..], k - 1, p);
    }
  }

  /** GetGesturesInfo throws exactly when some gesture string is bound twice;
      otherwise it has one key per bound string, mapped to the description of
      the command that holds it. */
  lemma GesturesInfoSpec(es: seq<Entry>)
    ensures GesturesInfo(es).Success? <==> UniqueBindings(es)
    ensures GesturesInfo(es).Success? ==>
      && GesturesInfo(es).value.Keys == (set s | s in BoundStrings(es))
      && forall k, p :: 0 <= k < |es| && 0 <= p < |es[k].gestures| ==>
           es[k].gestures[p] in GesturesInfo(es).value &&
           GesturesInfo(es).value[es[k].gestures[p]] == es[k].description
  {
    var ps := GesturePairs(es);
    AddAllSucceeds(map[], ps);
    if GesturesInfo(es).Success? {
      AddAllContents(map[], ps);
      var m := GesturesInfo(es).value;
      forall k, p | 0 <= k < |es| && 0 <= p < |es[k].gestures|
        ensures es[k].gestures[p] in m && m[es[k].gestures[p]] == es[k].description
      {
        GesturePairsHas(es, k, p);
        var i :| 0 <= i < |ps| && ps[i] == (es[k].gestures[p], es[k].description);
      }
    }
  }

  /** The (command id, gesture strings) pairs GetGestureCommandsInfo adds. */
  function CommandPairs(es: seq<Entry>): (ps: seq<(string, seq<string>)>)
    ensures |ps| == |es|
    ensures forall k :: 0 <= k < |es| ==> ps[k] == (es[k].commandId, es[k].gestures)
  {
    seq(|es|, k requires 0 <= k < |es| => (es[k].commandId, es[k].gestures))
  }

  function Ids(es: seq<Entry>): (ids: seq<string>)
    ensures |ids| == |es|
    ensures forall k :: 0 <= k < |es| ==> ids[k] == es[k].commandId
  {
    seq(|es|, k requires 0 <= k < |es| => es[k].commandId)
  }

  /** What GetGestureCommandsInfo returns for the registry es. */
  function GestureCommandsInfo(es: seq<Entry>): Result<map<string, seq<string>>>
  {
    AddAll(map[], CommandPairs(es))
  }

  /** GetGestureCommandsInfo throws exactly when two entries share a command id;
      otherwise it maps each id to that entry's gesture strings in list order. */
  lemma GestureCommandsInfoSpec(es: seq<Entry>)
    ensures GestureCommandsInfo(es).Success? <==> Distinct(Ids(es))
    ensures GestureCommandsInfo(es).Success? ==>
      && GestureCommandsInfo(es).value.Keys == (set id | id in Ids(es))
      && forall k :: 0 <= k < |es| ==>
           es[k].commandId in GestureCommandsInfo(es).value &&
           GestureCommandsInfo(es).value[es[k].commandId] == es[k].gestures
  {
    var ps := CommandPairs(es);
    AddAllSucceeds(map[], ps);
    assert KeysOf(ps) == Ids(es);
    if GestureCommandsInfo(es).Success? {
      AddAllContents(map[], ps);
      var m := GestureCommandsInfo(es).value;
      forall k | 0 <= k < |es| ensures es[k].commandId in m && m[es[k].commandId] == es[k].gestures {
        assert ps[k] == (es[k].commandId, es[k].gestures);
      }
    }
  }

  // ---------------------------------------------------------------------------
  // Searching the entries
  // ---------------------------------------------------------------------------

  /** The position of the first entry whose command has this id, or None. */
  function FirstIndexById(gcs: seq<GestureCommand>, commandId: string): (r: Option<nat>)
    ensures r.None? <==> forall k :: 0 <= k < |gcs| ==> gcs[k].CommandId() != commandId
    ensures r.Some? ==> r.value < |gcs| && gcs[r.value].CommandId() == commandId
    ensures r.Some? ==> forall j :: 0 <= j < r.value ==> gcs[j].CommandId() != commandId
  {
    if gcs == [] then None
    else if gcs[0].CommandId() == commandId then Some(0)
    else
      match FirstIndexById(gcs[1..], commandId)
      case None => None
      case Some(k) => Some(k + 1)
  }

  /** The position of the first entry with a gesture of exactly this string, or None. */
  function FirstIndexByGestureString(gcs: seq<GestureCommand>, gestureString: string): (r: Option<nat>)
    reads set gc | gc in gcs, set gc | gc in gcs :: gc.gestures
    ensures r.None? <==> forall k :: 0 <= k < |gcs| ==> !HasGestureString(gcs[k].gestures.items, gestureString)
    ensures r.Some? ==> r.value < |gcs| && HasGestureString(gcs[r.value].gestures.items, gestureString)
    ensures r.Some? ==> forall j :: 0 <= j < r.value ==> !HasGestureString(gcs[j].gestures.items, gestureString)
  {
    if gcs == [] then None
    else if HasGestureString(gcs[0].gestures.items, gestureString) then Some(0)
    else
      match FirstIndexByGestureString(gcs[1..], gestureString)
      case None => None
      case Some(k) => Some(k + 1)
  }

  /** How many entries hold this very gesture object (List.Contains compares references). */
  function CountHolding(gcs: seq<GestureCommand>, gesture: MouseGesture): (n: nat)
    reads set gc | gc in gcs, set gc | gc in gcs :: gc.gestures
    ensures n <= |gcs|
    ensures n == 0 <==> forall k :: 0 <= k < |gcs| ==> gesture !in gcs[k].gestures.items
  {
    if gcs == [] then 0
    else (if gesture in gcs[0].gestures.items then 1 else 0) + CountHolding(gcs[1..], gesture)
  }

  /** How many entries hold a gesture with exactly this string. */
  function CountWithString(gcs: seq<GestureCommand>, gestureString: string): (n: nat)
    reads set gc | gc in gcs, set gc | gc in gcs :: gc.gestures
    ensures n <= |gcs|
    ensures n == 0 <==> forall k :: 0 <= k < |gcs| ==> !HasGestureString(gcs[k].gestures.items, gestureString)
  {
    if gcs == [] then 0
    else (if HasGestureString(gcs[0].gestures.items, gestureString) then 1 else 0) + CountWithString(gcs[1..], gestureString)
  }

  /** The list without its first gesture of this string (First, then List.Remove). */
  function WithoutFirst(items: seq<MouseGesture>, gestureString: string): (r: seq<MouseGesture>)
    ensures !HasGestureString(items, gestureString) ==> r == items
    ensures HasGestureString(items, gestureString) ==>
      var p := FirstGestureWithString(items, gestureString).value;
      |r| == |items| - 1 && r == items[..p] + items[p + 1..]
  {
    match FirstGestureWithString(items, gestureString)
    case None => items
    case Some(p) => items[..p] + items[p + 1..]
  }

  /** Enumerable.First, then List.Remove of the gesture found: exactly the first
      gesture with this string leaves the list. */
  method RemoveFirstWithString(list: GestureList, gestureString: string)
    requires HasGestureString(list.items, gestureString)
    modifies list
    ensures list.items == WithoutFirst(old(list.items), gestureString)
    ensures |list.items| == |old(list.items)| - 1
  {
    var p := FirstGestureWithString(list.items, gestureString).value;
    var gesture := list.items[p];
    RemoveFirstAt(list.items, p);
    list.items := RemoveFirst(list.items, gesture);
  }

  /** The changes Update makes once it has accepted: the first gesture with the string
      leaves the owner's list (the list of the entry of another id that holds the
      string, if any); then, with overwrite, the target entry gets a new list holding
      one gesture parsed from the string, and otherwise that gesture is appended to
      its own list. */
  method Rebind(target: GestureCommand, owner: GestureList?, gestureString: string, overwrite: bool)
    requires owner != null ==> HasGestureString(owner.items, gestureString)
    modifies target, target.gestures, owner
    ensures owner != null && (overwrite || owner != target.gestures) ==>
      owner.items == WithoutFirst(old(owner.items), gestureString)
    ensures overwrite ==> fresh(target.gestures) && AppendedParsed(target.gestures, [], gestureString)
    ensures overwrite && old(target.gestures) != owner ==> old(target.gestures).items == old(target.gestures.items)
    ensures !overwrite ==>
      && target.gestures == old(target.gestures)
      && AppendedParsed(target.gestures,
                        if target.gestures == owner then WithoutFirst(old(owner.items), gestureString)
                        else old(target.gestures.items),
                        gestureString)
  {
    if owner != null {
      RemoveFirstWithString(owner, gestureString);
    }
    var g := new MouseGesture.FromString(gestureString);
    if overwrite {
      target.gestures := new GestureList([g]);
    } else {
      target.gestures.items := target.gestures.items + [g];
    }
  }

  /** Entry gc as a value. */
  function EntryOf(gc: GestureCommand): Entry
    reads gc, gc.gestures, gc.command
  {
    Entry(gc.CommandId(), gc.Description(), GestureStrings(gc.gestures.items))
  }

  /** The list gained exactly one gesture at its end, a new one parsed from the string. */
  twostate predicate AppendedParsed(new list: GestureList, old_items: seq<MouseGesture>, gestureString: string)
    reads list
  {
    && |list.items| == |old_items| + 1
    && list.items[..|old_items|] == old_items
    && fresh(list.items[|old_items|])
    && list.items[|old_items|].gestureItems == ToMouseGestureItems(gestureString)
  }

  /** The inner loop of GetGesturesInfo: Dictionary.Add of each gesture's string
      with the entry's description. */
  method AddDescribed(m: map<string, string>, items: seq<MouseGesture>, description: string)
    returns (r: Result<map<string, string>>)
    ensures r == AddAll(m, DescribedAs(GestureStrings(items), description))
  {
    ghost var gestures := GestureStrings(items);
    var retval := m;
    for j := 0 to |items|
      invariant AddAll(m, DescribedAs(gestures, description)) == AddAll(retval, DescribedAs(gestures[j..], description))
    {
      var key := items[j].GestureString();
      DescribedAsFrom(gestures, description, j);
      AddAllCons(retval, (key, description), DescribedAs(gestures[j + 1..], description));
      if key in retval {
        return Failure(Argument(DuplicateKey));
      }
      retval := retval[key := description];
    }
    assert DescribedAs(gestures[|items|..], description) == [];
    return Success(retval);
  }

  // ---------------------------------------------------------------------------
  // The registry
  // ---------------------------------------------------------------------------

  class GestureCommandsRepository {
    const commandsRepository: CommandsRepository
    var commands: seq<GestureCommand>

    constructor (commandsRepository: CommandsRepository)
      ensures this.commandsRepository == commandsRepository && commands == []
    {
      this.commandsRepository := commandsRepository;
      commands := [];
    }

    ghost function EntrySet(): set<GestureCommand>
      reads this
    {
      set gc | gc in commands
    }

    ghost function ListSet(): set<GestureList>
      reads this, EntrySet()
    {
      set gc | gc in commands :: gc.gestures
    }

    ghost function CommandSet(): set<Command>
      reads this
    {
      set gc | gc in commands :: gc.command
    }

    /** The registry as a value. */
    ghost function View(): (v: seq<Entry>)
      reads this, EntrySet(), ListSet(), CommandSet()
      ensures |v| == |commands|
      ensures forall k :: 0 <= k < |commands| ==> v[k] == EntryOf(commands[k])
    {
      seq(|commands|, k requires 0 <= k < |commands| reads this, EntrySet(), ListSet(), CommandSet() =>
        EntryOf(commands[k]))
    }

    /** No two entries share a list object (so no two are the same object). */
    ghost predicate ListsDistinct()
      reads this, EntrySet()
    {
      forall i, j :: 0 <= i < j < |commands| ==> commands[i].gestures != commands[j].gestures
    }

    /** GetCommandById: the first entry, in insertion order, whose command has the id. */
    function GetCommandById(commandId: string): (r: GestureCommand?)
      reads this
      ensures r == null <==> forall k :: 0 <= k < |commands| ==> commands[k].CommandId() != commandId
      ensures r != null ==> exists k :: 0 <= k < |commands| && commands[k] == r && r.CommandId() == commandId &&
                                        (forall j :: 0 <= j < k ==> commands[j].CommandId() != commandId)
      ensures r == match FirstIndexById(commands, commandId) case None => null case Some(k) => commands[k]
    {
      match FirstIndexById(commands, commandId)
      case None => null
      case Some(k) => commands[k]
    }

    /** GetCommandByGestureString: the first entry holding a gesture whose string
        equals this one exactly. */
    function GetCommandByGestureString(gestureString: string): (r: GestureCommand?)
      reads this, EntrySet(), ListSet()
      ensures r == null <==> forall k :: 0 <= k < |commands| ==> !HasGestureString(commands[k].gestures.items, gestureString)
      ensures r != null ==> exists k :: 0 <= k < |commands| && commands[k] == r &&
                                        HasGestureString(r.gestures.items, gestureString) &&
                                        (forall j :: 0 <= j < k ==> !HasGestureString(commands[j].gestures.items, gestureString))
      ensures r == match FirstIndexByGestureString(commands, gestureString) case None => null case Some(k) => commands[k]
    {
      match FirstIndexByGestureString(commands, gestureString)
      case None => null
      case Some(k) => commands[k]
    }

    /** GetCommandByGesture: lookup by the gesture's string, never by the object. */
    function GetCommandByGesture(gesture: MouseGesture): (r: GestureCommand?)
      reads this, EntrySet(), ListSet()
      ensures r == null <==> forall k :: 0 <= k < |commands| ==> !HasGestureString(commands[k].gestures.items, gesture.GestureString())
      ensures r != null ==> exists k :: 0 <= k < |commands| && commands[k] == r &&
                                        HasGestureString(r.gestures.items, gesture.GestureString()) &&
                                        (forall j :: 0 <= j < k ==> !HasGestureString(commands[j].gestures.items, gesture.GestureString()))
    {
      GetCommandByGestureString(gesture.GestureString())
    }

    /** IsGestureAvailable(MouseGesture): no entry's list contains this very object.
        A different object with the same string does not make it unavailable. */
    function IsGestureAvailable(gesture: MouseGesture): (b: bool)
      reads this, EntrySet(), ListSet()
      ensures b <==> forall k :: 0 <= k < |commands| ==> gesture !in commands[k].gestures.items
    {
      CountHolding(commands, gesture) == 0
    }

    /** IsGestureAvailable(string): no entry holds a gesture with this string. */
    function IsGestureStringAvailable(gestureString: string): (b: bool)
      reads this, EntrySet(), ListSet()
      ensures b <==> forall k :: 0 <= k < |commands| ==> !HasGestureString(commands[k].gestures.items, gestureString)
    {
      CountWithString(commands, gestureString) == 0
    }

    lemma AvailableIffUnbound(gestureString: string)
      ensures (forall k :: 0 <= k < |commands| ==> !HasGestureString(commands[k].gestures.items, gestureString))
              <==> gestureString !in BoundStrings(View())
    {
      var es := View();
      BoundStringsMembership(es, gestureString);
      forall k | 0 <= k < |commands|
        ensures HasGestureString(commands[k].gestures.items, gestureString) <==> gestureString in es[k].gestures
      {
        var items := commands[k].gestures.items;
        if gestureString in es[k].gestures {
          var p :| 0 <= p < |es[k].gestures| && es[k].gestures[p] == gestureString;
          assert items[p].GestureString() == gestureString;
        }
      }
    }

    /** Add(GestureCommand): an id unknown to the catalog is refused, then an entry
        holding a gesture object already held by some entry; otherwise the entry
        object is appended as it is. Only references are compared, so an equal
        string on another gesture object is accepted. */
    method Add(command: GestureCommand) returns (r: Outcome)
      modifies this
      ensures r == if !commandsRepository.Has(command.CommandId()) then Fail(KeyNotFound(UnknownCommand))
                   else if exists k :: 0 <= k < |command.gestures.items| && !old(IsGestureAvailable(command.gestures.items[k]))
                   then Fail(Argument(GestureInUse))
                   else Pass
      ensures commands == if r.Pass? then old(commands) + [command] else old(commands)
    {
      if !commandsRepository.HasCommand(command.command) {
        return Fail(KeyNotFound(UnknownCommand));
      }
      var items := command.gestures.items;
      if exists k :: 0 <= k < |items| && !IsGestureAvailable(items[k]) {
        return Fail(Argument(GestureInUse));
      }
      commands := commands + [command];
      return Pass;
    }

    /** Add(Command, MouseGesture): refuses an unknown command, a gesture object
        already held by an entry, and an id that already has an entry, in that
        order; otherwise appends one new entry holding that gesture object. */
    method AddCommandGesture(cmd: Command, gesture: MouseGesture) returns (r: Outcome)
      modifies this
      ensures r == if !commandsRepository.Has(cmd.commandId) then Fail(KeyNotFound(UnknownCommand))
                   else if !old(IsGestureAvailable(gesture)) then Fail(Argument(GestureInUse))
                   else if FirstIndexById(old(commands), cmd.commandId).Some? then Fail(Argument(CommandExists))
                   else Pass
      ensures r.Fail? ==> commands == old(commands)
      ensures r.Pass? ==> |commands| == |old(commands)| + 1 && commands[..|old(commands)|] == old(commands)
      ensures r.Pass? ==> var gc := commands[|commands| - 1];
        fresh(gc) && gc.command == cmd && fresh(gc.gestures) && gc.gestures.items == [gesture]
    {
      if !commandsRepository.HasCommand(cmd) {
        return Fail(KeyNotFound(UnknownCommand));
      }
      if !IsGestureAvailable(gesture) {
        return Fail(Argument(GestureInUse));
      }
      if GetCommandById(cmd.commandId) != null {
        return Fail(Argument(CommandExists));
      }
      var gc := new GestureCommand.WithGesture(cmd, gesture);
      r := Add(gc);
    }

    /** The effect of Add(string commandId, string gestureString): a blank gesture
        string, then a blank id, is refused; then an id unknown to the catalog;
        otherwise a new entry for the catalog's command with one gesture parsed from
        the string is appended. Neither an existing entry for the id nor a gesture
        string already bound is refused. */
    twostate predicate NamedAdded(commandId: string, gestureString: string, r: Outcome)
      reads this, commandsRepository, EntrySet(), ListSet()
    {
      && r == (if IsNullOrWhiteSpace(gestureString) then Fail(ArgumentNull("gestureString"))
               else if IsNullOrWhiteSpace(commandId) then Fail(ArgumentNull("commandId"))
               else if !old(commandsRepository.Has(commandId)) then Fail(KeyNotFound(UnknownCommand))
               else Pass)
      && (r.Fail? ==> commands == old(commands))
      && (r.Pass? ==>
            && |commands| == |old(commands)| + 1 && commands[..|old(commands)|] == old(commands)
            && var gc := commands[|commands| - 1];
               && fresh(gc) && gc.command == old(commandsRepository.Get(commandId))
               && fresh(gc.gestures) && |gc.gestures.items| == 1 && fresh(gc.gestures.items[0])
               && gc.gestures.items[0].gestureItems == ToMouseGestureItems(gestureString))
    }

    /** Add(string commandId, string gestureString). */
    method AddNamed(commandId: string, gestureString: string) returns (r: Outcome)
      modifies this
      ensures NamedAdded(commandId, gestureString, r)
    {
      if IsNullOrWhiteSpace(gestureString) {
        return Fail(ArgumentNull("gestureString"));
      }
      if IsNullOrWhiteSpace(commandId) {
        return Fail(ArgumentNull("commandId"));
      }
      var cmd := commandsRepository.Get(commandId);
      if cmd == null {
        return Fail(KeyNotFound(UnknownCommand));
      }
      var gesture := new MouseGesture.FromString(gestureString);
      var gc := new GestureCommand.WithGesture(cmd, gesture);
      r := Add(gc);
    }

    /** The effect of AddGestureToCommand. Without force, a string bound anywhere
        (on this command too) is refused before the id is looked up; an id without
        an entry is refused; otherwise a gesture parsed from the string is appended
        to the first entry's list and no other list changes, with force or without:
        force removes no earlier binding. */
    twostate predicate GestureAddedToCommand(commandId: string, gestureString: string, force: bool, r: Outcome)
      reads this, EntrySet(), ListSet(), CommandSet()
    {
      && commands == old(commands)
      && (forall gc :: gc in commands ==> gc.Description() == old(gc.Description()))
      && r == (if !force && !old(IsGestureStringAvailable(gestureString)) then Fail(Argument(GestureInUse))
               else if FirstIndexById(commands, commandId).None? then Fail(KeyNotFound(CommandNotFound))
               else Pass)
      && (forall gc :: gc in commands ==> gc.gestures == old(gc.gestures))
      && (r.Fail? ==> forall gc :: gc in commands ==> gc.gestures.items == old(gc.gestures.items))
      && (r.Pass? ==>
            var list := old(commands[FirstIndexById(commands, commandId).value].gestures);
            && AppendedParsed(list, old(list.items), gestureString)
            && forall gc :: gc in commands && gc.gestures != list ==> gc.gestures.items == old(gc.gestures.items))
    }

    /** AddGestureToCommand. Without force, on lists that are not shared, a string in
        the alphabet "UDLR?" that it accepts keeps every gesture string bound once. */
    method AddGestureToCommand(commandId: string, gestureString: string, force: bool := false) returns (r: Outcome)
      modifies ListSet()
      ensures GestureAddedToCommand(commandId, gestureString, force, r)
    {
      if !IsGestureStringAvailable(gestureString) && !force {
        return Fail(Argument(GestureInUse));
      }

      var cmd := GetCommandById(commandId);
      if cmd == null {
        return Fail(KeyNotFound(CommandNotFound));
      }

      var gesture := new MouseGesture.FromString(gestureString);
      cmd.gestures.items := cmd.gestures.items + [gesture];
      r := Pass;
    }

    /** AddGestureToCommand without force, on lists that are not shared, keeps every
        gesture string bound once when it accepts a string in the alphabet "UDLR?". */
    twostate lemma AddGestureKeepsUnique(commandId: string, gestureString: string, r: Outcome)
      requires GestureAddedToCommand(commandId, gestureString, false, r) && r.Pass?
      requires IsSymbolString(gestureString)
      requires old(ListsDistinct() && UniqueBindings(View()))
      ensures UniqueBindings(View())
    {
      var es := old(View());
      var t := FirstIndexById(commands, commandId).value;
      var list := commands[t].gestures;
      var gesture := list.items[|old(list.items)|];
      forall k | 0 <= k < |es| ensures gestureString !in es[k].gestures {
        assert es[k].gestures == GestureStrings(old(commands[k].gestures.items));
        HasGestureStringIn(old(commands[k].gestures.items), gestureString);
      }
      BoundStringsMembership(es, gestureString);
      ghost var before := old(list.items);
      assert list.items == before + [gesture];
      assert es[t].gestures == GestureStrings(before);
      ParseThenRenderIdentity(gestureString);
      assert gesture.GestureString() == gestureString;
      GestureStringsAppend(before, gesture);
      forall k | 0 <= k < |commands| && k != t ensures EntryOf(commands[k]) == es[k] {
        var gc := commands[k];
        assert gc.gestures != list by {
          if k < t {
            assert old(commands[k].gestures != commands[t].gestures);
          } else {
            assert old(commands[t].gestures != commands[k].gestures);
          }
        }
        assert gc.gestures.items == old(gc.gestures.items);
      }
      BindingOneKeepsUnique(es, t, gestureString);
    }

    /** The registry value is es with one more string bound on entry t, which keeps
        the bindings unique when the string was bound nowhere in es. */
    lemma BindingOneKeepsUnique(es: seq<Entry>, t: nat, gestureString: string)
      requires |es| == |commands| && t < |commands|
      requires UniqueBindings(es) && gestureString !in BoundStrings(es)
      requires forall k :: 0 <= k < |commands| && k != t ==> EntryOf(commands[k]) == es[k]
      requires EntryOf(commands[t]) == es[t].(gestures := es[t].gestures + [gestureString])
      ensures UniqueBindings(View())
    {
      assert View() == BindOneMore(es, t, gestureString);
      BindUnboundKeepsUnique(es, t, gestureString);
    }

    /** The effect of RemoveGestureFromCommand: an id without an entry is refused;
        then a list with no gesture of that string makes Enumerable.First throw;
        otherwise exactly the first gesture with that string leaves the first
        entry's list and no other list changes. */
    twostate predicate GestureRemovedFromCommand(commandId: string, gestureString: string, r: Outcome)
      reads this, EntrySet(), ListSet()
    {
      && commands == old(commands)
      && r == (match FirstIndexById(commands, commandId)
               case None => Fail(KeyNotFound(CommandNotFound))
               case Some(t) =>
                 if !HasGestureString(old(commands[t].gestures.items), gestureString) then Fail(InvalidOperation)
                 else Pass)
      && (forall gc :: gc in commands ==> gc.gestures == old(gc.gestures))
      && (r.Fail? ==> forall gc :: gc in commands ==> gc.gestures.items == old(gc.gestures.items))
      && (r.Pass? ==>
            var list := old(commands[FirstIndexById(commands, commandId).value].gestures);
            && list.items == WithoutFirst(old(list.items), gestureString)
            && |list.items| == |old(list.items)| - 1
            && forall gc :: gc in commands && gc.gestures != list ==> gc.gestures.items == old(gc.gestures.items))
    }

    method RemoveGestureFromCommand(commandId: string, gestureString: string) returns (r: Outcome)
      modifies ListSet()
      ensures GestureRemovedFromCommand(commandId, gestureString, r)
    {
      var cmd := GetCommandById(commandId);
      if cmd == null {
        return Fail(KeyNotFound(CommandNotFound));
      }

      if FirstGestureWithString(cmd.gestures.items, gestureString).None? {
        return Fail(InvalidOperation);
      }
      RemoveFirstWithString(cmd.gestures, gestureString);
      r := Pass;
    }

    /** The list Update takes the gesture string from: the list of the first entry
        holding the string, when that entry has another id; null otherwise. */
    function ConflictingList(commandId: string, gestureString: string): (l: GestureList?)
      reads this, EntrySet(), ListSet()
      ensures l != null <==> exists k :: 0 <= k < |commands| && HasGestureString(commands[k].gestures.items, gestureString) &&
                                          (forall j :: 0 <= j < k ==> !HasGestureString(commands[j].gestures.items, gestureString)) &&
                                          commands[k].CommandId() != commandId
      ensures l != null ==> HasGestureString(l.items, gestureString) &&
                            exists k :: 0 <= k < |commands| && commands[k].gestures == l && commands[k].CommandId() != commandId
    {
      var gestureCommand := GetCommandByGestureString(gestureString);
      if gestureCommand != null && gestureCommand.CommandId() != commandId then gestureCommand.gestures else null
    }

    /** The effect of Update. An id without an entry is refused. When the first entry
        holding the string belongs to another id, no force refuses with nothing
        changed, and force removes the first gesture with that string from that
        entry's list (exactly one gesture). Then overwrite gives the target entry a
        new list holding one gesture parsed from the string, and otherwise that
        gesture is appended to the target's list. No other entry gets another list
        and no other list held by an entry changes; PreviousListKept says the
        same of the list that overwrite takes away from the target. */
    twostate predicate GestureCommandUpdated(commandId: string, gestureString: string, overwrite: bool, force: bool, r: Outcome)
      reads this, EntrySet(), ListSet()
    {
      var target := GetCommandById(commandId);
      var owner := old(ConflictingList(commandId, gestureString));
      var detached := if owner != null then WithoutFirst(old(owner.items), gestureString) else [];
      && commands == old(commands)
      && r == (if target == null then Fail(KeyNotFound(CommandNotFound))
               else if owner != null && !force then Fail(Argument(GestureInUse))
               else Pass)
      && (r.Fail? ==> forall gc :: gc in commands ==> gc.gestures == old(gc.gestures) && gc.gestures.items == old(gc.gestures.items))
      && (r.Pass? ==>
            && (owner != null ==> |detached| == |old(owner.items)| - 1)
            && (forall gc :: gc in commands && gc != target ==> gc.gestures == old(gc.gestures))
            && (forall gc :: gc in commands && gc.gestures != target.gestures ==>
                  gc.gestures.items == if gc.gestures == owner then detached else old(gc.gestures.items))
            && (overwrite ==> fresh(target.gestures) && AppendedParsed(target.gestures, [], gestureString))
            && (!overwrite ==>
                  && target.gestures == old(target.gestures)
                  && AppendedParsed(target.gestures,
                                    if target.gestures == owner then detached else old(target.gestures.items),
                                    gestureString)))
    }

    /** The list of the first entry with the id, or null. */
    ghost function ListOf(commandId: string): GestureList?
      reads this, EntrySet()
    {
      var target := GetCommandById(commandId);
      if target == null then null else target.gestures
    }

    /** The list an accepted Update with overwrite takes away from its target
        (previous) only loses the gesture when it is the list the string left;
        otherwise it keeps its items, even when no entry holds it any more. */
    twostate predicate PreviousListKept(commandId: string, gestureString: string, overwrite: bool, r: Outcome,
                                        previous: GestureList?)
      reads this, EntrySet(), ListSet(), previous
    {
      var owner := old(ConflictingList(commandId, gestureString));
      r.Pass? && overwrite && previous != null ==>
        previous.items == if previous == owner then WithoutFirst(old(previous.items), gestureString)
                          else old(previous.items)
    }

    /** Update(string commandId, string gestureString, overwrite, force). */
    method Update(commandId: string, gestureString: string, overwrite: bool := true, force: bool := false) returns (r: Outcome)
      modifies EntrySet(), ListSet()
      ensures GestureCommandUpdated(commandId, gestureString, overwrite, force, r)
      ensures PreviousListKept(commandId, gestureString, overwrite, r, old(ListOf(commandId)))
    {
      var command := GetCommandById(commandId);
      if command == null {
        return Fail(KeyNotFound(CommandNotFound));
      }
      var owner := ConflictingList(commandId, gestureString);
      if owner != null && !force {
        return Fail(Argument(GestureInUse));
      }
      Rebind(command, owner, gestureString, overwrite);
      r := Pass;
    }

    /** Update(string commandId, MouseGesture gesture, overwrite, force): Update by
        the gesture's string. */
    method UpdateWithGesture(commandId: string, gesture: MouseGesture, overwrite: bool := true, force: bool := false) returns (r: Outcome)
      modifies EntrySet(), ListSet()
      ensures GestureCommandUpdated(commandId, gesture.GestureString(), overwrite, force, r)
      ensures PreviousListKept(commandId, gesture.GestureString(), overwrite, r, old(ListOf(commandId)))
    {
      r := Update(commandId, gesture.GestureString(), overwrite, force);
    }

    /** The effect of Remove: a blank id is refused, then an id without an entry;
        otherwise the first entry with the id (and only that one) is taken out. */
    twostate predicate EntryRemoved(commandId: string, r: Outcome)
      reads this
    {
      && r == (if IsNullOrWhiteSpace(commandId) then Fail(ArgumentNull("commandId"))
               else if FirstIndexById(old(commands), commandId).None? then Fail(KeyNotFound(CommandNotFound))
               else Pass)
      && (r.Fail? ==> commands == old(commands))
      && (r.Pass? ==> var k := FirstIndexById(old(commands), commandId).value;
            commands == old(commands[..k] + commands[k + 1..]))
    }

    /** Remove(string commandId). */
    method Remove(commandId: string) returns (r: Outcome)
      modifies this
      ensures EntryRemoved(commandId, r)
    {
      if IsNullOrWhiteSpace(commandId) {
        return Fail(ArgumentNull("commandId"));
      }

      var cmd := GetCommandById(commandId);
      if cmd == null {
        return Fail(KeyNotFound(CommandNotFound));
      }

      ghost var k := FirstIndexById(commands, commandId).value;
      assert forall j :: 0 <= j < k ==> commands[j] != cmd;
      RemoveFirstAt(commands, k);
      commands := RemoveFirst(commands, cmd);
      r := Pass;
    }

    /** Clear: no entries remain. */
    method Clear()
      modifies this
      ensures commands == []
    {
      commands := [];
    }

    /** GetGesturesInfo: gesture string to description, built with Dictionary.Add. */
    method GetGesturesInfo() returns (r: Result<map<string, string>>)
      ensures r == GesturesInfo(View())
    {
      var retval: map<string, string> := map[];
      ghost var es := View();

      for i := 0 to |commands|
        invariant GesturesInfo(es) == AddAll(retval, GesturePairs(es[i..]))
      {
        var cmd := commands[i];
        ghost var later := GesturePairs(es[i + 1..]);
        assert es[i] == EntryOf(cmd);
        GesturePairsFrom(es, i);
        AddAllAppend(retval, DescribedAs(es[i].gestures, es[i].description), later);
        var added := AddDescribed(retval, cmd.gestures.items, cmd.Description());
        if added.Failure? {
          assert AddAll(retval, DescribedAs(es[i].gestures, es[i].description)) == added;
          assert es == View();
          return Failure(added.error);
        }
        retval := added.value;
      }
      assert es[|commands|..] == [] && GesturePairs([]) == [];
      assert es == View();
      return Success(retval);
    }

    /** GetGestureCommandsInfo: command id to its gesture strings, built with
        Dictionary.Add. */
    method GetGestureCommandsInfo() returns (r: Result<map<string, seq<string>>>)
      ensures r == GestureCommandsInfo(View())
    {
      var retval: map<string, seq<string>> := map[];
      ghost var es := View();

      for i := 0 to |commands|
        invariant AddAll(map[], CommandPairs(es)) == AddAll(retval, CommandPairs(es)[i..])
      {
        var cmd := commands[i];
        var key := cmd.CommandId();
        assert CommandPairs(es)[i..][0] == (key, es[i].gestures);
        assert CommandPairs(es)[i..][1..] == CommandPairs(es)[i + 1..];
        if key in retval {
          return Failure(Argument(DuplicateKey));
        }
        retval := retval[key := GestureStrings(cmd.gestures.items)];
      }
      assert CommandPairs(es)[|commands|..] == [];
      return Success(retval);
    }
  }
}
