/** Concrete runs of the registry that show how the code behaves on small inputs. */
module Scenarios {
  import opened Common
  import opened MouseGestureItems
  import opened MouseGestures
  import opened Commands
  import opened GestureCommands
  import opened Dictionaries
  import opened GestureCommandsRepositories

  /** Two entries, Go and Stop, each bound to the single string "U": the gesture
      map has a duplicate key, the command map does not. */
  lemma SharedStringInfo(es: seq<Entry>)
    requires |es| == 2 && es[0].commandId == "Go" && es[1].commandId == "Stop"
    requires es[0].gestures == ["U"] && es[1].gestures == ["U"]
    ensures GesturesInfo(es) == Failure(Argument(DuplicateKey))
    ensures GestureCommandsInfo(es) == Success(map["Go" := ["U"], "Stop" := ["U"]])
  {
    var d0, d1 := es[0].description, es[1].description;
    assert GesturePairs(es) == [("U", d0), ("U", d1)] by {
      assert GesturePairs(es[2..]) == [];
      assert GesturePairs(es[1..]) == [("U", d1)];
    }
    AddAllCons(map[], ("U", d0), [("U", d1)]);
    AddAllCons(map["U" := d0], ("U", d1), []);
    var cs := CommandPairs(es);
    assert cs == [("Go", ["U"])] + [("Stop", ["U"])];
    AddAllCons(map[], ("Go", ["U"]), [("Stop", ["U"])]);
    AddAllCons(map["Go" := ["U"]], ("Stop", ["U"]), []);
  }

  /** Go bound to s and Stop bound to d and then to s as well: the gesture map has a
      duplicate key, the command map lists s under both ids. */
  lemma SecondBindingInfo(es: seq<Entry>, s: string, d: string)
    requires |es| == 2 && es[0].commandId == "Go" && es[1].commandId == "Stop"
    requires es[0].gestures == [s] && es[1].gestures == [d, s] && d != s
    ensures GesturesInfo(es) == Failure(Argument(DuplicateKey))
    ensures GestureCommandsInfo(es) == Success(map["Go" := [s], "Stop" := [d, s]])
  {
    var d0, d1 := es[0].description, es[1].description;
    assert GesturePairs(es) == [(s, d0), (d, d1), (s, d1)] by {
      assert GesturePairs(es[2..]) == [];
      assert GesturePairs(es[1..]) == [(d, d1), (s, d1)];
    }
    AddAllCons(map[], (s, d0), [(d, d1), (s, d1)]);
    AddAllCons(map[s := d0], (d, d1), [(s, d1)]);
    AddAllCons(map[s := d0, d := d1], (s, d1), []);
    var cs := CommandPairs(es);
    assert cs == [("Go", [s])] + [("Stop", [d, s])];
    AddAllCons(map[], ("Go", [s]), [("Stop", [d, s])]);
    AddAllCons(map["Go" := [s]], ("Stop", [d, s]), []);
  }

  /** An entry whose list holds one gesture parsed from a string of the alphabet
      "UDLR?" shows that string. */
  lemma SingleString(gc: GestureCommand, s: string)
    requires IsSymbolString(s)
    requires |gc.gestures.items| == 1 && gc.gestures.items[0].gestureItems == ToMouseGestureItems(s)
    ensures EntryOf(gc).gestures == [s]
  {
    ParseThenRenderIdentity(s);
  }

  /** A catalog holding the commands Go and Stop. */
  method NewCatalog() returns (catalog: CommandsRepository)
    ensures fresh(catalog) && catalog.Has("Go") && catalog.Has("Stop")
  {
    catalog := new CommandsRepository();
    var added := catalog.AddNamed("Go", "Go forward");
    added := catalog.AddNamed("Stop", "Stop moving");
    assert catalog.commands[0].commandId == "Go" && catalog.commands[1].commandId == "Stop";
  }

  /** A registry over the catalog Go and Stop, after Add("Go", s0) and then
      Add("Stop", s1). */
  method RegisterPair(s0: string, s1: string) returns (registry: GestureCommandsRepository, first: Outcome, second: Outcome)
    requires !IsNullOrWhiteSpace(s0) && !IsNullOrWhiteSpace(s1)
    requires IsSymbolString(s0) && IsSymbolString(s1)
    ensures fresh(registry)
    ensures first == Pass && second == Pass
    ensures |registry.commands| == 2 && registry.commands[0].gestures != registry.commands[1].gestures
    ensures fresh(registry.commands[0].gestures) && fresh(registry.commands[1].gestures)
    ensures var es := registry.View();
      |es| == 2 && es[0].commandId == "Go" && es[1].commandId == "Stop" &&
      es[0].gestures == [s0] && es[1].gestures == [s1]
  {
    var catalog := NewCatalog();
    assert !IsNullOrWhiteSpace("Go") && !IsNullOrWhiteSpace("Stop") by {
      assert "Go"[0] == 'G' && !IsWhiteSpace("Go"[0]);
      assert "Stop"[0] == 'S' && !IsWhiteSpace("Stop"[0]);
    }
    registry := new GestureCommandsRepository(catalog);
    first := registry.AddNamed("Go", s0);
    assert first == Pass && |registry.commands| == 1;
    assert registry.commands[0].CommandId() == "Go";
    second := registry.AddNamed("Stop", s1);
    assert second == Pass && |registry.commands| == 2;
    assert registry.commands[1].CommandId() == "Stop";
    SingleString(registry.commands[0], s0);
    SingleString(registry.commands[1], s1);
  }

  /** Add(string, string) checks neither the id nor the string against the
      registry: binding "U" to "Go" and then to "Stop" both succeed, and
      GetGesturesInfo then throws on the duplicate key while
      GetGestureCommandsInfo still succeeds. */
  method SharedStringScenario()
    returns (first: Outcome, second: Outcome, info: Result<map<string, string>>,
             commandsInfo: Result<map<string, seq<string>>>)
    ensures first == Pass && second == Pass
    ensures info == Failure(Argument(DuplicateKey))
    ensures commandsInfo.Success? && commandsInfo.value == map["Go" := ["U"], "Stop" := ["U"]]
  {
    assert !IsNullOrWhiteSpace("U") by { assert "U"[0] == 'U' && !IsWhiteSpace("U"[0]); }
    var registry;
    registry, first, second := RegisterPair("U", "U");
    var es := registry.View();
    SharedStringInfo(es);
    info := registry.GetGesturesInfo();
    assert registry.View() == es;
    commandsInfo := registry.GetGestureCommandsInfo();
    assert registry.View() == es;
  }

  /** On the registry Go: [s0], Stop: [s1], AddGestureToCommand("Stop", s, force)
      that passes leaves Go as it was and shows Stop as [s1, rendered], where
      rendered is the string of the gesture parsed from s. */
  method AddToStop(registry: GestureCommandsRepository, s0: string, s1: string, s: string, force: bool)
    returns (r: Outcome)
    requires |registry.commands| == 2 && registry.commands[0].gestures != registry.commands[1].gestures
    requires var es := registry.View();
      |es| == 2 && es[0].commandId == "Go" && es[1].commandId == "Stop" &&
      es[0].gestures == [s0] && es[1].gestures == [s1]
    requires force || registry.IsGestureStringAvailable(s)
    modifies registry.ListSet()
    ensures r == Pass
    ensures var es := registry.View();
      |es| == 2 && es[0].commandId == "Go" && es[1].commandId == "Stop" &&
      es[0].gestures == [s0] && es[1].gestures == [s1, Render(ToMouseGestureItems(s))]
  {
    ghost var before := registry.commands[1].gestures.items;
    r := registry.AddGestureToCommand("Stop", s, force);
    assert registry.commands[0].CommandId() == "Go";
    assert FirstIndexById(registry.commands, "Stop") == Some(1);
    var list := registry.commands[1].gestures;
    var g := list.items[|before|];
    assert list.items == before + [g];
    GestureStringsAppend(before, g);
  }

  /** A registry over the catalog Go and Stop after Add("Go", s0), Add("Stop", s1)
      and AddGestureToCommand("Stop", s, force); without force, s must be neither
      s0 nor s1, so that the string is free. */
  method BindOnStop(s0: string, s1: string, s: string, force: bool)
    returns (registry: GestureCommandsRepository, r: Outcome)
    requires !IsNullOrWhiteSpace(s0) && !IsNullOrWhiteSpace(s1)
    requires IsSymbolString(s0) && IsSymbolString(s1)
    requires force || (s != s0 && s != s1)
    ensures fresh(registry)
    ensures r == Pass
    ensures var es := registry.View();
      |es| == 2 && es[0].commandId == "Go" && es[1].commandId == "Stop" &&
      es[0].gestures == [s0] && es[1].gestures == [s1, Render(ToMouseGestureItems(s))]
  {
    var first, second;
    registry, first, second := RegisterPair(s0, s1);
    if !force {
      assert registry.IsGestureStringAvailable(s) by {
        forall k | 0 <= k < 2 ensures !HasGestureString(registry.commands[k].gestures.items, s) {
          HasGestureStringIn(registry.commands[k].gestures.items, s);
        }
      }
    }
    r := AddToStop(registry, s0, s1, s, force);
  }

  /** With force, AddGestureToCommand binds a string that another entry already
      holds: after Add("Go", "U"), Add("Stop", "D") and
      AddGestureToCommand("Stop", "U", true), "U" is bound to both commands, and
      GetGesturesInfo throws on the duplicate key. */
  method ForcedBindingScenario()
    returns (r: Outcome, info: Result<map<string, string>>, commandsInfo: Result<map<string, seq<string>>>)
    ensures r == Pass
    ensures info == Failure(Argument(DuplicateKey))
    ensures commandsInfo == Success(map["Go" := ["U"], "Stop" := ["D", "U"]])
  {
    assert !IsNullOrWhiteSpace("U") && !IsNullOrWhiteSpace("D") by {
      assert "U"[0] == 'U' && !IsWhiteSpace("U"[0]);
      assert "D"[0] == 'D' && !IsWhiteSpace("D"[0]);
    }
    var registry;
    registry, r := BindOnStop("U", "D", "U", true);
    ParseThenRenderIdentity("U");
    var es := registry.View();
    SecondBindingInfo(es, "U", "D");
    info := registry.GetGesturesInfo();
    assert registry.View() == es;
    commandsInfo := registry.GetGestureCommandsInfo();
    assert registry.View() == es;
  }

  /** Without force, the availability check looks at the string as given, not at
      its parsed form: "X" is bound nowhere after Add("Go", "?") and
      Add("Stop", "D"), so AddGestureToCommand("Stop", "X") passes, and the
      gesture it parses shows "?", the string Go already holds. */
  method UnrecognizedBindingScenario()
    returns (r: Outcome, info: Result<map<string, string>>, commandsInfo: Result<map<string, seq<string>>>)
    ensures r == Pass
    ensures info == Failure(Argument(DuplicateKey))
    ensures commandsInfo == Success(map["Go" := ["?"], "Stop" := ["D", "?"]])
  {
    assert !IsNullOrWhiteSpace("?") && !IsNullOrWhiteSpace("D") by {
      assert "?"[0] == '?' && !IsWhiteSpace("?"[0]);
      assert "D"[0] == 'D' && !IsWhiteSpace("D"[0]);
    }
    var registry;
    registry, r := BindOnStop("?", "D", "X", false);
    assert Render(ToMouseGestureItems("X")) == "?";
    var es := registry.View();
    SecondBindingInfo(es, "?", "D");
    info := registry.GetGesturesInfo();
    assert registry.View() == es;
    commandsInfo := registry.GetGestureCommandsInfo();
    assert registry.View() == es;
  }
}
