# GestureCommandEngine, modelled in Dafny

GestureCommandEngine binds mouse gestures to application commands. A gesture is
recorded as a trace of integer screen points. The recognition service drops jitter
points, classifies each segment as Up, Down, Left, Right or Unrecognized, and
collapses repeated neighbours, which gives a string over the symbols `U D L R ?`.
A command catalog (`CommandsRepository`) holds the known commands. A gesture
registry (`GestureCommandsRepository`) keeps a list of entries, each pairing a
catalog command with its own mutable list of gestures, and supports lookup, add,
update and remove with `force` and `overwrite` flags. The dispatcher
(`GestureCommandsHandler`) recognizes a trace, looks its string up in the
registry, and raises one of two events.

The model follows the source's classes, one module per file; shared helpers and worked runs have files of their own:

- `common.dfy` holds the exceptions as values, `string.IsNullOrWhiteSpace` and `List.Remove`.
- `dictionary.dfy` models a run of `Dictionary.Add` calls.
- `mouse_gesture_item.dfy` and `mouse_gesture.dfy` hold the symbols and the gesture.
- `recognition.dfy` holds the recognition service.
- `command.dfy` holds `Command` and the catalog.
- `gesture_command.dfy` holds the registry entry.
- `gesture_commands_repository.dfy` holds the registry.
- `gesture_commands_handler.dfy` holds the dispatcher.
- `scenarios.dfy` holds worked runs.

Pure code becomes functions and lemmas. Code that mutates state becomes classes:

- The catalog and the registry are classes with a `seq` field.
- A registry entry is a class whose gesture list is an object of its own (`GestureList`), so a list shared by two holders is shared in the model too.
- Gestures are objects compared by reference, as in the source.

Each exception is a `Failure`/`Fail` value carrying the exception class. The
registry operations that change gesture lists, remove entries or add a named
entry (`AddGestureToCommand`, `RemoveGestureFromCommand`, `Update`, `Remove` and
`Add(string, string)`) are specified by two-state predicates, which the
dispatcher reuses. `Add(GestureCommand)`, `Add(Command, MouseGesture)` and `Clear`
change only the entry sequence and are specified by plain postconditions on it.

The model follows the code where the written behaviour of the engine differs from
what its documentation suggests:

- `Recognize` classifies only the segments `(x, x + 1)` with `x < filtered.Count - 2`.
  - The final segment never contributes.
  - A trace that filters to two points yields the empty gesture, not an error (`Recognition.TraceScenarios`).
- `AddGestureToCommand` with `force` removes no earlier binding, although its doc comment says it does.
- `RemoveGestureFromCommand` throws (`InvalidOperation`) when the command has no gesture with the string, because `First` finds no match.
- `Add(string, string)` checks neither for an existing entry nor for a string already bound (`Scenarios.SharedStringScenario`).
  - Its in-use check goes through `Add(GestureCommand)`, which compares gesture objects.
  - The new gesture object is never already present, so the check never refuses.
- `GetSymbol(ToMouseGestureItem(c)) == c` holds for the five symbols `U D L R ?`, not only for `U D L R`, because `'?'` parses to Unrecognized and is written back as `'?'`.

## Model

| member | source | states |
|---|---|---|
| MouseGestureItems.GetSymbol | GestureCommandEngine.Core/Models/MouseGestureItem.cs:14-33 | the table Up = 'U', Down = 'D', Left = 'L', Right = 'R', Unrecognized = '?', each letter for exactly its item |
| MouseGestureItems.ToMouseGestureItem | GestureCommandEngine.Core/Models/MouseGestureItem.cs:35-54 | 'U' parses to Up, 'D' to Down, 'L' to Left, 'R' to Right, each item from exactly its letter, and every other character to Unrecognized |
| MouseGestureItems.ToMouseGestureItems | GestureCommandEngine.Core/Models/MouseGestureItem.cs:56-59 | the parsed list has the string's length and item k is the parse of character k alone |
| MouseGestureItems.SymbolRoundTrip | GestureCommandEngine.Core/Models/MouseGestureItem.cs:14-54 | parsing the symbol of any of the five items gives that item back |
| MouseGestureItems.CharRoundTrip | GestureCommandEngine.Core/Models/MouseGestureItem.cs:14-54 | writing back the parse of c gives c exactly when c is U, D, L, R or '?', and '?' for every other character |
| MouseGestureItems.GetSymbolInjective | GestureCommandEngine.Core/Models/MouseGestureItem.cs:14-33 | distinct items have distinct symbols |
| MouseGestures.Render | GestureCommandEngine.Core/Models/MouseGesture.cs:7 | the joined string has one character per item, character k being the symbol of item k |
| MouseGestures.MouseGesture.FromItems | GestureCommandEngine.Core/Models/MouseGesture.cs:9-12 | the gesture holds exactly the given items |
| MouseGestures.MouseGesture.FromString | GestureCommandEngine.Core/Models/MouseGesture.cs:14-17 | the gesture holds the string parsed character by character |
| MouseGestures.MouseGesture.GestureString | GestureCommandEngine.Core/Models/MouseGesture.cs:7 | the string is as long as the item list and character k is the symbol of item k |
| MouseGestures.MouseGesture.ToString | GestureCommandEngine.Core/Models/MouseGesture.cs:19-22 | ToString is the gesture string, and the empty gesture prints as "" |
| MouseGestures.ParseThenRender | GestureCommandEngine.Core/Models/MouseGesture.cs:7-17 | the string of the gesture parsed from s keeps each U, D, L, R of s in place and turns every other character into '?' |
| MouseGestures.ParseThenRenderIdentity | GestureCommandEngine.Core/Models/MouseGesture.cs:7-17 | parse-then-render gives s back exactly when s is written in U, D, L, R, '?', and in particular whenever s holds only U, D, L, R |
| MouseGestures.RenderThenParse | GestureCommandEngine.Core/Models/MouseGesture.cs:7-17 | parsing the string of an item list gives that list back |
| MouseGestures.RenderInjective | GestureCommandEngine.Core/Models/MouseGesture.cs:7 | two item lists with the same gesture string are equal |
| Recognition.GetGestureItem | GestureCommandEngine.Core/Services/MouseGestureRecognitionService.cs:42-66 | Unrecognized exactly when abs(dx) == abs(dy); otherwise Right/Left by the sign of dx when abs(dx) is larger, else Down/Up by the sign of dy, positive y being Down |
| Recognition.GetGestureItemTranslation | GestureCommandEngine.Core/Services/MouseGestureRecognitionService.cs:42-66 | moving both points by the same offset does not change the classification |
| Recognition.GetGestureItemReversed | GestureCommandEngine.Core/Services/MouseGestureRecognitionService.cs:42-66 | swapping start and stop exchanges Up with Down and Left with Right and keeps Unrecognized |
| Recognition.Filter | GestureCommandEngine.Core/Services/MouseGestureRecognitionService.cs:73-89 | the filtered trace begins with the first point and has between 1 and |points| points |
| Recognition.KeptIndexesFilter | GestureCommandEngine.Core/Services/MouseGestureRecognitionService.cs:73-89 | the filtered trace has one point per listed position, each position lies in the input, and each filtered point is the input point at its position |
| Recognition.FilterCharacterized | GestureCommandEngine.Core/Services/MouseGestureRecognitionService.cs:73-89 | the filtered trace is the input at a strictly increasing list of positions starting at 0, where each retained point is at least minDelta from the previous retained one on some axis and each dropped point is closer than minDelta to the last retained one on both axes |
| Recognition.FilterStepDrop | GestureCommandEngine.Core/Services/MouseGestureRecognitionService.cs:79-84 | a point that is jitter with respect to the last retained point is dropped and the filtering property is kept |
| Recognition.FilterStepKeep | GestureCommandEngine.Core/Services/MouseGestureRecognitionService.cs:79-85 | a point that is not jitter is retained and the filtering property is kept |
| Recognition.JitterFilteringUnique | GestureCommandEngine.Core/Services/MouseGestureRecognitionService.cs:73-89 | the retained and dropped conditions determine the retained positions uniquely |
| Recognition.FilterIsSubsequence | GestureCommandEngine.Core/Services/MouseGestureRecognitionService.cs:73-89 | filtering only deletes points |
| Recognition.FilterPoints | GestureCommandEngine.Core/Services/MouseGestureRecognitionService.cs:73-89 | the loop builds exactly the filtered trace |
| Recognition.Collapse | GestureCommandEngine.Core/Services/MouseGestureRecognitionService.cs:22-37 | the collapsed list is no longer than its input, has no two equal neighbours, and has no Unrecognized when those are dropped |
| Recognition.CollapseIsSubsequence | GestureCommandEngine.Core/Services/MouseGestureRecognitionService.cs:26-36 | collapsing only deletes items |
| Recognition.CollapseKeepsKinds | GestureCommandEngine.Core/Services/MouseGestureRecognitionService.cs:26-36 | an item kind occurs in the result exactly when it occurs in the input, unless it is Unrecognized and those are dropped |
| Recognition.CollapseFixedPoint | GestureCommandEngine.Core/Services/MouseGestureRecognitionService.cs:26-36 | a list with no equal neighbours (and, when dropping, no Unrecognized) is left as it is |
| Recognition.CollapseIdempotent | GestureCommandEngine.Core/Services/MouseGestureRecognitionService.cs:26-36 | collapsing twice is collapsing once |
| Recognition.CollapseUnrecognizedBetweenEquals | GestureCommandEngine.Core/Services/MouseGestureRecognitionService.cs:26-36 | U,?,U gives U when Unrecognized is dropped, because a skipped item does not separate its neighbours, and stays U,?,U otherwise |
| Recognition.RecognizedShape | GestureCommandEngine.Core/Services/MouseGestureRecognitionService.cs:21-37 | the gesture has at most max(0, filtered count - 2) items, is empty when the trace filters to 2 points or fewer, has no equal neighbours, and has no Unrecognized in the default mode |
| Recognition.FinalPointIgnored | GestureCommandEngine.Core/Services/MouseGestureRecognitionService.cs:21-24 | two traces whose filtered forms agree except on the last point give the same gesture |
| Recognition.TraceScenarios | GestureCommandEngine.Core/Services/MouseGestureRecognitionService.cs:8-40 | worked strokes: a two-point stroke gives the empty gesture, an L-shaped three-point stroke gives only Down, and a four-point stair gives Down, Right |
| Recognition.JitterTraceScenario | GestureCommandEngine.Core/Services/MouseGestureRecognitionService.cs:8-40 | a trace whose points all lie within the jitter threshold filters to its first point and gives the empty gesture without error |
| Recognition.Recognize | GestureCommandEngine.Core/Services/MouseGestureRecognitionService.cs:8-40 | fewer than 2 points is an argument error and nothing else fails; otherwise the gesture holds the filtered, classified and collapsed segments |
| Commands.Command.constructor | GestureCommandEngine.Core/Models/Command.cs:8-12 | the command holds the given id and description |
| Commands.Command.ToString | GestureCommandEngine.Core/Models/Command.cs:14-17 | the text is the id, then " - ", then the description |
| Commands.CommandsRepository.constructor | GestureCommandEngine.Core/Services/CommandsRepository.cs:10-13 | the catalog starts empty |
| Commands.CommandsRepository.Has | GestureCommandEngine.Core/Services/CommandsRepository.cs:15-18 | true exactly when some stored command has the id |
| Commands.CommandsRepository.HasCommand | GestureCommandEngine.Core/Services/CommandsRepository.cs:20-23 | true exactly when some stored command has the given command's id, whatever the object |
| Commands.CommandsRepository.Get | GestureCommandEngine.Core/Services/CommandsRepository.cs:40-43 | null exactly when no command has the id; otherwise the first stored command with that id |
| Commands.CommandsRepository.Add | GestureCommandEngine.Core/Services/CommandsRepository.cs:25-33 | an id already present is refused with no change; otherwise the command is appended; ids stay unique |
| Commands.CommandsRepository.AddNamed | GestureCommandEngine.Core/Services/CommandsRepository.cs:35-38 | like Add, with a new command holding the id and description |
| Commands.CommandsRepository.Remove | GestureCommandEngine.Core/Services/CommandsRepository.cs:45-52 | the command with the id is taken out and nothing else; a missing id changes nothing; afterwards no command has the id |
| Commands.CommandsRepository.RemoveCommand | GestureCommandEngine.Core/Services/CommandsRepository.cs:54-60 | only that very object is taken out; an object not stored, even one with a stored id, changes nothing |
| Commands.CommandsRepository.Update | GestureCommandEngine.Core/Services/CommandsRepository.cs:62-68 | only the description of the command with the id changes; the list and the other commands stay as they were |
| Commands.CommandsRepository.GetCommandsInfo | GestureCommandEngine.Core/Services/CommandsRepository.cs:70-73 | one line per command in insertion order, each the command's "id - description" |
| Commands.RemovedPositionValid | GestureCommandEngine.Core/Services/CommandsRepository.cs:45-60 | removing one command from a list with unique ids keeps the ids unique and removes that id altogether |
| GestureCommands.GestureCommand.WithGesture | GestureCommandEngine.Core/Models/GestureCommand.cs:11-15 | a new list holding exactly that gesture object |
| GestureCommands.GestureCommand.WithGestures | GestureCommandEngine.Core/Models/GestureCommand.cs:16-20 | the caller's list object itself is stored, so later changes are shared |
| GestureCommands.GestureCommand.FromStrings | GestureCommandEngine.Core/Models/GestureCommand.cs:21-25 | a new command with the id and description, and a new list holding one new gesture parsed from the string |
| GestureCommands.GestureStrings | GestureCommandEngine.Core/Services/GestureCommandsRepository.cs:216 | one gesture string per gesture, in list order |
| GestureCommands.FirstGestureWithString | GestureCommandEngine.Core/Services/GestureCommandsRepository.cs:128 | None exactly when no gesture has the string; otherwise the position of the first that does |
| Dictionaries.AddAllSucceeds | GestureCommandEngine.Core/Services/GestureCommandsRepository.cs:195-220 | a run of Dictionary.Add succeeds exactly when its keys are distinct and new |
| Dictionaries.AddAllContents | GestureCommandEngine.Core/Services/GestureCommandsRepository.cs:195-220 | a run of Dictionary.Add that succeeds holds the old keys and the added ones, maps each added key to its value and keeps the old entries |
| GestureCommandsRepositories.GesturesInfoSpec | GestureCommandEngine.Core/Services/GestureCommandsRepository.cs:195-208 | GetGesturesInfo succeeds exactly when no gesture string is bound twice; then its keys are the bound strings, each mapped to its entry's description |
| GestureCommandsRepositories.GestureCommandsInfoSpec | GestureCommandEngine.Core/Services/GestureCommandsRepository.cs:210-220 | GetGestureCommandsInfo succeeds exactly when no two entries share an id; then each id maps to its entry's gesture strings in list order |
| GestureCommandsRepositories.BindUnboundKeepsUnique | GestureCommandEngine.Core/Services/GestureCommandsRepository.cs:104-118 | binding a string that is bound nowhere keeps every string bound at most once |
| GestureCommandsRepositories.WithoutFirst | GestureCommandEngine.Core/Services/GestureCommandsRepository.cs:128-132 | with no gesture of the string the list is unchanged; otherwise exactly the first such gesture is gone |
| GestureCommandsRepositories.RemoveFirstWithString | GestureCommandEngine.Core/Services/GestureCommandsRepository.cs:159-160 | First, then List.Remove: the list loses exactly its first gesture with the string |
| GestureCommandsRepositories.Rebind | GestureCommandEngine.Core/Services/GestureCommandsRepository.cs:159-166 | the owner's list loses its first gesture with the string; then the target gets a new one-gesture list (overwrite) or the parsed gesture is appended to its own list |
| GestureCommandsRepositories.AddDescribed | GestureCommandEngine.Core/Services/GestureCommandsRepository.cs:201-204 | the inner loop equals Dictionary.Add of each gesture string with the entry's description, in order |
| GestureCommandsRepositories.GestureCommandsRepository.constructor | GestureCommandEngine.Core/Services/GestureCommandsRepository.cs:12-16 | the registry starts empty over the given catalog |
| GestureCommandsRepositories.GestureCommandsRepository.GetCommandById | GestureCommandEngine.Core/Services/GestureCommandsRepository.cs:18-21 | null exactly when no entry has the id; otherwise the first entry with it |
| GestureCommandsRepositories.GestureCommandsRepository.GetCommandByGesture | GestureCommandEngine.Core/Services/GestureCommandsRepository.cs:22-25 | the first entry holding a gesture whose string equals the given gesture's, or null when none does; the object itself plays no part |
| GestureCommandsRepositories.GestureCommandsRepository.GetCommandByGestureString | GestureCommandEngine.Core/Services/GestureCommandsRepository.cs:26-29 | the first entry holding a gesture with exactly this string, or null when none does |
| GestureCommandsRepositories.GestureCommandsRepository.IsGestureAvailable | GestureCommandEngine.Core/Services/GestureCommandsRepository.cs:222-225 | available exactly when no entry's list contains this very object |
| GestureCommandsRepositories.GestureCommandsRepository.IsGestureStringAvailable | GestureCommandEngine.Core/Services/GestureCommandsRepository.cs:227-230 | available exactly when no entry holds a gesture with the string |
| GestureCommandsRepositories.GestureCommandsRepository.AvailableIffUnbound | GestureCommandEngine.Core/Services/GestureCommandsRepository.cs:227-230 | a string is available exactly when it is not among the registry's bound strings |
| GestureCommandsRepositories.GestureCommandsRepository.Add | GestureCommandEngine.Core/Services/GestureCommandsRepository.cs:31-47 | an id unknown to the catalog is refused, then an entry holding a gesture object already held; otherwise the entry is appended; nothing changes on refusal |
| GestureCommandsRepositories.GestureCommandsRepository.AddCommandGesture | GestureCommandEngine.Core/Services/GestureCommandsRepository.cs:49-74 | refuses an unknown command, a gesture object already held, and an id with an entry, in that order; otherwise appends one new entry holding that gesture object |
| GestureCommandsRepositories.GestureCommandsRepository.AddNamed | GestureCommandEngine.Core/Services/GestureCommandsRepository.cs:76-94 | a blank string, then a blank id, then an id unknown to the catalog is refused; otherwise one new entry for the catalog's command, with one gesture parsed from the string, is appended, with no duplicate check |
| GestureCommandsRepositories.GestureCommandsRepository.AddGestureToCommand | GestureCommandEngine.Core/Services/GestureCommandsRepository.cs:104-118 | without force a bound string is refused before the id lookup; a missing entry is refused; otherwise a parsed gesture is appended to the first entry's list, no other list changes, and force detaches nothing |
| GestureCommandsRepositories.GestureCommandsRepository.AddGestureKeepsUnique | GestureCommandEngine.Core/Services/GestureCommandsRepository.cs:104-118 | an accepted AddGestureToCommand without force keeps every gesture string bound at most once |
| GestureCommandsRepositories.GestureCommandsRepository.RemoveGestureFromCommand | GestureCommandEngine.Core/Services/GestureCommandsRepository.cs:120-133 | a missing id is refused; no gesture with the string makes First throw; otherwise exactly the first such gesture leaves the first entry's list and no other list changes |
| GestureCommandsRepositories.GestureCommandsRepository.ConflictingList | GestureCommandEngine.Core/Services/GestureCommandsRepository.cs:152-153 | non-null exactly when the first entry holding the string has another id, and then it is that entry's list, which holds the string |
| GestureCommandsRepositories.GestureCommandsRepository.Update | GestureCommandEngine.Core/Services/GestureCommandsRepository.cs:144-167 | a missing id is refused; a string first held by another id is refused without force, with nothing changed, and with force exactly one matching gesture leaves that list; then the target gets a new one-gesture list (overwrite) or the gesture is appended; no other list changes, and the list overwrite takes away from the target keeps its items unless it is the list the gesture left |
| GestureCommandsRepositories.GestureCommandsRepository.UpdateWithGesture | GestureCommandEngine.Core/Services/GestureCommandsRepository.cs:169-172 | Update by the gesture's string, with the same frame for the target's previous list |
| GestureCommandsRepositories.GestureCommandsRepository.Remove | GestureCommandEngine.Core/Services/GestureCommandsRepository.cs:174-188 | a blank id, then a missing id, is refused with no change; otherwise only the first entry with the id is taken out |
| GestureCommandsRepositories.GestureCommandsRepository.Clear | GestureCommandEngine.Core/Services/GestureCommandsRepository.cs:190-193 | no entries remain |
| GestureCommandsRepositories.GestureCommandsRepository.GetGesturesInfo | GestureCommandEngine.Core/Services/GestureCommandsRepository.cs:195-208 | the loops compute the Dictionary.Add run over every (gesture string, description) pair characterised by GesturesInfoSpec |
| GestureCommandsRepositories.GestureCommandsRepository.GetGestureCommandsInfo | GestureCommandEngine.Core/Services/GestureCommandsRepository.cs:210-220 | the loop computes the Dictionary.Add run over every (id, gesture strings) pair characterised by GestureCommandsInfoSpec |
| GestureCommandsHandlers.RecognizedString | GestureCommandEngine.Core/Services/MouseGestureRecognitionService.cs:19-39 | the string of the recognized gesture uses only U, D, L, R, one character per recognized item, and parses back to those items |
| GestureCommandsHandlers.RecognizedBlankIffEmpty | GestureCommandEngine.Core/Services/GestureCommandsHandler.cs:37-41 | the recognized string is blank exactly when no direction was recognized, so such a trace fails the registry's blank check |
| GestureCommandsHandlers.GestureCommandsHandler.constructor | GestureCommandEngine.Core/Services/GestureCommandsHandler.cs:15-19 | the handler uses the given registry |
| GestureCommandsHandlers.GestureCommandsHandler.Handle | GestureCommandEngine.Core/Services/GestureCommandsHandler.cs:21-35 | fewer than 2 points fails with no event; otherwise exactly one event carrying the recognized string, GestureCommandInvoked with the first matching entry's id exactly when some entry holds the string |
| GestureCommandsHandlers.GestureCommandsHandler.AddGestureCommand | GestureCommandEngine.Core/Services/GestureCommandsHandler.cs:37-41 | a recognition failure changes nothing; otherwise the registry's Add(string, string) with the recognized string |
| GestureCommandsHandlers.GestureCommandsHandler.AddGestureCommandString | GestureCommandEngine.Core/Services/GestureCommandsHandler.cs:43-46 | the registry's Add(string, string) as it is |
| GestureCommandsHandlers.GestureCommandsHandler.UpdateGestureCommand | GestureCommandEngine.Core/Services/GestureCommandsHandler.cs:49-53 | a recognition failure changes nothing; otherwise the registry's Update with the recognized string, overwrite and force defaulting to true, including what happens to the target's previous list |
| GestureCommandsHandlers.GestureCommandsHandler.RemoveGestureCommand | GestureCommandEngine.Core/Services/GestureCommandsHandler.cs:55-58 | the registry's Remove as it is |
| GestureCommandsHandlers.GestureCommandsHandler.AddGestureToCommand | GestureCommandEngine.Core/Services/GestureCommandsHandler.cs:60-64 | a recognition failure changes nothing; otherwise the registry's AddGestureToCommand with the recognized string, force defaulting to true |
| GestureCommandsHandlers.GestureCommandsHandler.RemoveGestureFromCommand | GestureCommandEngine.Core/Services/GestureCommandsHandler.cs:66-70 | a recognition failure changes nothing; otherwise the registry's RemoveGestureFromCommand with the recognized string |
| GestureCommandsHandlers.GestureCommandsHandler.GetGesturesInfo | GestureCommandEngine.Core/Services/GestureCommandsHandler.cs:72-75 | the registry's GetGesturesInfo of the current entries |
| Scenarios.SharedStringInfo | GestureCommandEngine.Core/Services/GestureCommandsRepository.cs:195-220 | two entries bound to the same string make GetGesturesInfo throw on the duplicate key while GetGestureCommandsInfo succeeds |
| Scenarios.SharedStringScenario | GestureCommandEngine.Core/Services/GestureCommandsRepository.cs:76-94 | Add("Go", "U") and then Add("Stop", "U") both succeed, and the info builders then behave as in SharedStringInfo |
| Scenarios.SecondBindingInfo | GestureCommandEngine.Core/Services/GestureCommandsRepository.cs:195-220 | Go bound to s and Stop bound to d and then s: GetGesturesInfo throws on the duplicate key, GetGestureCommandsInfo lists s under both ids |
| Scenarios.AddToStop | GestureCommandEngine.Core/Services/GestureCommandsRepository.cs:104-118 | on Go: [s0], Stop: [s1], an AddGestureToCommand("Stop", s) that is not refused leaves Go as it was and shows Stop as s1 followed by the string of the gesture parsed from s |
| Scenarios.ForcedBindingScenario | GestureCommandEngine.Core/Services/GestureCommandsRepository.cs:104-118 | after Add("Go", "U") and Add("Stop", "D"), AddGestureToCommand("Stop", "U", true) succeeds and leaves "U" bound to both ids, so GetGesturesInfo throws on the duplicate key |
| Scenarios.UnrecognizedBindingScenario | GestureCommandEngine.Core/Services/GestureCommandsRepository.cs:104-118 | after Add("Go", "?") and Add("Stop", "D"), AddGestureToCommand("Stop", "X") without force succeeds, because "X" itself is bound nowhere, and binds a second "?", so GetGesturesInfo throws on the duplicate key |

## Left out

- Null arguments: Dafny references are never null, so the `ArgumentNullException` paths for null objects, point lists and strings are not modelled. The blank-string checks of `Add(string, string)` and `Remove` are modelled.
- `Point2D(double, double)` truncates floating point coordinates; only integer points are modelled.
- `Math.Abs(int.MinValue)` overflows in the source; coordinates and their differences are unbounded integers here.
- The events of `GestureCommandsHandler` and their subscribers: `Handle` returns the event it would raise as a `Dispatch` value.
- The interfaces, which restate the implementations' signatures, and the WPF demo application (canvas drawing, message boxes, dependency-injection wiring, and the capture-time point check, which repeats `FilterPoints`).
- Commands.Command: the id is a constant, while the C# `CommandId` has a public setter. No engine code reassigns it, so the catalog's unique-id invariant ignores a caller who renames a command it has already stored to an id the catalog holds.
- The `Command` reference of a registry entry is a constant, because no engine code reassigns it.
- MouseGestures.MouseGesture: the item list is a constant sequence, while the C# `GestureItems` is a settable property holding a mutable `List`. No engine code reassigns the property or changes the list after construction, so sharing of the caller's list object is not modelled.
- MouseGestures.MouseGesture.FromString, GestureCommandsRepositories.GestureCommandsRepository.AddNamed, AddGestureToCommand and Update: a string is a sequence of Unicode scalar values here, while a C# string is a sequence of UTF-16 code units. A character outside the Basic Multilingual Plane therefore parses to one Unrecognized item here and to two in the source (`"?"` against `"??"`).
- `GestureCommand.CommandId` and `Description` are modelled as plain accessors without contracts of their own; every contract above reads through them.
- The message text of each exception is not modelled, only its class and, for `ArgumentException` and `KeyNotFoundException`, which check raised it.
- GestureCommandsHandlers.GestureCommandsHandler.UpdateGestureCommand: the recognized string is taken from `RecognizedString`, the value `Recognize` is proved to produce, instead of calling `Recognize` and allocating a gesture object before the registry call. The gesture object itself is not observable, because `Update` uses only its string.
- GestureCommandsRepositories.GestureCommandsRepository.AddGestureKeepsUnique: uniqueness is proved only without force, only when no two entries share a list object, and only for strings written in the alphabet `U D L R ?`. With force, or for another string, the code can bind a string twice: force skips the check (`Scenarios.ForcedBindingScenario`), and a string outside the alphabet is checked as given but bound as its parsed form (`Scenarios.UnrecognizedBindingScenario`).
- Commands.CommandsRepository methods require the catalog invariant that ids are unique. The constructor establishes it and every method preserves it.
