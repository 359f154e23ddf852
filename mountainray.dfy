/**
  The 3D-model commands and the change-shader gesture: the shader cycle and
  its names, the argument handling of `/3dsummon` and `/3dremove`, and their
  tab completers. Sending a message, spawning a marker and removing entities
  are host calls: a command's outcome is the messages it sends, in order, and
  the one action it asks the host to take.
*/
module Mountainray {
  import opened Text
  import opened Sequences

  datatype ShaderType = Random | Colored | Shaded

  /** The cycle the gesture steps through. */
  const Order: seq<ShaderType> := [Random, Colored, Shaded]

  /** `order.indexOf(shader)`: every shader occurs in the cycle. */
  function IndexOf(shader: ShaderType): (i: nat)
    ensures i < |Order| && Order[i] == shader
  {
    match shader
    case Random => 0
    case Colored => 1
    case Shaded => 2
  }

  /** The shader after `shader` in the cycle; never `shader` itself. */
  function NextShader(shader: ShaderType): (next: ShaderType)
    ensures next != shader
    ensures IndexOf(next) == (IndexOf(shader) + 1) % |Order|
  {
    Order[(IndexOf(shader) + 1) % |Order|]
  }

  /** The cycle is Random, then Colored, then Shaded, then Random again. */
  lemma CycleOrder()
    ensures NextShader(Random) == Colored
    ensures NextShader(Colored) == Shaded
    ensures NextShader(Shaded) == Random
  {
  }

  /** Three uses of the gesture return to the shader one started with. */
  lemma ThreeStepsReturn(shader: ShaderType)
    ensures NextShader(NextShader(NextShader(shader))) == shader
  {
  }

  /** Every shader is reached from every other by at most two steps. */
  lemma EveryShaderReachable(from: ShaderType, target: ShaderType)
    ensures target == from || target == NextShader(from) || target == NextShader(NextShader(from))
  {
  }

  /** The action-bar name of a shader. */
  function ShaderName(shader: ShaderType): (name: string)
    ensures |name| > 0
  {
    match shader
    case Random => "Random"
    case Colored => "Textured"
    case Shaded => "Textured and Shaded"
  }

  /** Different shaders show different names. */
  lemma ShaderNamesDistinct(a: ShaderType, b: ShaderType)
    requires ShaderName(a) == ShaderName(b)
    ensures a == b
  {
  }

  /** The global `activeShaderType` and the gesture that changes it. */
  class ShaderSelector {
    var activeShaderType: ShaderType

    constructor ()
      ensures activeShaderType == Shaded
    {
      activeShaderType := Shaded;
    }

    /** `onGestureUse`: moves to the next shader and returns the name shown
        on the action bar. */
    method OnGestureUse() returns (actionBar: string)
      modifies this
      ensures activeShaderType == NextShader(old(activeShaderType))
      ensures actionBar == ShaderName(activeShaderType)
    {
      var order := Order;
      activeShaderType := order[(IndexOf(activeShaderType) + 1) % |order|];
      actionBar := match activeShaderType
        case Random => "Random"
        case Colored => "Textured"
        case Shaded => "Textured and Shaded";
    }
  }

  /** Three gestures in a row leave the shader as it was and show the names
      of the other two shaders and then its own. */
  method UseThreeTimes(selector: ShaderSelector) returns (shown: seq<string>)
    modifies selector
    ensures selector.activeShaderType == old(selector.activeShaderType)
    ensures shown == [ShaderName(NextShader(old(selector.activeShaderType))),
                      ShaderName(NextShader(NextShader(old(selector.activeShaderType)))),
                      ShaderName(old(selector.activeShaderType))]
  {
    var first := selector.OnGestureUse();
    var second := selector.OnGestureUse();
    var third := selector.OnGestureUse();
    ThreeStepsReturn(old(selector.activeShaderType));
    shown := [first, second, third];
  }

  // ---- commands ----

  const AvailableModels: seq<string> := ["mountainray", "mountainray_juvenile", "utah_teapot", "suzanne"]

  /** What a command asks the host to do besides sending messages. */
  datatype Action = NoAction | SpawnMarker(tag: string) | RemoveAllModels | RemoveModel(name: string)

  datatype Reply = Reply(messages: seq<string>, action: Action)

  const ModelsLine: string := "Available models: " + Join(AvailableModels, ", ")
  const SummonUsage: string := "Usage: /3dsummon <model>"
  const RemoveUsage: string := "Usage: /3dremove <model>"
  const AllHint: string := "Use 'all' to remove all 3D models"
  const PlayersOnly: string := "This command can only be used by players."

  /** The `/3dsummon` executor. Checks run in order: the sender must be a
      player, an argument must be given, and the first argument must name an
      available model; only then is a marker tagged with it spawned. */
  function Summon(isPlayer: bool, args: seq<string>): (r: Reply)
    ensures r.action.SpawnMarker? <==> isPlayer && |args| > 0 && args[0] in AvailableModels
    ensures r.action.SpawnMarker? ==>
              r.action.tag == args[0] && r.messages == ["Summoned " + args[0] + " at your location!"]
    ensures !r.action.RemoveAllModels? && !r.action.RemoveModel?
    ensures !isPlayer ==> r.messages == [PlayersOnly]
    ensures isPlayer && |args| == 0 ==> r.messages == [SummonUsage, ModelsLine]
    ensures isPlayer && |args| > 0 && args[0] !in AvailableModels ==>
              r.messages == ["Unknown model: " + args[0], ModelsLine]
  {
    if !isPlayer then Reply([PlayersOnly], NoAction)
    else if |args| == 0 then Reply([SummonUsage, ModelsLine], NoAction)
    else if args[0] !in AvailableModels then Reply(["Unknown model: " + args[0], ModelsLine], NoAction)
    else Reply(["Summoned " + args[0] + " at your location!"], SpawnMarker(args[0]))
  }

  /** The `/3dremove` executor. `removed` is the number of entities the host
      reports removed. `all` is handled before the model-name check; an empty
      argument list only gets the usage lines. */
  function Remove(args: seq<string>, removed: nat): (r: Reply)
    ensures |args| == 0 ==> r == Reply([RemoveUsage, ModelsLine, AllHint], NoAction)
    ensures |args| > 0 && args[0] == "all" ==>
              r == Reply(["Removed " + Decimal(removed) + " 3D models!"], RemoveAllModels)
    ensures r.action.RemoveModel? <==> |args| > 0 && args[0] in AvailableModels
    ensures r.action.RemoveModel? ==>
              r.action.name == args[0]
              && r.messages == ["Removed " + Decimal(removed) + " " + args[0] + " model(s)!"]
    ensures |args| > 0 && args[0] != "all" && args[0] !in AvailableModels ==>
              r == Reply(["Unknown model: " + args[0], ModelsLine, AllHint], NoAction)
    ensures !r.action.SpawnMarker?
  {
    if |args| == 0 then Reply([RemoveUsage, ModelsLine, AllHint], NoAction)
    else if args[0] == "all" then Reply(["Removed " + Decimal(removed) + " 3D models!"], RemoveAllModels)
    else if args[0] !in AvailableModels then Reply(["Unknown model: " + args[0], ModelsLine, AllHint], NoAction)
    else Reply(["Removed " + Decimal(removed) + " " + args[0] + " model(s)!"], RemoveModel(args[0]))
  }

  /** `all` is never reported as an unknown model. */
  lemma AllNeverUnknown(rest: seq<string>, removed: nat)
    ensures forall m :: m in Remove(["all"] + rest, removed).messages ==> !StartsWith(m, "Unknown model: ")
  {
    var m := "Removed " + Decimal(removed) + " 3D models!";
    assert Remove(["all"] + rest, removed).messages == [m];
    assert m[0] == 'R';
  }

  predicate StartsWith(s: string, prefix: string) {
    |prefix| <= |s| && s[..|prefix|] == prefix
  }

  // ---- tab completion ----

  /** `items.filter { it.startsWith(prefix, true) }`. */
  function FilterByPrefix(items: seq<string>, prefix: string): (r: seq<string>)
    ensures forall x :: multiset(r)[x] == if StartsWithIgnoringCase(x, prefix) then multiset(items)[x] else 0
    ensures forall x :: x in r <==> x in items && StartsWithIgnoringCase(x, prefix)
    ensures Subsequence(r, items)
  {
    if items == [] then []
    else
      var rest := FilterByPrefix(items[1..], prefix);
      assert items == [items[0]] + items[1..];
      assert multiset(items) == multiset{items[0]} + multiset(items[1..]);
      if StartsWithIgnoringCase(items[0], prefix) then
        assert ([items[0]] + rest)[1..] == rest;
        [items[0]] + rest
      else
        SubsequenceDrop(rest, items);
        rest
  }

  /** With no prefix typed, every item is offered. */
  lemma {:induction false} EmptyPrefixKeepsAll(items: seq<string>)
    ensures FilterByPrefix(items, "") == items
  {
    if items != [] {
      EmptyPrefixKeepsAll(items[1..]);
      assert items == [items[0]] + items[1..];
    }
  }

  /** The `/3dsummon` completer: with exactly one argument, the available
      models that start with it, ignoring case, in list order; otherwise
      nothing. */
  function SummonCompletions(args: seq<string>): (r: seq<string>)
    ensures |args| != 1 ==> r == []
    ensures |args| == 1 ==>
              (forall x :: x in r <==> x in AvailableModels && StartsWithIgnoringCase(x, args[0]))
              && Subsequence(r, AvailableModels)
  {
    if |args| == 1 then FilterByPrefix(AvailableModels, args[0]) else []
  }

  /** The `/3dremove` completer: the same filter over `all` followed by the
      models. */
  function RemoveCompletions(args: seq<string>): (r: seq<string>)
    ensures |args| != 1 ==> r == []
    ensures |args| == 1 ==>
              (forall x :: x in r <==> x in ["all"] + AvailableModels && StartsWithIgnoringCase(x, args[0]))
              && Subsequence(r, ["all"] + AvailableModels)
  {
    if |args| == 1 then
      var options := ["all"] + AvailableModels;
      FilterByPrefix(options, args[0])
    else []
  }

  /** A subsequence of a list whose head occurs nowhere else starts with that
      head whenever it contains it. */
  lemma {:induction false} HeadStaysFirst(r: seq<string>, head: string, tail: seq<string>)
    requires head !in tail && Subsequence(r, [head] + tail) && head in r
    ensures r[0] == head
  {
    var items := [head] + tail;
    assert items[1..] == tail;
    if r[0] != head {
      assert Subsequence(r, tail);
      SubsequenceMembers(r, tail);
      assert false;
    }
  }

  /** `all` is offered first whenever it matches what was typed. */
  lemma AllOfferedFirst(typed: string)
    requires StartsWithIgnoringCase("all", typed)
    ensures var r := RemoveCompletions([typed]);
            r != [] && r[0] == "all"
  {
    var r := RemoveCompletions([typed]);
    assert "all" in r;
    HeadStaysFirst(r, "all", AvailableModels);
  }

  /** Typing nothing offers every model to `/3dsummon`, and `all` then every
      model to `/3dremove`. */
  lemma EmptyArgumentOffersEverything()
    ensures SummonCompletions([""]) == AvailableModels
    ensures RemoveCompletions([""]) == ["all"] + AvailableModels
  {
    EmptyPrefixKeepsAll(AvailableModels);
    EmptyPrefixKeepsAll(["all"] + AvailableModels);
  }
}
