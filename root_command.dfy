/** RootCommand: a node with an ordered list of children and a map from
    each child's name and aliases to the child. It filters the children a
    sender may use, dispatches a command line one token per level and
    completes the token being typed. */
module RootCommand {
  import opened Wrappers
  import opened Strings
  import opened Outcomes
  import opened Sequences
  import opened SimpleCommand
  import SimpleParsedCommand

  /** Indices all inside the arena. */
  predicate InArena(nodes: seq<Node>, cs: seq<nat>)
  {
    forall k | 0 <= k < |cs| :: cs[k] < |nodes|
  }

  /** checkPermission as dispatched on the node's class: RootCommand's
      override lets a node with registered children through; every other
      node, and a root with an empty map, uses the resolved permission. */
  function CheckPermission(nodes: seq<Node>, i: nat, sender: Sender): (r: Result<bool, Fault>)
    requires Indexed(nodes) && i < |nodes|
    ensures nodes[i].kind.Root? && |nodes[i].kind.commandMap| != 0 ==> r == Ok(true)
    ensures !(nodes[i].kind.Root? && |nodes[i].kind.commandMap| != 0) ==> r == SimpleCommand.CheckPermission(nodes, i, sender)
  {
    if nodes[i].kind.Root? && |nodes[i].kind.commandMap| != 0 then Ok(true)
    else SimpleCommand.CheckPermission(nodes, i, sender)
  }

  /** isAllowed with at most `fuel` nested levels: a leaf (SimpleCommand's
      isAllowed) and a root without children check their permission; a
      root with children is allowed iff some child is, asked in order and
      stopping at the first that is. Player-only flags are not consulted. */
  function IsAllowed(nodes: seq<Node>, i: nat, sender: Sender, fuel: nat): Result<bool, Fault>
    requires Indexed(nodes) && i < |nodes|
    decreases fuel, 1, 0
  {
    match nodes[i].kind
    case Root(subs, _, _) =>
      assert InArena(nodes, subs) by {
        forall k | 0 <= k < |subs| ensures subs[k] < |nodes| {
          assert subs[k] in subs;
        }
      }
      if |subs| == 0 then CheckPermission(nodes, i, sender) else AnyAllowed(nodes, subs, sender, fuel)
    case _ => SimpleCommand.CheckPermission(nodes, i, sender)
  }

  /** stream().anyMatch(cmd -> cmd.isAllowed(sender)). */
  function AnyAllowed(nodes: seq<Node>, cs: seq<nat>, sender: Sender, fuel: nat): Result<bool, Fault>
    requires Indexed(nodes) && InArena(nodes, cs)
    decreases fuel, 0, |cs|
  {
    if |cs| == 0 then Ok(false)
    else if fuel == 0 then Err(StackOverflow)
    else
      match IsAllowed(nodes, cs[0], sender, fuel - 1)
      case Err(e) => Err(e)
      case Ok(true) => Ok(true)
      case Ok(false) => AnyAllowed(nodes, cs[1..], sender, fuel)
  }

  function Allowed(nodes: seq<Node>, i: nat, sender: Sender): Result<bool, Fault>
    requires Indexed(nodes) && i < |nodes|
  {
    IsAllowed(nodes, i, sender, |nodes|)
  }

  /** Children 0 .. k-1 of `cs` are all not allowed. */
  predicate NoneAllowedBefore(nodes: seq<Node>, cs: seq<nat>, sender: Sender, f: nat, k: nat)
    requires Indexed(nodes) && InArena(nodes, cs) && k <= |cs|
  {
    forall j | 0 <= j < k :: IsAllowed(nodes, cs[j], sender, f) == Ok(false)
  }

  /** Child k is the first allowed one. */
  predicate FirstAllowed(nodes: seq<Node>, cs: seq<nat>, sender: Sender, f: nat, k: nat)
    requires Indexed(nodes) && InArena(nodes, cs)
  {
    k < |cs| && IsAllowed(nodes, cs[k], sender, f) == Ok(true) && NoneAllowedBefore(nodes, cs, sender, f, k)
  }

  /** Helper: the first allowed child of the tail is one further on. */
  lemma FirstAllowedShift(nodes: seq<Node>, cs: seq<nat>, sender: Sender, f: nat, k: nat)
    requires Indexed(nodes) && InArena(nodes, cs) && |cs| > 0
    ensures InArena(nodes, cs[1..])
    ensures FirstAllowed(nodes, cs, sender, f, k + 1)
        <==> IsAllowed(nodes, cs[0], sender, f) == Ok(false) && FirstAllowed(nodes, cs[1..], sender, f, k)
  {
    assert InArena(nodes, cs[1..]) by {
      forall j | 0 <= j < |cs[1..]| ensures cs[1..][j] < |nodes| { assert cs[1..][j] == cs[j + 1]; }
    }
    if k + 1 < |cs| {
      if NoneAllowedBefore(nodes, cs, sender, f, k + 1) {
        forall j | 0 <= j < k ensures IsAllowed(nodes, cs[1..][j], sender, f) == Ok(false) {
          assert cs[1..][j] == cs[j + 1];
        }
      }
      if IsAllowed(nodes, cs[0], sender, f) == Ok(false) && NoneAllowedBefore(nodes, cs[1..], sender, f, k) {
        forall j | 0 <= j < k + 1 ensures IsAllowed(nodes, cs[j], sender, f) == Ok(false) {
          if j > 0 { assert cs[j] == cs[1..][j - 1]; }
        }
      }
      assert cs[1..][k] == cs[k + 1];
    }
  }

  /** anyMatch (with stack left for one more level) is true iff some
      child is the first allowed one. */
  lemma {:induction false} AnyAllowedTrueIff(nodes: seq<Node>, cs: seq<nat>, sender: Sender, f: nat)
    requires Indexed(nodes) && InArena(nodes, cs)
    ensures AnyAllowed(nodes, cs, sender, f + 1) == Ok(true) <==> exists k: nat :: FirstAllowed(nodes, cs, sender, f, k)
    decreases |cs|
  {
    if |cs| != 0 {
      FirstAllowedShift(nodes, cs, sender, f, 0);
      AnyAllowedTrueIff(nodes, cs[1..], sender, f);
      var r0 := IsAllowed(nodes, cs[0], sender, f);
      if r0 == Ok(true) {
        assert FirstAllowed(nodes, cs, sender, f, 0);
      } else {
        if exists k: nat :: FirstAllowed(nodes, cs, sender, f, k) {
          var k: nat :| FirstAllowed(nodes, cs, sender, f, k);
          assert k != 0;
          FirstAllowedShift(nodes, cs, sender, f, k - 1);
          assert r0 == Ok(false);
        }
        if r0 == Ok(false) && exists k: nat :: FirstAllowed(nodes, cs[1..], sender, f, k) {
          var k: nat :| FirstAllowed(nodes, cs[1..], sender, f, k);
          FirstAllowedShift(nodes, cs, sender, f, k);
        }
      }
    }
  }

  /** anyMatch (with stack left for one more level) is false iff no child
      is allowed; without stack left it overflows on the first child. */
  lemma {:induction false} AnyAllowedFalseIff(nodes: seq<Node>, cs: seq<nat>, sender: Sender, f: nat)
    requires Indexed(nodes) && InArena(nodes, cs)
    ensures AnyAllowed(nodes, cs, sender, f + 1) == Ok(false) <==> NoneAllowedBefore(nodes, cs, sender, f, |cs|)
    ensures |cs| > 0 ==> AnyAllowed(nodes, cs, sender, 0) == Err(StackOverflow)
    decreases |cs|
  {
    if |cs| != 0 {
      var tail := cs[1..];
      FirstAllowedShift(nodes, cs, sender, f, 0);
      AnyAllowedFalseIff(nodes, tail, sender, f);
      if NoneAllowedBefore(nodes, cs, sender, f, |cs|) {
        assert IsAllowed(nodes, cs[0], sender, f) == Ok(false);
        forall j | 0 <= j < |tail| ensures IsAllowed(nodes, tail[j], sender, f) == Ok(false) {
          assert tail[j] == cs[j + 1];
        }
      }
      if IsAllowed(nodes, cs[0], sender, f) == Ok(false) && NoneAllowedBefore(nodes, tail, sender, f, |tail|) {
        forall j | 0 <= j < |cs| ensures IsAllowed(nodes, cs[j], sender, f) == Ok(false) {
          if j > 0 { assert cs[j] == tail[j - 1]; }
        }
      }
    }
  }

  /** When no child's check fails, a root with children is allowed iff
      one of its children is. */
  lemma RootAllowedIffSomeChild(nodes: seq<Node>, i: nat, sender: Sender, f: nat)
    requires Indexed(nodes) && i < |nodes| && nodes[i].kind.Root? && |nodes[i].kind.subCommands| > 0
    requires InArena(nodes, nodes[i].kind.subCommands)
    requires forall k | 0 <= k < |nodes[i].kind.subCommands| :: IsAllowed(nodes, nodes[i].kind.subCommands[k], sender, f).Ok?
    ensures IsAllowed(nodes, i, sender, f + 1)
         == Ok(exists k | 0 <= k < |nodes[i].kind.subCommands| :: IsAllowed(nodes, nodes[i].kind.subCommands[k], sender, f) == Ok(true))
  {
    var subs := nodes[i].kind.subCommands;
    AnyAllowedTrueIff(nodes, subs, sender, f);
    AnyAllowedFalseIff(nodes, subs, sender, f);
    if exists k | 0 <= k < |subs| :: IsAllowed(nodes, subs[k], sender, f) == Ok(true) {
      var k :| 0 <= k < |subs| && IsAllowed(nodes, subs[k], sender, f) == Ok(true);
      FirstWitness(nodes, subs, sender, f, k);
      assert IsAllowed(nodes, i, sender, f + 1) == Ok(true);
    } else {
      forall j | 0 <= j < |subs| ensures IsAllowed(nodes, subs[j], sender, f) == Ok(false) {
        var r := IsAllowed(nodes, subs[j], sender, f);
        assert r.Ok? && r != Ok(true);
        assert !r.value;
      }
      assert IsAllowed(nodes, i, sender, f + 1) == Ok(false);
    }
  }

  /** Helper: an allowed child at position k means a first allowed one. */
  lemma {:induction false} FirstWitness(nodes: seq<Node>, cs: seq<nat>, sender: Sender, f: nat, k: nat)
    requires Indexed(nodes) && InArena(nodes, cs)
    requires forall j | 0 <= j < |cs| :: IsAllowed(nodes, cs[j], sender, f).Ok?
    requires k < |cs| && IsAllowed(nodes, cs[k], sender, f) == Ok(true)
    ensures exists m: nat :: FirstAllowed(nodes, cs, sender, f, m)
    decreases k
  {
    if exists j | 0 <= j < k :: IsAllowed(nodes, cs[j], sender, f) == Ok(true) {
      var j :| 0 <= j < k && IsAllowed(nodes, cs[j], sender, f) == Ok(true);
      FirstWitness(nodes, cs, sender, f, j);
    } else {
      forall j | 0 <= j < k ensures IsAllowed(nodes, cs[j], sender, f) == Ok(false) {
        var r := IsAllowed(nodes, cs[j], sender, f);
        assert r.Ok? && r != Ok(true);
        assert !r.value;
      }
      assert FirstAllowed(nodes, cs, sender, f, k);
    }
  }

  // ---------------------------------------------------------------------
  // getSubCommands(sender)

  /** The children in `cs` the sender may use, in order: skipped when
      player-only for a non-player, kept when isAllowed holds. */
  function Filter(nodes: seq<Node>, cs: seq<nat>, sender: Sender): Result<seq<nat>, Fault>
    requires Indexed(nodes) && InArena(nodes, cs)
    decreases |cs|
  {
    if |cs| == 0 then Ok([])
    else
      match Filter(nodes, cs[..|cs| - 1], sender)
      case Err(e) => Err(e)
      case Ok(kept) =>
        var c := cs[|cs| - 1];
        if !IsAllowedSender(nodes[c], sender) then Ok(kept)
        else
          match Allowed(nodes, c, sender)
          case Err(e) => Err(e)
          case Ok(b) => Ok(if b then kept + [c] else kept)
  }

  /** A child is offered to the sender: usable by it and allowed. */
  predicate Offered(nodes: seq<Node>, c: nat, sender: Sender)
    requires Indexed(nodes) && c < |nodes|
  {
    IsAllowedSender(nodes[c], sender) && Allowed(nodes, c, sender) == Ok(true)
  }

  /** The filter keeps, in order, exactly the offered children; it fails
      iff the check of a child usable by the sender fails. */
  lemma {:induction false} FilterSpec(nodes: seq<Node>, cs: seq<nat>, sender: Sender)
    requires Indexed(nodes) && InArena(nodes, cs)
    ensures Filter(nodes, cs, sender).Ok?
        <==> forall k | 0 <= k < |cs| :: IsAllowedSender(nodes[cs[k]], sender) ==> Allowed(nodes, cs[k], sender).Ok?
    ensures Filter(nodes, cs, sender).Ok? ==>
      var kept := Filter(nodes, cs, sender).value;
      Subsequence(kept, cs)
      && InArena(nodes, kept)
      && forall c :: c in kept <==> c in cs && Offered(nodes, c, sender)
    decreases |cs|
  {
    if |cs| != 0 {
      var init := cs[..|cs| - 1];
      var c := cs[|cs| - 1];
      assert InArena(nodes, init);
      FilterSpec(nodes, init, sender);
      assert cs == init + [c];
      match Filter(nodes, init, sender)
      case Err(_) =>
        assert !(forall k | 0 <= k < |cs| :: IsAllowedSender(nodes[cs[k]], sender) ==> Allowed(nodes, cs[k], sender).Ok?) by {
          var k :| 0 <= k < |init| && IsAllowedSender(nodes[init[k]], sender) && !Allowed(nodes, init[k], sender).Ok?;
          assert cs[k] == init[k];
        }
      case Ok(kept) =>
        if IsAllowedSender(nodes[c], sender) && Allowed(nodes, c, sender).Ok? && Allowed(nodes, c, sender).value {
          SubsequenceKeep(kept, init, c);
        } else {
          if IsAllowedSender(nodes[c], sender) ==> Allowed(nodes, c, sender).Ok? {
            SubsequenceSkip(kept, init, c);
          }
        }
        if forall k | 0 <= k < |init| :: IsAllowedSender(nodes[init[k]], sender) ==> Allowed(nodes, init[k], sender).Ok? {
          if IsAllowedSender(nodes[c], sender) ==> Allowed(nodes, c, sender).Ok? {
            forall k | 0 <= k < |cs| ensures IsAllowedSender(nodes[cs[k]], sender) ==> Allowed(nodes, cs[k], sender).Ok? {
              if k < |init| { assert cs[k] == init[k]; }
            }
          }
        }
    }
  }

  /** The children of a root are nodes of the arena. */
  lemma ChildrenInArena(nodes: seq<Node>, i: nat)
    requires Indexed(nodes) && i < |nodes| && nodes[i].kind.Root?
    ensures InArena(nodes, nodes[i].kind.subCommands)
  {
    var subs := nodes[i].kind.subCommands;
    forall k | 0 <= k < |subs| ensures subs[k] < |nodes| {
      assert subs[k] in subs;
    }
  }

  /** Once the filter failed on a prefix, it fails with the same fault. */
  lemma {:induction false} FilterErrPersists(nodes: seq<Node>, cs: seq<nat>, sender: Sender, k: nat)
    requires Indexed(nodes) && InArena(nodes, cs) && k <= |cs|
    requires InArena(nodes, cs[..k]) && Filter(nodes, cs[..k], sender).Err?
    ensures Filter(nodes, cs, sender) == Filter(nodes, cs[..k], sender)
    decreases |cs|
  {
    if k < |cs| {
      var init := cs[..|cs| - 1];
      assert init[..k] == cs[..k];
      assert InArena(nodes, init);
      FilterErrPersists(nodes, init, sender, k);
    } else {
      assert cs[..k] == cs;
    }
  }

  /** getSubCommands(sender) of a root. */
  function SubCommands(nodes: seq<Node>, i: nat, sender: Sender): Result<seq<nat>, Fault>
    requires Indexed(nodes) && i < |nodes| && nodes[i].kind.Root?
  {
    ChildrenInArena(nodes, i);
    Filter(nodes, nodes[i].kind.subCommands, sender)
  }

  /** getSubCommands(sender) as the source runs it: a loop over the
      children appending the ones that pass. */
  method GetSubCommands(nodes: seq<Node>, i: nat, sender: Sender) returns (r: Result<seq<nat>, Fault>)
    requires Indexed(nodes) && i < |nodes| && nodes[i].kind.Root?
    ensures r == SubCommands(nodes, i, sender)
  {
    var subs := nodes[i].kind.subCommands;
    ChildrenInArena(nodes, i);
    var commands: seq<nat> := [];
    for k := 0 to |subs|
      invariant InArena(nodes, subs[..k])
      invariant Filter(nodes, subs[..k], sender) == Ok(commands)
    {
      assert subs[..k + 1][..k] == subs[..k];
      var cmd := subs[k];
      if nodes[cmd].playerOnly && !sender.isPlayer {
        continue;
      }
      var allowed := Allowed(nodes, cmd, sender);
      if allowed.Err? {
        assert InArena(nodes, subs[..k + 1]);
        FilterErrPersists(nodes, subs, sender, k + 1);
        return Err(allowed.error);
      }
      if !allowed.value {
        continue;
      }
      commands := commands + [cmd];
    }
    assert subs[..|subs|] == subs;
    return Ok(commands);
  }

  /** removeIf(SimpleCommand::isHidden). */
  function Visible(nodes: seq<Node>, cs: seq<nat>): seq<nat>
    requires InArena(nodes, cs)
    decreases |cs|
  {
    if |cs| == 0 then []
    else
      assert InArena(nodes, cs[..|cs| - 1]);
      Visible(nodes, cs[..|cs| - 1]) + (if nodes[cs[|cs| - 1]].hidden then [] else [cs[|cs| - 1]])
  }

  /** removeIf keeps the order and exactly the children not hidden. */
  lemma {:induction false} VisibleSpec(nodes: seq<Node>, cs: seq<nat>)
    requires InArena(nodes, cs)
    ensures Subsequence(Visible(nodes, cs), cs)
    ensures forall c :: c in Visible(nodes, cs) <==> c in cs && c < |nodes| && !nodes[c].hidden
    decreases |cs|
  {
    if |cs| != 0 {
      var init := cs[..|cs| - 1];
      var last := cs[|cs| - 1];
      assert InArena(nodes, init);
      VisibleSpec(nodes, init);
      assert cs == init + [last];
      var v := Visible(nodes, init);
      assert Visible(nodes, cs) == v + (if nodes[last].hidden then [] else [last]);
      if nodes[last].hidden {
        assert Visible(nodes, cs) == v;
        SubsequenceSkip(v, init, last);
      } else {
        assert Visible(nodes, cs) == v + [last];
        SubsequenceKeep(v, init, last);
      }
      forall c ensures c in Visible(nodes, cs) <==> c in cs && c < |nodes| && !nodes[c].hidden {
        if c in cs && c != last {
          var k :| 0 <= k < |cs| && cs[k] == c;
          assert k < |init| && init[k] == c;
        }
      }
    }
  }

  // ---------------------------------------------------------------------
  // onCommand

  /** The node runs its own onCommand: a leaf, or a root whose subclass
      overrides onCommand. */
  predicate Executes(n: Node)
  {
    n.kind.Leaf? || (n.kind.Root? && n.kind.overridesOnCommand)
  }

  /** onCommand of node i, as dispatched on its class. */
  function OnCommand(nodes: seq<Node>, i: nat, sender: Sender, tokens: seq<string>, host: SimpleParsedCommand.HostParse): Result<Outcome, Fault>
    requires Indexed(nodes) && i < |nodes|
    decreases |tokens|, 1
  {
    match nodes[i].kind
    case Leaf => Ok(Ran(i, tokens))
    case ParsedLeaf(args) => SimpleParsedCommand.OnCommand(i, args, tokens, host)
    case Root(_, _, overrides) => if overrides then Ok(Ran(i, tokens)) else RootOnCommand(nodes, i, sender, tokens, host)
  }

  /** RootCommand.onCommand: an empty map is a configuration error (whose
      message needs the full name); a player-only root refuses a
      non-player; without tokens the offered children are listed, or
      NO_PERMISSION when there are none; an unknown first token is
      reported; a matched child is checked for player-only, then for
      permission, and receives the remaining tokens. */
  function RootOnCommand(nodes: seq<Node>, i: nat, sender: Sender, tokens: seq<string>, host: SimpleParsedCommand.HostParse): Result<Outcome, Fault>
    requires Indexed(nodes) && i < |nodes| && nodes[i].kind.Root?
    decreases |tokens|, 0
  {
    var cmap := nodes[i].kind.commandMap;
    if |cmap| == 0 then
      (match FullName(nodes, i, NoAlias)
       case Err(e) => Err(e)
       case Ok(_) => Err(NoSubCommands))
    else if !IsAllowedSender(nodes[i], sender) then Ok(Sent(PlayerOnly))
    else if |tokens| == 0 then
      (match SubCommands(nodes, i, sender)
       case Err(e) => Err(e)
       case Ok(subs) =>
         if |subs| == 0 then Ok(Sent(NoPermission))
         else
           ChildrenInArena(nodes, i);
           FilterSpec(nodes, nodes[i].kind.subCommands, sender);
           match HelpFormatter(nodes, i)
           case Err(e) => Err(e)
           case Ok(f) => Ok(Help(f, Visible(nodes, subs))))
    else if tokens[0] !in cmap then Ok(Sent(UnknownArgument(tokens[0])))
    else
      var c := cmap[tokens[0]];
      if !IsAllowedSender(nodes[c], sender) then Ok(Sent(PlayerOnly))
      else
        match CheckPermission(nodes, c, sender)
        case Err(e) => Err(e)
        case Ok(false) => Ok(Sent(NoPermission))
        case Ok(true) => OnCommand(nodes, c, sender, tokens[1..], host)
  }

  /** The tokens `consumed` lead from node i to node j: at every step the
      node is a dispatching root usable by the sender, the token is a key
      of its map (exact, case-sensitive), and the child it maps to is
      usable by the sender and passes checkPermission. */
  predicate Route(nodes: seq<Node>, i: nat, sender: Sender, consumed: seq<string>, j: nat)
    requires Indexed(nodes) && i < |nodes|
    decreases |consumed|
  {
    if |consumed| == 0 then i == j
    else
      var n := nodes[i];
      n.kind.Root? && !n.kind.overridesOnCommand && IsAllowedSender(n, sender)
      && consumed[0] in n.kind.commandMap
      && var c := n.kind.commandMap[consumed[0]];
         IsAllowedSender(nodes[c], sender) && CheckPermission(nodes, c, sender) == Ok(true)
         && Route(nodes, c, sender, consumed[1..], j)
  }

  /** A node's own code runs only at the end of a route: the tokens it
      receives are what is left after the route's tokens, and every node on
      the way let the sender through. */
  lemma {:induction false} RunsOnlyAlongRoute(nodes: seq<Node>, i: nat, sender: Sender, tokens: seq<string>, host: SimpleParsedCommand.HostParse)
    requires Indexed(nodes) && i < |nodes|
    requires var r := OnCommand(nodes, i, sender, tokens, host); r.Ok? && (r.value.Ran? || r.value.RanParsed?)
    ensures var o := OnCommand(nodes, i, sender, tokens, host).value;
      |o.args| <= |tokens| && tokens[|tokens| - |o.args|..] == o.args
      && o.node < |nodes|
      && Route(nodes, i, sender, tokens[..|tokens| - |o.args|], o.node)
      && (o.Ran? ==> Executes(nodes[o.node]))
      && (o.RanParsed? ==> nodes[o.node].kind.ParsedLeaf?)
    decreases |tokens|
  {
    var o := OnCommand(nodes, i, sender, tokens, host).value;
    var n := nodes[i];
    if Executes(n) || n.kind.ParsedLeaf? {
      if n.kind.ParsedLeaf? {
        ParsedRunsHere(i, n.kind.arguments, tokens, host);
      }
      assert tokens[..0] == [];
    } else {
      var cmap := n.kind.commandMap;
      var c := cmap[tokens[0]];
      RunsOnlyAlongRoute(nodes, c, sender, tokens[1..], host);
      var rest := tokens[1..];
      assert OnCommand(nodes, c, sender, rest, host).value == o;
      assert tokens[..|tokens| - |o.args|][1..] == rest[..|rest| - |o.args|];
      assert tokens[..|tokens| - |o.args|][0] == tokens[0];
      assert tokens[|tokens| - |o.args|..] == rest[|rest| - |o.args|..];
    }
  }

  /** Helper: a parsed command that runs is the node itself, with all its
      tokens. */
  lemma ParsedRunsHere(i: nat, args: seq<SimpleCommandArgument.Argument>, tokens: seq<string>, host: SimpleParsedCommand.HostParse)
    requires var r := SimpleParsedCommand.OnCommand(i, args, tokens, host); r.Ok? && (r.value.Ran? || r.value.RanParsed?)
    ensures SimpleParsedCommand.OnCommand(i, args, tokens, host).value.RanParsed?
    ensures SimpleParsedCommand.OnCommand(i, args, tokens, host).value.node == i
    ensures SimpleParsedCommand.OnCommand(i, args, tokens, host).value.args == tokens
  {
    SimpleParsedCommand.OnCommandOutcomes(i, args, tokens, host);
  }

  /** Conversely, dispatch along a route is dispatch at its end with the
      tokens after the route, whatever that node is; a node that runs its
      own code runs there. */
  lemma {:induction false} RouteRuns(nodes: seq<Node>, i: nat, sender: Sender, consumed: seq<string>, rest: seq<string>, j: nat, host: SimpleParsedCommand.HostParse)
    requires Indexed(nodes) && i < |nodes| && j < |nodes|
    requires Route(nodes, i, sender, consumed, j)
    ensures OnCommand(nodes, i, sender, consumed + rest, host) == OnCommand(nodes, j, sender, rest, host)
    ensures Executes(nodes[j]) ==> OnCommand(nodes, i, sender, consumed + rest, host) == Ok(Ran(j, rest))
    decreases |consumed|
  {
    if |consumed| != 0 {
      var c := nodes[i].kind.commandMap[consumed[0]];
      assert (consumed + rest)[0] == consumed[0];
      assert (consumed + rest)[1..] == consumed[1..] + rest;
      RouteRuns(nodes, c, sender, consumed[1..], rest, j, host);
    } else {
      assert consumed + rest == rest;
    }
  }

  /** The order of the checks at a dispatching root, each ending the
      dispatch with exactly one message. */
  lemma CheckOrder(nodes: seq<Node>, i: nat, sender: Sender, tokens: seq<string>, host: SimpleParsedCommand.HostParse)
    requires Indexed(nodes) && i < |nodes| && nodes[i].kind.Root? && !nodes[i].kind.overridesOnCommand
    ensures |nodes[i].kind.commandMap| == 0 ==>
      OnCommand(nodes, i, sender, tokens, host) in {Err(NoSubCommands), Err(EndlessLoop)}
    ensures |nodes[i].kind.commandMap| != 0 && !IsAllowedSender(nodes[i], sender) ==>
      OnCommand(nodes, i, sender, tokens, host) == Ok(Sent(PlayerOnly))
    ensures |nodes[i].kind.commandMap| != 0 && IsAllowedSender(nodes[i], sender) && |tokens| > 0
            && tokens[0] !in nodes[i].kind.commandMap ==>
      OnCommand(nodes, i, sender, tokens, host) == Ok(Sent(UnknownArgument(tokens[0])))
    ensures |nodes[i].kind.commandMap| != 0 && IsAllowedSender(nodes[i], sender) && |tokens| > 0
            && tokens[0] in nodes[i].kind.commandMap && !IsAllowedSender(nodes[nodes[i].kind.commandMap[tokens[0]]], sender) ==>
      OnCommand(nodes, i, sender, tokens, host) == Ok(Sent(PlayerOnly))
    ensures |nodes[i].kind.commandMap| != 0 && IsAllowedSender(nodes[i], sender) && |tokens| > 0
            && tokens[0] in nodes[i].kind.commandMap
            && IsAllowedSender(nodes[nodes[i].kind.commandMap[tokens[0]]], sender)
            && SimpleCommand.CheckPermission(nodes, nodes[i].kind.commandMap[tokens[0]], sender) == Ok(false)
            && !RoutesFurther(nodes[nodes[i].kind.commandMap[tokens[0]]]) ==>
      OnCommand(nodes, i, sender, tokens, host) == Ok(Sent(NoPermission))
  {
  }

  /** A root with registered children, which always passes checkPermission. */
  predicate RoutesFurther(n: Node)
  {
    n.kind.Root? && |n.kind.commandMap| != 0
  }

  /** Without tokens a dispatching root shows help iff some child is
      offered, and then with the formatter getHelpFormatter returns; the
      list holds the offered children that are not hidden, in registration
      order, and may be empty when all of them are hidden. */
  lemma HelpListing(nodes: seq<Node>, i: nat, sender: Sender, host: SimpleParsedCommand.HostParse)
    requires Indexed(nodes) && i < |nodes| && nodes[i].kind.Root? && !nodes[i].kind.overridesOnCommand
    requires |nodes[i].kind.commandMap| != 0 && IsAllowedSender(nodes[i], sender)
    requires SubCommands(nodes, i, sender).Ok? && HelpFormatter(nodes, i).Ok?
    ensures var subs := SubCommands(nodes, i, sender).value;
      |subs| == 0 <==> OnCommand(nodes, i, sender, [], host) == Ok(Sent(NoPermission))
    ensures |SubCommands(nodes, i, sender).value| != 0 ==>
      var r := OnCommand(nodes, i, sender, [], host);
      r.Ok? && r.value.Help? && r.value.formatter == HelpFormatter(nodes, i).value
    ensures var r := OnCommand(nodes, i, sender, [], host);
      r.Ok? && r.value.Help? ==>
        Subsequence(r.value.commands, nodes[i].kind.subCommands)
        && forall c :: c in r.value.commands <==> c in nodes[i].kind.subCommands && Offered(nodes, c, sender) && !nodes[c].hidden
  {
    var subsAll := nodes[i].kind.subCommands;
    ChildrenInArena(nodes, i);
    FilterSpec(nodes, subsAll, sender);
    var subs := SubCommands(nodes, i, sender).value;
    if |subs| != 0 {
      VisibleSpec(nodes, subs);
      SubsequenceTrans(Visible(nodes, subs), subs, subsAll);
    }
  }

  // ---------------------------------------------------------------------
  // onTabComplete

  /** The hints of the children `cs` for the token: each child not hidden
      contributes its getTabCompletions, in order. */
  function Hints(nodes: seq<Node>, cs: seq<nat>, prefix: string): seq<string>
    requires InArena(nodes, cs)
    decreases |cs|
  {
    if |cs| == 0 then []
    else
      assert InArena(nodes, cs[..|cs| - 1]);
      var c := cs[|cs| - 1];
      Hints(nodes, cs[..|cs| - 1], prefix) + (if nodes[c].hidden then [] else TabCompletions(nodes[c], prefix))
  }

  /** getTabCompletions of the node offers its name for the token. */
  predicate Matches(n: Node, prefix: string)
  {
    StartsWith(n.name, prefix) || exists k | 0 <= k < |n.aliases| :: StartsWith(n.aliases[k], prefix)
  }

  /** A hint is the name of a child that is not hidden and whose name or
      one of whose aliases starts with the token. */
  lemma {:induction false} HintsSpec(nodes: seq<Node>, cs: seq<nat>, prefix: string)
    requires InArena(nodes, cs)
    ensures forall x ::
              x in Hints(nodes, cs, prefix) <==>
              (exists k | 0 <= k < |cs| :: !nodes[cs[k]].hidden && Matches(nodes[cs[k]], prefix) && x == nodes[cs[k]].name)
    decreases |cs|
  {
    if |cs| != 0 {
      var init := cs[..|cs| - 1];
      var last := |cs| - 1;
      var n := nodes[cs[last]];
      assert InArena(nodes, init);
      HintsSpec(nodes, init, prefix);
      TabCompletionsSpec(n, prefix);
      var tail := if n.hidden then [] else TabCompletions(n, prefix);
      assert Hints(nodes, cs, prefix) == Hints(nodes, init, prefix) + tail;
      forall x
        ensures x in Hints(nodes, cs, prefix) <==>
                (exists k | 0 <= k < |cs| :: !nodes[cs[k]].hidden && Matches(nodes[cs[k]], prefix) && x == nodes[cs[k]].name)
      {
        if x in Hints(nodes, init, prefix) {
          var k :| 0 <= k < |init| && !nodes[init[k]].hidden && Matches(nodes[init[k]], prefix) && x == nodes[init[k]].name;
          assert cs[k] == init[k];
        } else if x in tail {
          assert !nodes[cs[last]].hidden && Matches(nodes[cs[last]], prefix) && x == nodes[cs[last]].name;
        }
        if exists k | 0 <= k < |cs| :: !nodes[cs[k]].hidden && Matches(nodes[cs[k]], prefix) && x == nodes[cs[k]].name {
          var k :| 0 <= k < |cs| && !nodes[cs[k]].hidden && Matches(nodes[cs[k]], prefix) && x == nodes[cs[k]].name;
          if k < last {
            assert init[k] == cs[k];
          } else {
            assert x in tail;
          }
        }
      }
    }
  }

  /** onTabComplete of node i: a plain leaf offers nothing; a parsed
      command completes its argument; a root returns null without tokens,
      the hints of its offered children for one token, and otherwise
      follows the exactly matched child (null when there is none) without
      checking it. */
  function OnTabComplete(nodes: seq<Node>, i: nat, sender: Sender, tokens: seq<string>, host: SimpleParsedCommand.HostComplete): Result<Option<seq<string>>, Fault>
    requires Indexed(nodes) && i < |nodes|
    decreases |tokens|
  {
    match nodes[i].kind
    case Leaf => Ok(Some([]))
    case ParsedLeaf(args) =>
      (match SimpleParsedCommand.OnTabComplete(args, tokens, host)
       case Err(e) => Err(e)
       case Ok(hints) => Ok(Some(hints)))
    case Root(_, cmap, _) =>
      if |tokens| == 0 then Ok(None)
      else if |tokens| == 1 then
        (match SubCommands(nodes, i, sender)
         case Err(e) => Err(e)
         case Ok(subs) =>
           ChildrenInArena(nodes, i);
           FilterSpec(nodes, nodes[i].kind.subCommands, sender);
           Ok(Some(Hints(nodes, subs, tokens[0]))))
      else if tokens[0] !in cmap then Ok(None)
      else OnTabComplete(nodes, cmap[tokens[0]], sender, tokens[1..], host)
  }

  /** With one token, a root's hints are the names of its offered, visible
      children whose name or an alias starts with the token. */
  lemma RootHints(nodes: seq<Node>, i: nat, sender: Sender, token: string, host: SimpleParsedCommand.HostComplete)
    requires Indexed(nodes) && i < |nodes| && nodes[i].kind.Root?
    requires OnTabComplete(nodes, i, sender, [token], host).Ok?
    ensures var r := OnTabComplete(nodes, i, sender, [token], host).value;
      r.Some? && forall x ::
                   x in r.value <==>
                   (exists c | c in nodes[i].kind.subCommands && c < |nodes| ::
                      Offered(nodes, c, sender) && !nodes[c].hidden && Matches(nodes[c], token) && x == nodes[c].name)
  {
    var subsAll := nodes[i].kind.subCommands;
    ChildrenInArena(nodes, i);
    FilterSpec(nodes, subsAll, sender);
    var subs := SubCommands(nodes, i, sender).value;
    HintsSpec(nodes, subs, token);
    forall x
      ensures x in Hints(nodes, subs, token) <==>
              (exists c | c in subsAll && c < |nodes| ::
                 Offered(nodes, c, sender) && !nodes[c].hidden && Matches(nodes[c], token) && x == nodes[c].name)
    {
      if x in Hints(nodes, subs, token) {
        var k :| 0 <= k < |subs| && !nodes[subs[k]].hidden && Matches(nodes[subs[k]], token) && x == nodes[subs[k]].name;
        assert subs[k] in subs;
      }
      if exists c | c in subsAll && c < |nodes| ::
           Offered(nodes, c, sender) && !nodes[c].hidden && Matches(nodes[c], token) && x == nodes[c].name {
        var c :| c in subsAll && c < |nodes| && Offered(nodes, c, sender) && !nodes[c].hidden && Matches(nodes[c], token) && x == nodes[c].name;
        assert c in subs;
        var k :| 0 <= k < |subs| && subs[k] == c;
      }
    }
  }

  /** The tokens `consumed` lead from node i to node j through the maps
      alone: each token is a key of the current root's map, with no check
      of the sender. */
  predicate KeyPath(nodes: seq<Node>, i: nat, consumed: seq<string>, j: nat)
    requires Indexed(nodes) && i < |nodes|
    decreases |consumed|
  {
    if |consumed| == 0 then i == j
    else
      nodes[i].kind.Root? && consumed[0] in nodes[i].kind.commandMap
      && KeyPath(nodes, nodes[i].kind.commandMap[consumed[0]], consumed[1..], j)
  }

  /** Tab completion walks down the maps like dispatch, but checks neither
      player-only flags nor permissions on the way: along any key path it
      ends where the path ends, with what is left of the tokens. */
  lemma {:induction false} TabWalk(nodes: seq<Node>, i: nat, sender: Sender, consumed: seq<string>, rest: seq<string>, j: nat, host: SimpleParsedCommand.HostComplete)
    requires Indexed(nodes) && i < |nodes| && j < |nodes|
    requires KeyPath(nodes, i, consumed, j) && |rest| >= 1
    ensures OnTabComplete(nodes, i, sender, consumed + rest, host) == OnTabComplete(nodes, j, sender, rest, host)
    decreases |consumed|
  {
    if |consumed| != 0 {
      var c := nodes[i].kind.commandMap[consumed[0]];
      assert (consumed + rest)[0] == consumed[0];
      assert (consumed + rest)[1..] == consumed[1..] + rest;
      TabWalk(nodes, c, sender, consumed[1..], rest, j, host);
    } else {
      assert consumed + rest == rest;
    }
  }

  /** Every dispatch route is a key path, so tab completion reaches every
      command that dispatch reaches. */
  lemma {:induction false} RouteIsKeyPath(nodes: seq<Node>, i: nat, sender: Sender, consumed: seq<string>, j: nat)
    requires Indexed(nodes) && i < |nodes|
    requires Route(nodes, i, sender, consumed, j)
    ensures KeyPath(nodes, i, consumed, j)
    decreases |consumed|
  {
    if |consumed| != 0 {
      RouteIsKeyPath(nodes, nodes[i].kind.commandMap[consumed[0]], sender, consumed[1..], j);
    }
  }

  /** An unmatched token under a root ends tab completion with null. */
  lemma TabUnmatched(nodes: seq<Node>, i: nat, sender: Sender, tokens: seq<string>, host: SimpleParsedCommand.HostComplete)
    requires Indexed(nodes) && i < |nodes| && nodes[i].kind.Root?
    requires |tokens| == 0 || (|tokens| >= 2 && tokens[0] !in nodes[i].kind.commandMap)
    ensures OnTabComplete(nodes, i, sender, tokens, host) == Ok(None)
  {
  }
}
