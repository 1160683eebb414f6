/** The command objects of a program and the calls that change them: the
    constructors, addAlias, setHidden, setHelpFormatter, addCommand,
    addArgument, and the two getters that write a field as they go
    (getFullPermission's cache and getHelpFormatter's lazily created
    formatter). The objects are the nodes of one arena, and a reference to
    a command is its index. */
module CommandTree {
  import opened Wrappers
  import opened Strings
  import opened Outcomes
  import opened Sequences
  import opened SimpleCommandArgument
  import opened SimpleCommand
  import RootCommand
  import SimpleParsedCommand

  /** A RootCommand's list and map agree: the list has no repeats, the map
      is empty exactly when the list is, and the map only points into the
      list. */
  predicate RootShape(k: Kind)
    requires k.Root?
  {
    NoDuplicates(k.subCommands)
    && (|k.subCommands| == 0 <==> |k.commandMap| == 0)
    && forall key | key in k.commandMap :: k.commandMap[key] in k.subCommands
  }

  /** What every reachable state of the objects satisfies. */
  predicate WellFormed(nodes: seq<Node>)
  {
    Indexed(nodes)
    && forall i | 0 <= i < |nodes| ::
         NoDuplicates(nodes[i].aliases) && (nodes[i].kind.Root? ==> RootShape(nodes[i].kind))
  }

  /** The class a command is constructed as. */
  datatype Class = Plain | RootClass(overridesOnCommand: bool) | Parsed

  /** A freshly constructed command: no aliases, not hidden, no parent, no
      cached permission, no formatter, and empty lists and map. */
  function Fresh(name: string, description: Option<string>, permission: Option<string>, playerOnly: bool, cls: Class): (n: Node)
    ensures n.name == name && n.description == description && n.permission == permission && n.playerOnly == playerOnly
    ensures n.aliases == [] && !n.hidden && n.parent.None? && n.fullPermission.None? && n.helpFormatter.None?
    ensures n.kind.Leaf? <==> cls.Plain?
    ensures n.kind.Root? <==> cls.RootClass?
    ensures n.kind.Root? ==> n.kind.subCommands == [] && n.kind.commandMap == map[] && n.kind.overridesOnCommand == cls.overridesOnCommand
    ensures n.kind.ParsedLeaf? ==> n.kind.arguments == []
  {
    Node(name, description, permission, playerOnly, [], false, None, None, None,
         match cls
         case Plain => Leaf
         case RootClass(overrides) => Root([], map[], overrides)
         case Parsed => ParsedLeaf([]))
  }

  /** A new command, before it is added anywhere, resolves its permission
      by itself: none, the absolute permission, or the error for a '+'
      permission without a parent. */
  lemma FreshPermission(nodes: seq<Node>, name: string, description: Option<string>, permission: Option<string>, playerOnly: bool, cls: Class)
    requires Indexed(nodes)
    ensures var after := nodes + [Fresh(name, description, permission, playerOnly, cls)];
      Indexed(after)
      && FullPermission(after, |nodes|)
         == match permission
            case None => Ok(None)
            case Some(p) => if StartsWith(p, "+") then Err(NoParentToConcat(p)) else Ok(Some(p))
  {
    var after := nodes + [Fresh(name, description, permission, playerOnly, cls)];
    assert forall k | 0 <= k < |after| :: RefsIn(after[k], |after|) by {
      forall k | 0 <= k < |after| ensures RefsIn(after[k], |after|) {
        if k < |nodes| {
          assert after[k] == nodes[k] && RefsIn(nodes[k], |nodes|);
        }
      }
    }
  }

  /** map.put(k, v) for every k of `keys`, in order. */
  function PutAll(m: map<string, nat>, keys: seq<string>, v: nat): (r: map<string, nat>)
    ensures forall key :: key in r <==> key in m || key in keys
    ensures forall key | key in keys :: r[key] == v
    ensures forall key | key in m && key !in keys :: r[key] == m[key]
    decreases |keys|
  {
    if |keys| == 0 then m
    else PutAll(m[keys[0] := v], keys[1..], v)
  }

  /** The objects after root.addCommand(child), when the child is not in
      the list yet: the child appended to the list; its name, then each of
      its current aliases, mapped to it; its parent set to the root. */
  function Attach(nodes: seq<Node>, p: nat, c: nat): seq<Node>
    requires p < |nodes| && c < |nodes| && nodes[p].kind.Root?
  {
    var k := nodes[p].kind;
    var cmap := PutAll(k.commandMap[nodes[c].name := c], nodes[c].aliases, c);
    var linked := nodes[p := nodes[p].(kind := k.(subCommands := k.subCommands + [c], commandMap := cmap))];
    linked[c := linked[c].(parent := Some(p))]
  }

  /** addCommand makes the child reachable under its name and each alias
      it had (replacing what those keys were mapped to), leaves every other
      key as it was and every other command untouched. */
  lemma AttachSpec(nodes: seq<Node>, p: nat, c: nat)
    requires WellFormed(nodes) && p < |nodes| && c < |nodes| && nodes[p].kind.Root?
    requires c !in nodes[p].kind.subCommands
    ensures var after := Attach(nodes, p, c);
      var before := nodes[p].kind.commandMap;
      var cmap := after[p].kind.commandMap;
      |after| == |nodes|
      && after[c].parent == Some(p)
      && after[p].kind.subCommands == nodes[p].kind.subCommands + [c]
      && (forall key :: key in cmap <==> key in before || key == nodes[c].name || key in nodes[c].aliases)
      && cmap[nodes[c].name] == c
      && (forall key | key in nodes[c].aliases :: cmap[key] == c)
      && (forall key | key in before && key != nodes[c].name && key !in nodes[c].aliases :: cmap[key] == before[key])
      && (forall j | 0 <= j < |nodes| && j != p && j != c :: after[j] == nodes[j])
      && (c != p ==> after[c] == nodes[c].(parent := Some(p)))
      && after[p].kind.overridesOnCommand == nodes[p].kind.overridesOnCommand
      && (c != p ==> after[p] == nodes[p].(kind := after[p].kind))
      && (c == p ==> after[p] == nodes[p].(kind := after[p].kind, parent := Some(p)))
  {
    var after := Attach(nodes, p, c);
    var k := nodes[p].kind;
    assert after[p].kind.commandMap == PutAll(k.commandMap[nodes[c].name := c], nodes[c].aliases, c);
  }

  /** addCommand keeps the objects well formed: the list stays free of
      repeats and the map keeps pointing into it. */
  lemma AttachWellFormed(nodes: seq<Node>, p: nat, c: nat)
    requires WellFormed(nodes) && p < |nodes| && c < |nodes| && nodes[p].kind.Root?
    requires c !in nodes[p].kind.subCommands
    ensures WellFormed(Attach(nodes, p, c))
  {
    var after := Attach(nodes, p, c);
    AttachedRoot(nodes, p, c);
    forall j | 0 <= j < |after|
      ensures RefsIn(after[j], |after|)
      ensures NoDuplicates(after[j].aliases) && (after[j].kind.Root? ==> RootShape(after[j].kind))
    {
      if j != p {
        assert RefsIn(nodes[j], |nodes|) && NoDuplicates(nodes[j].aliases);
        assert after[j] == nodes[j] || after[j] == nodes[j].(parent := Some(p));
      }
    }
  }

  /** Helper for AttachWellFormed: the root after addCommand. */
  lemma AttachedRoot(nodes: seq<Node>, p: nat, c: nat)
    requires WellFormed(nodes) && p < |nodes| && c < |nodes| && nodes[p].kind.Root?
    requires c !in nodes[p].kind.subCommands
    ensures var r := Attach(nodes, p, c)[p];
      RefsIn(r, |nodes|) && NoDuplicates(r.aliases) && r.kind.Root? && RootShape(r.kind)
  {
    var r := Attach(nodes, p, c)[p];
    var k := nodes[p].kind;
    var subs := k.subCommands + [c];
    var cmap := PutAll(k.commandMap[nodes[c].name := c], nodes[c].aliases, c);
    assert r.kind == k.(subCommands := subs, commandMap := cmap);
    assert r.aliases == nodes[p].aliases && (r.parent == nodes[p].parent || r.parent == Some(p));
    assert RefsIn(nodes[p], |nodes|) && NoDuplicates(nodes[p].aliases) && RootShape(k);
    forall a, b | 0 <= a < b < |subs| ensures subs[a] != subs[b] {
      if b == |subs| - 1 {
        assert subs[a] in k.subCommands;
      }
    }
    forall key | key in cmap ensures cmap[key] in subs {
      if key != nodes[c].name && key !in nodes[c].aliases {
        assert k.commandMap[key] in k.subCommands;
      }
    }
    assert c in subs && |subs| != 0;
    assert nodes[c].name in cmap;
    assert |cmap| != 0;
  }

  /** An alias added after the command was added is never routed: its
      root's map is unchanged, so the alias is an unknown argument, even
      though getTabCompletions offers the command for it. */
  lemma LateAliasNotRouted(nodes: seq<Node>, p: nat, c: nat, alias: string, sender: Sender, rest: seq<string>, host: SimpleParsedCommand.HostParse)
    requires Indexed(nodes) && p < |nodes| && c < |nodes|
    requires nodes[p].kind.Root? && !nodes[p].kind.overridesOnCommand && |nodes[p].kind.commandMap| != 0
    requires IsAllowedSender(nodes[p], sender) && alias !in nodes[p].kind.commandMap
    ensures var after := nodes[c := nodes[c].(aliases := WithAlias(nodes[c].aliases, alias))];
      Indexed(after)
      && RootCommand.OnCommand(after, p, sender, [alias] + rest, host) == Ok(Sent(UnknownArgument(alias)))
      && nodes[c].name in TabCompletions(after[c], alias)
  {
    var after := nodes[c := nodes[c].(aliases := WithAlias(nodes[c].aliases, alias))];
    assert forall k | 0 <= k < |after| :: RefsIn(after[k], |after|) by {
      forall k | 0 <= k < |after| ensures RefsIn(after[k], |after|) {
        assert RefsIn(nodes[k], |nodes|);
      }
    }
    var k :| 0 <= k < |after[c].aliases| && after[c].aliases[k] == alias;
    assert StartsWith(after[c].aliases[k], alias);
    TabCompletionsSpec(after[c], alias);
    assert ([alias] + rest)[0] == alias;
  }

  /** The objects after getHelpFormatter on command i with `fuel` nested
      calls: a formatter created at the root is stored there. */
  function AfterLookup(nodes: seq<Node>, i: nat, fuel: nat): seq<Node>
    requires Indexed(nodes) && i < |nodes|
  {
    match FormatterLookup(nodes, i, fuel)
    case Ok(CreateAt(root)) => WithFormatter(nodes, root, Created(root))
    case _ => nodes
  }

  /** A change that only fills permission caches keeps the objects well
      formed. */
  lemma CacheWritesWellFormed(before: seq<Node>, after: seq<Node>)
    requires WellFormed(before) && CacheWrites(before, after)
    ensures WellFormed(after)
  {
    forall j | 0 <= j < |after|
      ensures RefsIn(after[j], |after|)
      ensures NoDuplicates(after[j].aliases) && (after[j].kind.Root? ==> RootShape(after[j].kind))
    {
      assert RefsIn(before[j], |before|) && NoDuplicates(before[j].aliases);
      assert after[j].parent == before[j].parent && after[j].kind == before[j].kind && after[j].aliases == before[j].aliases;
    }
  }

  /** All command objects of a program. */
  class Tree {
    var nodes: seq<Node>

    ghost predicate Valid()
      reads this
    {
      WellFormed(nodes)
    }

    constructor ()
      ensures Valid() && nodes == []
    {
      nodes := [];
    }

    /** new X(name, description, permission, playerOnly): the constructors
        without a description or a permission pass null for them. */
    method NewCommand(name: string, description: Option<string>, permission: Option<string>, playerOnly: bool, cls: Class) returns (id: nat)
      requires Valid()
      modifies this
      ensures Valid()
      ensures id == |old(nodes)| && nodes == old(nodes) + [Fresh(name, description, permission, playerOnly, cls)]
    {
      id := |nodes|;
      var n := Fresh(name, description, permission, playerOnly, cls);
      FreshPermission(nodes, name, description, permission, playerOnly, cls);
      nodes := nodes + [n];
      assert forall j | 0 <= j < id :: nodes[j] == old(nodes)[j];
    }

    /** addAlias: a new alias is appended, a known one ignored. */
    method AddAlias(c: nat, alias: string)
      requires Valid() && c < |nodes|
      modifies this
      ensures Valid()
      ensures nodes == old(nodes)[c := old(nodes)[c].(aliases := WithAlias(old(nodes)[c].aliases, alias))]
    {
      if alias in nodes[c].aliases {
        assert nodes[c].(aliases := WithAlias(nodes[c].aliases, alias)) == nodes[c];
        return;
      }
      ghost var before := nodes;
      nodes := nodes[c := nodes[c].(aliases := nodes[c].aliases + [alias])];
      forall j | 0 <= j < |nodes|
        ensures RefsIn(nodes[j], |nodes|)
        ensures NoDuplicates(nodes[j].aliases) && (nodes[j].kind.Root? ==> RootShape(nodes[j].kind))
      {
        assert RefsIn(before[j], |before|) && NoDuplicates(before[j].aliases);
      }
    }

    /** setHidden. */
    method SetHidden(c: nat, hidden: bool)
      requires Valid() && c < |nodes|
      modifies this
      ensures Valid()
      ensures nodes == old(nodes)[c := old(nodes)[c].(hidden := hidden)]
    {
      ghost var before := nodes;
      nodes := nodes[c := nodes[c].(hidden := hidden)];
      forall j | 0 <= j < |nodes|
        ensures RefsIn(nodes[j], |nodes|)
        ensures NoDuplicates(nodes[j].aliases) && (nodes[j].kind.Root? ==> RootShape(nodes[j].kind))
      {
        assert RefsIn(before[j], |before|) && NoDuplicates(before[j].aliases);
      }
    }

    /** setHelpFormatter; None is a null formatter, so the next
        getHelpFormatter on the chain creates one again. */
    method SetHelpFormatter(c: nat, formatter: Option<Formatter>)
      requires Valid() && c < |nodes|
      modifies this
      ensures Valid()
      ensures nodes == old(nodes)[c := old(nodes)[c].(helpFormatter := formatter)]
    {
      ghost var before := nodes;
      nodes := nodes[c := nodes[c].(helpFormatter := formatter)];
      forall j | 0 <= j < |nodes|
        ensures RefsIn(nodes[j], |nodes|)
        ensures NoDuplicates(nodes[j].aliases) && (nodes[j].kind.Root? ==> RootShape(nodes[j].kind))
      {
        assert RefsIn(before[j], |before|) && NoDuplicates(before[j].aliases);
      }
    }

    /** addArgument: the argument is appended, so arguments keep their
        declaration order. */
    method AddArgument(c: nat, argument: Argument)
      requires Valid() && c < |nodes| && nodes[c].kind.ParsedLeaf?
      modifies this
      ensures Valid()
      ensures nodes == old(nodes)[c := old(nodes)[c].(kind := ParsedLeaf(old(nodes)[c].kind.arguments + [argument]))]
    {
      ghost var before := nodes;
      nodes := nodes[c := nodes[c].(kind := ParsedLeaf(nodes[c].kind.arguments + [argument]))];
      forall j | 0 <= j < |nodes|
        ensures RefsIn(nodes[j], |nodes|)
        ensures NoDuplicates(nodes[j].aliases) && (nodes[j].kind.Root? ==> RootShape(nodes[j].kind))
      {
        assert RefsIn(before[j], |before|) && NoDuplicates(before[j].aliases);
      }
    }

    /** RootCommand.addCommand: adding a child twice is an error that
        changes nothing; otherwise the list, the map (name first, then the
        child's aliases one by one) and the child's parent are updated. */
    method AddCommand(p: nat, c: nat) returns (error: Option<Fault>)
      requires Valid() && p < |nodes| && c < |nodes| && nodes[p].kind.Root?
      modifies this
      ensures Valid()
      ensures c in old(nodes)[p].kind.subCommands ==> error == Some(AlreadyAdded) && nodes == old(nodes)
      ensures c !in old(nodes)[p].kind.subCommands ==> error == None && nodes == Attach(old(nodes), p, c)
    {
      var k := nodes[p].kind;
      if c in k.subCommands {
        return Some(AlreadyAdded);
      }
      var subs := k.subCommands + [c];
      var cmap: map<string, nat> := k.commandMap[nodes[c].name := c];
      var aliases := nodes[c].aliases;
      for a := 0 to |aliases|
        invariant PutAll(cmap, aliases[a..], c) == PutAll(k.commandMap[nodes[c].name := c], aliases, c)
      {
        assert aliases[a..][1..] == aliases[a + 1..];
        cmap := cmap[aliases[a] := c];
      }
      assert aliases[|aliases|..] == [];
      AttachSpec(nodes, p, c);
      AttachWellFormed(nodes, p, c);
      nodes := nodes[p := nodes[p].(kind := k.(subCommands := subs, commandMap := cmap))];
      nodes := nodes[c := nodes[c].(parent := Some(p))];
      error := None;
    }

    /** getFullPermission with at most `fuel` nested calls: the result is
        the resolution in the objects as they were, and the only change is
        the cache of '+' commands on the resolved chain. */
    method Resolving(i: nat, fuel: nat) returns (r: Result<Option<string>, Fault>)
      requires Valid() && i < |nodes| && fuel <= |nodes|
      modifies this
      ensures Valid()
      ensures r == Resolve(old(nodes), i, fuel)
      ensures CacheWrites(old(nodes), nodes)
      ensures r.Ok? && old(nodes)[i].fullPermission.None? && old(nodes)[i].permission.Some?
              && StartsWith(old(nodes)[i].permission.value, "+") ==>
                nodes[i].fullPermission == r.value
      decreases fuel
    {
      var n := nodes[i];
      if n.fullPermission.Some? {
        return Ok(n.fullPermission);
      }
      if n.permission.None? {
        if n.parent.None? {
          return Ok(None);
        }
        if fuel == 0 {
          return Err(StackOverflow);
        }
        r := Resolving(n.parent.value, fuel - 1);
        return;
      }
      var perm := n.permission.value;
      if !StartsWith(perm, "+") {
        return Ok(Some(perm));
      }
      if n.parent.None? {
        return Err(NoParentToConcat(perm));
      }
      if fuel == 0 {
        return Err(StackOverflow);
      }
      var up := Resolving(n.parent.value, fuel - 1);
      if up.Err? {
        return up;
      }
      if up.value.None? {
        return Err(ParentHasNoPermission(perm));
      }
      var full := up.value.value + "." + perm[1..];
      ghost var mid := nodes;
      ResolveFuel(old(nodes), i, fuel, |old(nodes)|);
      nodes := nodes[i := nodes[i].(fullPermission := Some(full))];
      assert CacheWrites(old(nodes), nodes) by {
        forall j | 0 <= j < |old(nodes)|
          ensures nodes[j] == old(nodes)[j]
               || (old(nodes)[j].fullPermission.None?
                   && nodes[j] == old(nodes)[j].(fullPermission := nodes[j].fullPermission)
                   && old(nodes)[j].permission.Some? && StartsWith(old(nodes)[j].permission.value, "+")
                   && Resolve(old(nodes), j, |old(nodes)|) == Ok(nodes[j].fullPermission)
                   && nodes[j].fullPermission.Some?)
        {
          if j != i {
            assert nodes[j] == mid[j];
          }
        }
      }
      CacheWritesWellFormed(old(nodes), nodes);
      return Ok(Some(full));
    }

    /** getFullPermission: the resolution of getFullPermission on the
        objects before the call; caches it fills are invisible to every
        later resolution. */
    method GetFullPermission(i: nat) returns (r: Result<Option<string>, Fault>)
      requires Valid() && i < |nodes|
      modifies this
      ensures Valid()
      ensures r == FullPermission(old(nodes), i)
      ensures CacheWrites(old(nodes), nodes)
      ensures r.Ok? && old(nodes)[i].fullPermission.None? && old(nodes)[i].permission.Some?
              && StartsWith(old(nodes)[i].permission.value, "+") ==>
                nodes[i].fullPermission == r.value
    {
      r := Resolving(i, |nodes|);
    }

    /** getHelpFormatter with at most `fuel` nested calls: the node's own
        formatter, else its parent's; the root of the chain creates one and
        keeps it. */
    method Locating(i: nat, fuel: nat) returns (r: Result<Formatter, Fault>)
      requires Valid() && i < |nodes|
      modifies this
      ensures Valid()
      ensures r == Located(FormatterLookup(old(nodes), i, fuel))
      ensures nodes == AfterLookup(old(nodes), i, fuel)
      decreases fuel
    {
      if nodes[i].helpFormatter.Some? {
        return Ok(nodes[i].helpFormatter.value);
      }
      if nodes[i].parent.None? {
        ghost var before := nodes;
        nodes := WithFormatter(nodes, i, Created(i));
        forall j | 0 <= j < |nodes|
          ensures NoDuplicates(nodes[j].aliases) && (nodes[j].kind.Root? ==> RootShape(nodes[j].kind))
        {
          assert NoDuplicates(before[j].aliases) && nodes[j].aliases == before[j].aliases;
        }
        return Ok(Created(i));
      }
      if fuel == 0 {
        return Err(StackOverflow);
      }
      r := Locating(nodes[i].parent.value, fuel - 1);
    }

    /** getHelpFormatter: the formatter of HelpFormatter on the objects
        before the call; a formatter it creates is the one every later
        call returns. */
    method GetHelpFormatter(i: nat) returns (r: Result<Formatter, Fault>)
      requires Valid() && i < |nodes|
      modifies this
      ensures Valid()
      ensures r == HelpFormatter(old(nodes), i)
      ensures nodes == AfterLookup(old(nodes), i, |old(nodes)|)
      ensures forall j | 0 <= j < |nodes| :: HelpFormatter(nodes, j) == HelpFormatter(old(nodes), j)
    {
      r := Locating(i, |nodes|);
      forall j | 0 <= j < |nodes| ensures HelpFormatter(nodes, j) == HelpFormatter(old(nodes), j) {
        match FormatterLookup(old(nodes), i, |old(nodes)|)
        case Ok(CreateAt(root)) => CreatedOnce(old(nodes), root, j);
        case _ =>
      }
    }
  }
}
