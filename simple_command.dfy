/** SimpleCommand: one node of the command tree. The tree is an arena, a
    sequence of nodes in which a node refers to its parent and children by
    index, so that every chain of references can be followed and a cyclic
    one recognised. */
module SimpleCommand {
  import opened Wrappers
  import opened Strings
  import opened Outcomes
  import opened Sequences
  import opened SimpleCommandArgument

  /** NameFormat: which label getFullName uses for each node. */
  datatype NameFormat = NoAlias | AllAlias | RootAlias

  /** What the node is beyond its SimpleCommand fields: a leaf with its own
      onCommand, a RootCommand (whose subclass may still override
      onCommand), or a SimpleParsedCommand with its argument list. */
  datatype Kind =
    | Leaf
    | Root(subCommands: seq<nat>, commandMap: map<string, nat>, overridesOnCommand: bool)
    | ParsedLeaf(arguments: seq<Argument>)

  /** The fields of a SimpleCommand; `fullPermission` is the cache and
      `None` stands for Java's null. */
  datatype Node = Node(
    name: string,
    description: Option<string>,
    permission: Option<string>,
    playerOnly: bool,
    aliases: seq<string>,
    hidden: bool,
    parent: Option<nat>,
    fullPermission: Option<string>,
    helpFormatter: Option<Formatter>,
    kind: Kind)

  /** Every reference a node holds points into an arena of `size` nodes. */
  predicate RefsIn(n: Node, size: nat)
  {
    (n.parent.Some? ==> n.parent.value < size)
    && (n.kind.Root? ==>
          (forall c | c in n.kind.subCommands :: c < size)
          && (forall key | key in n.kind.commandMap :: n.kind.commandMap[key] < size))
  }

  predicate Indexed(nodes: seq<Node>)
  {
    forall i | 0 <= i < |nodes| :: RefsIn(nodes[i], |nodes|)
  }

  // ---------------------------------------------------------------------
  // Permissions

  /** getFullPermission with at most `fuel` nested calls before the stack
      overflows: the cached value if set; with no permission, none at the
      root and the parent's otherwise; an absolute permission verbatim; a
      '+' permission appended with a dot to the parent's, an error when
      there is no parent or it resolves to none. */
  function Resolve(nodes: seq<Node>, i: nat, fuel: nat): Result<Option<string>, Fault>
    requires Indexed(nodes) && i < |nodes|
    decreases fuel
  {
    var n := nodes[i];
    if n.fullPermission.Some? then Ok(n.fullPermission)
    else
      match n.permission
      case None =>
        (match n.parent
         case None => Ok(None)
         case Some(p) => if fuel == 0 then Err(StackOverflow) else Resolve(nodes, p, fuel - 1))
      case Some(perm) =>
        if !StartsWith(perm, "+") then Ok(Some(perm))
        else
          match n.parent
          case None => Err(NoParentToConcat(perm))
          case Some(p) =>
            if fuel == 0 then Err(StackOverflow)
            else
              match Resolve(nodes, p, fuel - 1)
              case Err(e) => Err(e)
              case Ok(None) => Err(ParentHasNoPermission(perm))
              case Ok(Some(up)) => Ok(Some(up + "." + perm[1..]))
  }

  /** getFullPermission on the arena: one nested call per node is enough
      for every chain that does not revisit a node. */
  function FullPermission(nodes: seq<Node>, i: nat): Result<Option<string>, Fault>
    requires Indexed(nodes) && i < |nodes|
  {
    Resolve(nodes, i, |nodes|)
  }

  /** More stack never changes a result that did not overflow. */
  lemma {:induction false} ResolveFuel(nodes: seq<Node>, i: nat, f: nat, g: nat)
    requires Indexed(nodes) && i < |nodes|
    requires f <= g && Resolve(nodes, i, f) != Err(StackOverflow)
    ensures Resolve(nodes, i, g) == Resolve(nodes, i, f)
    decreases f
  {
    var n := nodes[i];
    if n.fullPermission.None? && n.parent.Some? && f > 0 && (n.permission.None? || StartsWith(n.permission.value, "+")) {
      ResolveFuel(nodes, n.parent.value, f - 1, g - 1);
    }
  }

  /** A node without a permission of its own and without a cached value
      inherits: none at the root, the parent's resolution otherwise. */
  lemma InheritsWhenUnset(nodes: seq<Node>, i: nat)
    requires Indexed(nodes) && i < |nodes|
    requires nodes[i].permission.None? && nodes[i].fullPermission.None?
    requires FullPermission(nodes, i) != Err(StackOverflow)
    ensures nodes[i].parent.None? ==> FullPermission(nodes, i) == Ok(None)
    ensures nodes[i].parent.Some? ==> FullPermission(nodes, i) == FullPermission(nodes, nodes[i].parent.value)
  {
    if nodes[i].parent.Some? {
      ResolveFuel(nodes, nodes[i].parent.value, |nodes| - 1, |nodes|);
    }
  }

  /** A permission not starting with '+' is the node's resolution, whatever
      its parent resolves to. */
  lemma AbsoluteVerbatim(nodes: seq<Node>, i: nat, perm: string)
    requires Indexed(nodes) && i < |nodes|
    requires nodes[i].permission == Some(perm) && !StartsWith(perm, "+") && nodes[i].fullPermission.None?
    ensures forall f: nat :: Resolve(nodes, i, f) == Ok(Some(perm))
  {
  }

  /** '+suffix' under a parent resolving to P resolves to P.suffix. */
  lemma WildcardConcat(nodes: seq<Node>, i: nat, suffix: string, up: string)
    requires Indexed(nodes) && i < |nodes|
    requires nodes[i].permission == Some("+" + suffix) && nodes[i].fullPermission.None?
    requires nodes[i].parent.Some? && FullPermission(nodes, nodes[i].parent.value) == Ok(Some(up))
    requires Resolve(nodes, nodes[i].parent.value, |nodes| - 1) != Err(StackOverflow)
    ensures FullPermission(nodes, i) == Ok(Some(up + "." + suffix))
  {
    var perm := "+" + suffix;
    assert StartsWith(perm, "+") && perm[1..] == suffix;
    ResolveFuel(nodes, nodes[i].parent.value, |nodes| - 1, |nodes|);
  }

  /** '+suffix' is an error, not a null result, without a parent or under
      a parent resolving to none. */
  lemma WildcardErrors(nodes: seq<Node>, i: nat, perm: string)
    requires Indexed(nodes) && i < |nodes|
    requires nodes[i].permission == Some(perm) && StartsWith(perm, "+") && nodes[i].fullPermission.None?
    ensures nodes[i].parent.None? ==> FullPermission(nodes, i) == Err(NoParentToConcat(perm))
    ensures nodes[i].parent.Some? && FullPermission(nodes, nodes[i].parent.value) == Ok(None)
            && Resolve(nodes, nodes[i].parent.value, |nodes| - 1) != Err(StackOverflow)
        ==> FullPermission(nodes, i) == Err(ParentHasNoPermission(perm))
    ensures FullPermission(nodes, i) != Ok(None)
  {
    if nodes[i].parent.Some? && Resolve(nodes, nodes[i].parent.value, |nodes| - 1) != Err(StackOverflow) {
      ResolveFuel(nodes, nodes[i].parent.value, |nodes| - 1, |nodes|);
    }
  }

  /** A cached value is returned as it is, whatever the node's permission. */
  lemma CachedReturned(nodes: seq<Node>, i: nat)
    requires Indexed(nodes) && i < |nodes| && nodes[i].fullPermission.Some?
    ensures forall f: nat :: Resolve(nodes, i, f) == Ok(nodes[i].fullPermission)
  {
  }

  /** The only arena changes resolution makes: caches of '+' nodes that
      were unset now hold the node's resolution in the old arena. */
  predicate CacheWrites(before: seq<Node>, after: seq<Node>)
    requires Indexed(before)
  {
    |after| == |before|
    && forall j | 0 <= j < |before| ::
         after[j] == before[j]
         || (before[j].fullPermission.None?
             && after[j] == before[j].(fullPermission := after[j].fullPermission)
             && before[j].permission.Some? && StartsWith(before[j].permission.value, "+")
             && Resolve(before, j, |before|) == Ok(after[j].fullPermission)
             && after[j].fullPermission.Some?)
  }

  /** Cache writes are invisible: every resolution that did not overflow
      comes out the same afterwards. */
  lemma {:induction false} CacheWritesInvisible(before: seq<Node>, after: seq<Node>, j: nat, f: nat)
    requires Indexed(before) && CacheWrites(before, after) && j < |before| && f <= |before|
    requires Resolve(before, j, f) != Err(StackOverflow)
    ensures Indexed(after)
    ensures Resolve(after, j, f) == Resolve(before, j, f)
    decreases f
  {
    assert Indexed(after) by {
      forall k | 0 <= k < |after| ensures RefsIn(after[k], |after|) {
        assert after[k].parent == before[k].parent && after[k].kind == before[k].kind;
      }
    }
    if after[j] != before[j] {
      ResolveFuel(before, j, f, |before|);
    } else if before[j].fullPermission.None? && before[j].parent.Some? && f > 0
              && (before[j].permission.None? || StartsWith(before[j].permission.value, "+")) {
      CacheWritesInvisible(before, after, before[j].parent.value, f - 1);
    }
  }

  /** The parent chain from `cur` upwards, nearest first, if it ends
      within `fuel` steps. */
  function Up(nodes: seq<Node>, cur: Option<nat>, fuel: nat): (r: Option<seq<nat>>)
    requires Indexed(nodes) && (cur.Some? ==> cur.value < |nodes|)
    ensures r.Some? ==> forall k | 0 <= k < |r.value| :: r.value[k] < |nodes|
    decreases fuel
  {
    match cur
    case None => Some([])
    case Some(p) =>
      if fuel == 0 then None
      else
        match Up(nodes, nodes[p].parent, fuel - 1)
        case None => None
        case Some(rest) => Some([p] + rest)
  }

  /** A parent chain that ends within the fuel never overflows resolution. */
  lemma {:induction false} ChainEndsNoOverflow(nodes: seq<Node>, i: nat, f: nat)
    requires Indexed(nodes) && i < |nodes|
    requires Up(nodes, nodes[i].parent, f).Some?
    ensures Resolve(nodes, i, f) != Err(StackOverflow)
    decreases f
  {
    var n := nodes[i];
    if n.fullPermission.None? && n.parent.Some? {
      ChainEndsNoOverflow(nodes, n.parent.value, f - 1);
    }
  }

  /** The first `k` commands of the parent chain from `cur`, nearest
      first, or the whole chain when it ends sooner. */
  function Walk(nodes: seq<Node>, cur: Option<nat>, k: nat): (r: seq<nat>)
    requires Indexed(nodes) && (cur.Some? ==> cur.value < |nodes|)
    ensures |r| <= k && forall j | 0 <= j < |r| :: r[j] < |nodes|
    decreases k
  {
    match cur
    case None => []
    case Some(p) => if k == 0 then [] else [p] + Walk(nodes, nodes[p].parent, k - 1)
  }

  /** A walk that stops short of its length has reached the end of the
      chain, so the chain ends within that many steps. */
  lemma {:induction false} WalkEnds(nodes: seq<Node>, cur: Option<nat>, k: nat)
    requires Indexed(nodes) && (cur.Some? ==> cur.value < |nodes|)
    requires |Walk(nodes, cur, k)| < k
    ensures Up(nodes, cur, k).Some?
    decreases k
  {
    if cur.Some? {
      WalkEnds(nodes, nodes[cur.value].parent, k - 1);
    }
  }

  /** A parent chain that visits no command twice ends within as many
      steps as there are commands: the bound the model puts on every walk
      up the tree only cuts off cyclic chains. */
  lemma CycleFreeChainEnds(nodes: seq<Node>, i: nat)
    requires Indexed(nodes) && i < |nodes|
    requires NoDuplicates(Walk(nodes, Some(i), |nodes| + 1))
    ensures Up(nodes, nodes[i].parent, |nodes|).Some?
  {
    var w := Walk(nodes, Some(i), |nodes| + 1);
    DistinctBounded(w, |nodes|);
    assert w == [i] + Walk(nodes, nodes[i].parent, |nodes|);
    WalkEnds(nodes, nodes[i].parent, |nodes|);
  }

  /** Hence, without a cycle above it, getFullPermission does not overflow
      and getFullName does not loop. */
  lemma CycleFreeResolves(nodes: seq<Node>, i: nat, format: NameFormat)
    requires Indexed(nodes) && i < |nodes|
    requires NoDuplicates(Walk(nodes, Some(i), |nodes| + 1))
    ensures FullPermission(nodes, i) != Err(StackOverflow)
    ensures FullName(nodes, i, format) != Err(EndlessLoop)
  {
    CycleFreeChainEnds(nodes, i);
    ChainEndsNoOverflow(nodes, i, |nodes|);
  }

  /** checkPermission: allowed when the resolution is none, otherwise iff
      the sender holds the resolved node. */
  function CheckPermission(nodes: seq<Node>, i: nat, sender: Sender): (r: Result<bool, Fault>)
    requires Indexed(nodes) && i < |nodes|
    ensures r.Err? <==> FullPermission(nodes, i).Err?
    ensures r == Ok(true) <==> FullPermission(nodes, i) == Ok(None)
                               || (FullPermission(nodes, i).Ok? && FullPermission(nodes, i).value.Some?
                                   && HasPermission(sender, FullPermission(nodes, i).value.value))
  {
    match FullPermission(nodes, i)
    case Err(e) => Err(e)
    case Ok(None) => Ok(true)
    case Ok(Some(p)) => Ok(HasPermission(sender, p))
  }

  /** isAllowedSender: false exactly for a player-only node and a sender
      that is not a player. */
  predicate IsAllowedSender(n: Node, sender: Sender)
  {
    !(n.playerOnly && !sender.isPlayer)
  }

  // ---------------------------------------------------------------------
  // Names, aliases and tab hints

  /** testNameMatch: the name or one of the aliases equals the input,
      ignoring letter case. */
  predicate TestNameMatch(n: Node, input: string)
  {
    EqualsIgnoreCase(n.name, input) || exists k | 0 <= k < |n.aliases| :: EqualsIgnoreCase(n.aliases[k], input)
  }

  function LowerAll(s: string): (r: string)
    ensures |r| == |s| && forall k | 0 <= k < |s| :: r[k] == LowerAscii(s[k])
  {
    seq(|s|, k requires 0 <= k < |s| => LowerAscii(s[k]))
  }

  /** Matching ignores case: an input matches iff its lower-case form does. */
  lemma NameMatchIgnoresCase(n: Node, input: string)
    ensures TestNameMatch(n, input) <==> TestNameMatch(n, LowerAll(input))
  {
    forall a: string ensures EqualsIgnoreCase(a, input) <==> EqualsIgnoreCase(a, LowerAll(input)) {
      if |a| == |input| {
        forall k | 0 <= k < |a| ensures LowerAscii(LowerAll(input)[k]) == LowerAscii(input[k]) {
        }
      }
    }
  }

  /** getAlias: the first alias, or the name when there is none. */
  function Alias(n: Node): (r: string)
    ensures |n.aliases| == 0 ==> r == n.name
    ensures |n.aliases| > 0 ==> r == n.aliases[0] && r in n.aliases
  {
    if |n.aliases| > 0 then n.aliases[0] else n.name
  }

  /** addAlias on the alias list: appended unless already present. */
  function WithAlias(aliases: seq<string>, alias: string): (r: seq<string>)
    ensures alias in r && forall a | a in aliases :: a in r
    ensures forall a | a in r :: a in aliases || a == alias
    ensures NoDuplicates(aliases) ==> NoDuplicates(r)
    ensures alias in aliases ==> r == aliases
    ensures alias !in aliases ==> r == aliases + [alias]
  {
    if alias in aliases then aliases else aliases + [alias]
  }

  /** addAlias is idempotent. */
  lemma WithAliasIdempotent(aliases: seq<string>, alias: string)
    ensures WithAlias(WithAlias(aliases, alias), alias) == WithAlias(aliases, alias)
  {
  }

  /** getTabCompletions: the name once if it starts with the prefix, then
      the name once more for every alias that does. */
  function TabCompletions(n: Node, prefix: string): seq<string>
  {
    (if StartsWith(n.name, prefix) then [n.name] else []) + AliasHits(n.aliases, prefix, n.name)
  }

  function AliasHits(aliases: seq<string>, prefix: string, name: string): seq<string>
    decreases |aliases|
  {
    if |aliases| == 0 then []
    else
      AliasHits(aliases[..|aliases| - 1], prefix, name)
      + (if StartsWith(aliases[|aliases| - 1], prefix) then [name] else [])
  }

  /** The positions of the aliases starting with the prefix. */
  function PrefixedPositions(aliases: seq<string>, prefix: string): set<nat>
  {
    set k: nat | k < |aliases| && StartsWith(aliases[k], prefix)
  }

  lemma {:induction false} AliasHitsSpec(aliases: seq<string>, prefix: string, name: string)
    ensures |AliasHits(aliases, prefix, name)| == |PrefixedPositions(aliases, prefix)|
    ensures forall x | x in AliasHits(aliases, prefix, name) :: x == name
    decreases |aliases|
  {
    if |aliases| != 0 {
      var init := aliases[..|aliases| - 1];
      AliasHitsSpec(init, prefix, name);
      var last := |aliases| - 1;
      if StartsWith(aliases[last], prefix) {
        assert PrefixedPositions(aliases, prefix) == PrefixedPositions(init, prefix) + {last};
      } else {
        assert PrefixedPositions(aliases, prefix) == PrefixedPositions(init, prefix);
      }
    }
  }

  /** The hints are all the node's name: one for the name and one per
      alias starting with the prefix; the name is offered iff the name or
      some alias starts with the prefix. */
  lemma TabCompletionsSpec(n: Node, prefix: string)
    ensures |TabCompletions(n, prefix)|
         == (if StartsWith(n.name, prefix) then 1 else 0) + |PrefixedPositions(n.aliases, prefix)|
    ensures forall x | x in TabCompletions(n, prefix) :: x == n.name
    ensures n.name in TabCompletions(n, prefix)
        <==> StartsWith(n.name, prefix) || exists k | 0 <= k < |n.aliases| :: StartsWith(n.aliases[k], prefix)
  {
    AliasHitsSpec(n.aliases, prefix, n.name);
    if exists k | 0 <= k < |n.aliases| :: StartsWith(n.aliases[k], prefix) {
      var k :| 0 <= k < |n.aliases| && StartsWith(n.aliases[k], prefix);
      assert k in PrefixedPositions(n.aliases, prefix);
      assert |AliasHits(n.aliases, prefix, n.name)| > 0;
      assert AliasHits(n.aliases, prefix, n.name)[0] in AliasHits(n.aliases, prefix, n.name);
    }
    if n.name in TabCompletions(n, prefix) && !StartsWith(n.name, prefix) {
      assert |PrefixedPositions(n.aliases, prefix)| > 0;
      var k :| k in PrefixedPositions(n.aliases, prefix);
    }
  }

  /** getTabCompletions as the source runs it: the name check, then a loop
      over the aliases appending the name. */
  method GetTabCompletions(n: Node, prefix: string) returns (completions: seq<string>)
    ensures completions == TabCompletions(n, prefix)
  {
    completions := [];
    if StartsWith(n.name, prefix) {
      completions := completions + [n.name];
    }
    ghost var head := completions;
    for k := 0 to |n.aliases|
      invariant completions == head + AliasHits(n.aliases[..k], prefix, n.name)
    {
      assert n.aliases[..k + 1][..k] == n.aliases[..k];
      if StartsWith(n.aliases[k], prefix) {
        completions := completions + [n.name];
      }
    }
    assert n.aliases[..|n.aliases|] == n.aliases;
  }

  /** The label getFullName puts down for ancestor `a`. */
  function Label(nodes: seq<Node>, a: nat, format: NameFormat): string
    requires a < |nodes|
  {
    match format
    case NoAlias => nodes[a].name
    case AllAlias => Alias(nodes[a])
    case RootAlias => if nodes[a].parent.None? then Alias(nodes[a]) else nodes[a].name
  }

  /** The builder after the ancestors `chain` (nearest first): each label
      inserted at the front, followed by a space. */
  function Path(nodes: seq<Node>, chain: seq<nat>, format: NameFormat): string
    requires forall k | 0 <= k < |chain| :: chain[k] < |nodes|
    decreases |chain|
  {
    if |chain| == 0 then ""
    else Label(nodes, chain[|chain| - 1], format) + " " + Path(nodes, chain[..|chain| - 1], format)
  }

  /** The node's own label, appended after its ancestors. */
  function Own(n: Node, format: NameFormat): string
  {
    if format == AllAlias then Alias(n) else n.name
  }

  /** getFullName(format): the ancestors root first, each followed by a
      space, then the node itself; a cyclic parent chain never ends. */
  function FullName(nodes: seq<Node>, i: nat, format: NameFormat): Result<string, Fault>
    requires Indexed(nodes) && i < |nodes|
  {
    match Up(nodes, nodes[i].parent, |nodes|)
    case None => Err(EndlessLoop)
    case Some(chain) => Ok(Path(nodes, chain, format) + Own(nodes[i], format))
  }

  function Prepend(visited: seq<nat>, rest: Option<seq<nat>>): Option<seq<nat>>
  {
    match rest
    case None => None
    case Some(r) => Some(visited + r)
  }

  /** getFullName as the source runs it: a while loop up the parent chain
      inserting each label at the front of the builder. */
  method GetFullName(nodes: seq<Node>, i: nat, format: NameFormat) returns (r: Result<string, Fault>)
    requires Indexed(nodes) && i < |nodes|
    ensures r == FullName(nodes, i, format)
  {
    var builder := "";
    var cur: Option<nat> := nodes[i].parent;
    var steps: nat := 0;
    ghost var visited: seq<nat> := [];
    assert Prepend([], Up(nodes, cur, |nodes|)) == Up(nodes, cur, |nodes|) by {
      if Up(nodes, cur, |nodes|).Some? {
        assert [] + Up(nodes, cur, |nodes|).value == Up(nodes, cur, |nodes|).value;
      }
    }
    while cur.Some?
      invariant steps == |visited| <= |nodes|
      invariant cur.Some? ==> cur.value < |nodes|
      invariant forall k | 0 <= k < |visited| :: visited[k] < |nodes|
      invariant builder == Path(nodes, visited, format)
      invariant Up(nodes, nodes[i].parent, |nodes|) == Prepend(visited, Up(nodes, cur, |nodes| - steps))
      decreases |nodes| - steps
    {
      if steps == |nodes| {
        return Err(EndlessLoop);
      }
      var p: nat := cur.value;
      builder := Label(nodes, p, format) + " " + builder;
      PrependStep(visited, p, Up(nodes, nodes[p].parent, |nodes| - steps - 1));
      assert (visited + [p])[..|visited|] == visited;
      visited := visited + [p];
      cur := nodes[p].parent;
      steps := steps + 1;
    }
    assert visited + [] == visited;
    builder := builder + Own(nodes[i], format);
    return Ok(builder);
  }

  lemma PrependStep(visited: seq<nat>, p: nat, rest: Option<seq<nat>>)
    ensures Prepend(visited, Prepend([p], rest)) == Prepend(visited + [p], rest)
  {
    if rest.Some? {
      assert visited + ([p] + rest.value) == visited + [p] + rest.value;
    }
  }

  /** More fuel never changes a chain that ended. */
  lemma {:induction false} UpFuel(nodes: seq<Node>, cur: Option<nat>, f: nat, g: nat)
    requires Indexed(nodes) && (cur.Some? ==> cur.value < |nodes|)
    requires f <= g && Up(nodes, cur, f).Some?
    ensures Up(nodes, cur, g) == Up(nodes, cur, f)
    decreases f
  {
    if cur.Some? {
      UpFuel(nodes, nodes[cur.value].parent, f - 1, g - 1);
    }
  }

  lemma {:induction false} PathCons(nodes: seq<Node>, p: nat, chain: seq<nat>, format: NameFormat)
    requires p < |nodes| && forall k | 0 <= k < |chain| :: chain[k] < |nodes|
    ensures Path(nodes, [p] + chain, format) == Path(nodes, chain, format) + Label(nodes, p, format) + " "
    decreases |chain|
  {
    if |chain| != 0 {
      assert ([p] + chain)[..|chain|] == [p] + chain[..|chain| - 1];
      PathCons(nodes, p, chain[..|chain| - 1], format);
    }
  }

  /** The full name of a root is its own label; below a parent it is the
      parent's full name, a space and the node's name. */
  lemma FullNameStep(nodes: seq<Node>, i: nat)
    requires Indexed(nodes) && i < |nodes|
    ensures nodes[i].parent.None? ==> FullName(nodes, i, NoAlias) == Ok(nodes[i].name)
    ensures nodes[i].parent.Some? && FullName(nodes, i, NoAlias).Ok? ==>
      FullName(nodes, nodes[i].parent.value, NoAlias).Ok?
      && FullName(nodes, i, NoAlias).value
         == FullName(nodes, nodes[i].parent.value, NoAlias).value + " " + nodes[i].name
  {
    if nodes[i].parent.Some? && FullName(nodes, i, NoAlias).Ok? {
      var p := nodes[i].parent.value;
      var rest := Up(nodes, nodes[p].parent, |nodes| - 1);
      assert rest.Some?;
      UpFuel(nodes, nodes[p].parent, |nodes| - 1, |nodes|);
      PathCons(nodes, p, rest.value, NoAlias);
    } else if nodes[i].parent.None? {
      assert "" + nodes[i].name == nodes[i].name;
    }
  }

  // ---------------------------------------------------------------------
  // Help formatter

  /** What getHelpFormatter finds: a formatter set on the node or an
      ancestor, or the root at which it creates one. */
  datatype FormatterAt = Found(formatter: Formatter) | CreateAt(root: nat)

  /** getHelpFormatter's search: the node's own, else the parent's; the
      root of the chain creates one. */
  function FormatterLookup(nodes: seq<Node>, i: nat, fuel: nat): (r: Result<FormatterAt, Fault>)
    requires Indexed(nodes) && i < |nodes|
    ensures r.Ok? && r.value.CreateAt? ==>
      r.value.root < |nodes| && nodes[r.value.root].parent.None? && nodes[r.value.root].helpFormatter.None?
    decreases fuel
  {
    if nodes[i].helpFormatter.Some? then Ok(Found(nodes[i].helpFormatter.value))
    else
      match nodes[i].parent
      case None => Ok(CreateAt(i))
      case Some(p) => if fuel == 0 then Err(StackOverflow) else FormatterLookup(nodes, p, fuel - 1)
  }

  /** A parent chain that ends within the fuel never overflows the
      formatter search. */
  lemma {:induction false} FormatterChainEnds(nodes: seq<Node>, i: nat, f: nat)
    requires Indexed(nodes) && i < |nodes|
    requires Up(nodes, nodes[i].parent, f).Some?
    ensures FormatterLookup(nodes, i, f) != Err(StackOverflow)
    decreases f
  {
    if nodes[i].helpFormatter.None? && nodes[i].parent.Some? {
      FormatterChainEnds(nodes, nodes[i].parent.value, f - 1);
    }
  }

  /** The arena after getHelpFormatter stores `f` at the root `root`. */
  function WithFormatter(nodes: seq<Node>, root: nat, f: Formatter): (r: seq<Node>)
    requires Indexed(nodes) && root < |nodes|
    ensures Indexed(r) && |r| == |nodes|
    ensures forall k | 0 <= k < |r| :: r[k].parent == nodes[k].parent && r[k].kind == nodes[k].kind
  {
    var r := nodes[root := nodes[root].(helpFormatter := Some(f))];
    assert forall k | 0 <= k < |r| :: r[k].parent == nodes[k].parent && r[k].kind == nodes[k].kind;
    assert forall k | 0 <= k < |r| :: RefsIn(r[k], |r|) by {
      forall k | 0 <= k < |r| ensures RefsIn(r[k], |r|) {
        assert RefsIn(nodes[k], |nodes|);
      }
    }
    r
  }

  /** Storing a formatter at a parentless root without one is seen by
      exactly the searches that would have created it there: they now find
      it, and every other search is unchanged. */
  lemma {:induction false} FormatterStored(nodes: seq<Node>, root: nat, f: Formatter, i: nat, fuel: nat)
    requires Indexed(nodes) && root < |nodes| && i < |nodes|
    requires nodes[root].parent.None? && nodes[root].helpFormatter.None?
    ensures FormatterLookup(WithFormatter(nodes, root, f), i, fuel)
         == if FormatterLookup(nodes, i, fuel) == Ok(CreateAt(root)) then Ok(Found(f)) else FormatterLookup(nodes, i, fuel)
    decreases fuel
  {
    var after := WithFormatter(nodes, root, f);
    if i != root {
      assert after[i] == nodes[i];
      if nodes[i].helpFormatter.None? && nodes[i].parent.Some? && fuel > 0 {
        FormatterStored(nodes, root, f, nodes[i].parent.value, fuel - 1);
      }
    }
  }

  /** The formatter a search yields. */
  function Located(at: Result<FormatterAt, Fault>): Result<Formatter, Fault>
  {
    match at
    case Err(e) => Err(e)
    case Ok(Found(f)) => Ok(f)
    case Ok(CreateAt(root)) => Ok(Created(root))
  }

  /** The formatter getHelpFormatter returns: the one found, or the one it
      creates at the root of the chain. */
  function HelpFormatter(nodes: seq<Node>, i: nat): Result<Formatter, Fault>
    requires Indexed(nodes) && i < |nodes|
  {
    Located(FormatterLookup(nodes, i, |nodes|))
  }

  /** getHelpFormatter creates a formatter at most once per root: after the
      root stores the one it created, every command of the arena gets the
      formatter it got before. */
  lemma CreatedOnce(nodes: seq<Node>, root: nat, i: nat)
    requires Indexed(nodes) && root < |nodes| && i < |nodes|
    requires nodes[root].parent.None? && nodes[root].helpFormatter.None?
    ensures HelpFormatter(WithFormatter(nodes, root, Created(root)), i) == HelpFormatter(nodes, i)
  {
    FormatterStored(nodes, root, Created(root), i, |nodes|);
  }

  /** Without a cycle above it, getHelpFormatter does not overflow. */
  lemma CycleFreeFormatter(nodes: seq<Node>, i: nat)
    requires Indexed(nodes) && i < |nodes|
    requires NoDuplicates(Walk(nodes, Some(i), |nodes| + 1))
    ensures HelpFormatter(nodes, i) != Err(StackOverflow)
  {
    CycleFreeChainEnds(nodes, i);
    FormatterChainEnds(nodes, i, |nodes|);
  }
}
