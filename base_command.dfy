/** BaseCommand: the older revision of a command node. Its permission
    resolution, permission checks and formatter search have the same text
    as SimpleCommand's and are the same members of the model; only
    getFullName has a body of its own. */
module BaseCommand {
  import opened Wrappers
  import opened Outcomes
  import opened SimpleCommand

  /** BaseCommand.getFullName: the own name when there is no parent;
      otherwise a while loop that inserts each ancestor's name and a space
      at the front, then appends the own name. */
  method GetFullName(nodes: seq<Node>, i: nat) returns (r: Result<string, Fault>)
    requires Indexed(nodes) && i < |nodes|
    ensures r == FullName(nodes, i, NoAlias)
    ensures nodes[i].parent.None? ==> r == Ok(nodes[i].name)
  {
    if nodes[i].parent.None? {
      FullNameStep(nodes, i);
      return Ok(nodes[i].name);
    }
    r := SimpleCommand.GetFullName(nodes, i, NoAlias);
  }
}
