/** The permission scenarios of the repository's tests, built with the
    calls a program makes. */
module Scenarios {
  import opened Wrappers
  import opened Strings
  import opened Outcomes
  import opened SimpleCommand
  import opened CommandTree
  import opened SimpleCommandArgument
  import RootCommand
  import SimpleParsedCommand

  /** A root with permission "permission" and a child with "+attached":
      the child resolves to "permission.attached"; a player without it is
      refused when naming the child, while the token "attached" is not the
      child's name and is an unknown argument. */
  method AttachedPermission() returns (full: Result<Option<string>, Fault>, named: Result<Outcome, Fault>, short: Result<Outcome, Fault>)
    ensures full == Ok(Some("permission.attached"))
    ensures named == Ok(Sent(NoPermission))
    ensures short == Ok(Sent(UnknownArgument("attached")))
  {
    var t := new Tree();
    var root := t.NewCommand("permission", None, Some("permission"), false, RootClass(false));
    var attached := t.NewCommand("attachedPermission", None, Some("+attached"), false, Plain);
    var error := t.AddCommand(root, attached);
    var player := Sender(true, {});
    var host: SimpleParsedCommand.HostParse := (id, token) => Failure(None);
    Resolves(t.nodes, root, attached, "permission");
    assert "permission" + ".attached" == "permission.attached";
    assert FullPermission(t.nodes, attached) == Ok(Some("permission.attached"));
    named := RootCommand.OnCommand(t.nodes, root, player, ["attachedPermission"], host);
    short := RootCommand.OnCommand(t.nodes, root, player, ["attached"], host);
    full := t.GetFullPermission(attached);
  }

  /** "+attached" without a parent, and under a parent without a
      permission, is an error and not a null permission. */
  method AttachedWithoutBase() returns (orphan: Result<Option<string>, Fault>, unpermitted: Result<Option<string>, Fault>)
    ensures orphan == Err(NoParentToConcat("+attached"))
    ensures unpermitted == Err(ParentHasNoPermission("+attached"))
  {
    var t := new Tree();
    var lone := t.NewCommand("attachedPermission", None, Some("+attached"), false, Plain);
    assert StartsWith("+attached", "+");
    WildcardErrors(t.nodes, lone, "+attached");
    orphan := t.GetFullPermission(lone);
    var always := t.NewCommand("always", None, None, false, RootClass(true));
    var attached := t.NewCommand("attachedPermission", None, Some("+attached"), false, Plain);
    var error := t.AddCommand(always, attached);
    assert t.nodes[always].permission.None? && t.nodes[always].parent.None? && t.nodes[always].fullPermission.None?;
    assert t.nodes[attached].permission == Some("+attached") && t.nodes[attached].fullPermission.None?;
    assert t.nodes[attached].parent == Some(always);
    WildcardErrors(t.nodes, attached, "+attached");
    unpermitted := t.GetFullPermission(attached);
  }

  /** Helper: "+attached" directly under an absolute permission. */
  lemma Resolves(nodes: seq<Node>, p: nat, c: nat, base: string)
    requires Indexed(nodes) && p < |nodes| && c < |nodes| && |nodes| >= 2
    requires nodes[c].permission == Some("+attached") && nodes[c].fullPermission.None? && nodes[c].parent == Some(p)
    requires nodes[p].permission == Some(base) && nodes[p].fullPermission.None? && |base| > 0 && base[0] != '+'
    ensures FullPermission(nodes, c) == Ok(Some(base + ".attached"))
  {
    assert "+attached" == "+" + "attached";
    assert !StartsWith(base, "+");
    AbsoluteVerbatim(nodes, p, base);
    WildcardConcat(nodes, c, "attached", base);
    assert base + "." + "attached" == base + ".attached";
  }
}
