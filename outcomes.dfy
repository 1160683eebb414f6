/** What the command engine consumes from and produces for its host: the
    sender, the messages it sends, the values argument parsers produce, the
    runtime exceptions it throws and the single effect of one dispatch. */
module Outcomes {

  /** A command sender: whether it is a player, and the permission nodes it
      holds (the test sender keeps a list and answers by membership). */
  datatype Sender = Sender(isPlayer: bool, perms: set<string>)

  predicate HasPermission(sender: Sender, permission: string)
  {
    permission in sender.perms
  }

  /** One message per template of the message catalogue the engine formats,
      with the values substituted into it. */
  datatype Message =
    | MissingArguments(missing: string)
    | ArgumentError(text: string)
    | UnknownArgument(token: string)
    | PlayerOnly
    | NoPermission

  /** A value an argument parser produced. Values of the parsers that are
      not modelled are opaque tags. */
  datatype Value = BoolValue(b: bool) | StringValue(s: string) | OtherValue(tag: nat)

  /** The exceptions and JVM errors the core can end in. */
  datatype Fault =
    | NoParentToConcat(permission: string)      // '+' permission on a node without parent
    | ParentHasNoPermission(permission: string) // '+' permission under a parent resolving to null
    | NoSubCommands                             // a RootCommand dispatched with an empty map
    | AlreadyAdded                              // addCommand of a child already in the list
    | NullParsedValue                           // a parser returned null
    | IndexOutOfBounds                          // tab completion outside the argument list
    | NullPointer                               // String.replace with a null replacement
    | StackOverflow                             // recursion along a cyclic parent or child chain
    | EndlessLoop                               // getFullName's loop on a cyclic parent chain

  /** A help formatter: the one created lazily at a root (named by that
      root) or one the plugin supplied. */
  datatype Formatter = Created(owner: nat) | Supplied(tag: nat)

  /** The one effect a dispatch call has: exactly one message sent, a help
      listing handed to a formatter, or the command's own code run (with
      the parsed values for a parsed command). */
  datatype Outcome =
    | Sent(message: Message)
    | Help(formatter: Formatter, commands: seq<nat>)
    | Ran(node: nat, args: seq<string>)
    | RanParsed(node: nat, args: seq<string>, parsed: seq<Value>)
}
