/** SimpleCommandArgument: one declared argument of a parsed command, with
    its name, its error template and the parser behind it, and the failure
    path that formats the error template. ParseFailedException is folded
    into ParseOutcome. */
module SimpleCommandArgument {
  import opened Wrappers
  import opened Strings
  import opened Outcomes

  /** The DEFAULT_ARGUMENT_ERROR template (before colour translation),
      "&cThe argument &7%name%&c could not be parsed. Reason:&r %reason%&c. Value: &r%input%",
      written as its literal pieces around the three placeholders. */
  const DEFAULT_ARGUMENT_ERROR: string :=
    TemplateHead + "%name%" + TemplateMiddle + "%reason%" + TemplateTail + "%input%"
  const TemplateHead: string := "&cThe argument &7"
  const TemplateMiddle: string := "&c could not be parsed. Reason:&r "
  const TemplateTail: string := "&c. Value: &r"

  /** ChatColor.AQUA and ChatColor.RESET as the strings they render to. */
  const AQUA: string := "§b"
  const RESET: string := "§r"

  /** The parser of an argument: the two prefab parsers modelled here, or a
      parser whose semantics the host supplies (integer, double, float,
      player, or a plugin's own); `completes` says whether it overrides the
      default tab completion. */
  datatype Parser = BooleanParser | StringParser | CustomParser(id: nat, completes: bool)

  datatype Argument = Argument(name: string, errorMessage: string, parser: Parser)

  /** What parseArgument does: return a value (None for a Java null) or
      throw a ParseFailedException; `cause` is the message of the exception
      the ParseFailedException was built from. */
  datatype ParseOutcome = Success(value: Option<Value>) | Failure(cause: Option<string>)

  /** The one-argument constructor: the default error template. */
  function NewArgument(name: string, parser: Parser): (a: Argument)
    ensures a.name == name && a.parser == parser
    ensures a.errorMessage == DEFAULT_ARGUMENT_ERROR
  {
    Argument(name, DEFAULT_ARGUMENT_ERROR, parser)
  }

  /** The two-argument constructor: the given template, stored unchanged. */
  function NewArgumentWithError(name: string, errorMessage: string, parser: Parser): (a: Argument)
    ensures a.name == name && a.parser == parser
    ensures a.errorMessage == errorMessage
  {
    Argument(name, errorMessage, parser)
  }

  /** The default onTabCompletion: one hint, the argument's name in aqua. */
  function DefaultCompletion(arg: Argument, input: string): (r: seq<string>)
    ensures |r| == 1 && r[0] == AQUA + arg.name + RESET
  {
    [AQUA + arg.name + RESET]
  }

  /** The template with %name%, then %input%, then %reason% replaced. */
  function Substitute(template: string, name: string, input: string, reason: string): string
  {
    Replace(Replace(Replace(template, "%name%", name), "%input%", input), "%reason%", reason)
  }

  /** getErrorMessage: the substitution, where a null reason makes
      String.replace throw a NullPointerException. */
  function ErrorMessage(arg: Argument, input: string, reason: Option<string>): (r: Result<string, Fault>)
    ensures reason.None? <==> r == Err(NullPointer)
    ensures reason.Some? ==> r == Ok(Substitute(arg.errorMessage, arg.name, input, reason.value))
  {
    match reason
    case None => Err(NullPointer)
    case Some(text) => Ok(Substitute(arg.errorMessage, arg.name, input, text))
  }

  /** ex.getMessage() of a ParseFailedException, as written: neither
      constructor passes a message to super, so it is always null. */
  function ExceptionMessageAsWritten(cause: Option<string>): Option<string>
  {
    None
  }

  /** sendError as written: whatever the parser reported, the error message
      cannot be built. */
  function SendErrorAsWritten(arg: Argument, input: string, cause: Option<string>): (r: Result<Message, Fault>)
    ensures r == Err(NullPointer)
  {
    match ErrorMessage(arg, input, ExceptionMessageAsWritten(cause))
    case Err(e) => Err(e)
    case Ok(text) => Ok(ArgumentError(text))
  }

  /** sendError as intended: %reason% is the message the parser gave its
      ParseFailedException; exactly one message is sent to the sender. */
  function SendError(arg: Argument, input: string, cause: Option<string>): (r: Result<Message, Fault>)
    ensures cause.Some? ==> r == Ok(ArgumentError(Substitute(arg.errorMessage, arg.name, input, cause.value)))
    ensures cause.None? ==> r == Err(NullPointer)
  {
    match ErrorMessage(arg, input, cause)
    case Err(e) => Err(e)
    case Ok(text) => Ok(ArgumentError(text))
  }

  /** A template with none of the three placeholders comes out unchanged. */
  lemma SubstituteWithoutPlaceholders(template: string, name: string, input: string, reason: string)
    requires !Occurs(template, "%name%") && !Occurs(template, "%input%") && !Occurs(template, "%reason%")
    ensures Substitute(template, name, input, reason) == template
  {
    ReplaceAbsent(template, "%name%", name);
    ReplaceAbsent(template, "%input%", input);
    ReplaceAbsent(template, "%reason%", reason);
  }

  /** The substitutions are sequential: a name that itself contains
      "%input%" has that text rewritten by the next replacement. */
  lemma SubstitutionRewritesEarlierText()
    ensures Substitute("%name%", "%input%", "x", "r") == "x"
  {
    ReplaceHit("", "%name%", "%input%");
    assert Replace("%name%", "%name%", "%input%") == "%input%";
    ReplaceHit("", "%input%", "x");
    assert Replace("%input%", "%input%", "x") == "x";
  }

  /** A template of the default's shape (literal text free of '%' around
      %name%, %reason% and %input%, in that order) and values free of '%'
      give the literal text with the three values in their places. */
  lemma TemplateMessage(h: string, m: string, t: string, name: string, input: string, reason: string)
    requires '%' !in h && '%' !in m && '%' !in t
    requires t == [] || (t[0] != 'n' && t[0] != 'i')
    requires '%' !in name && '%' !in input && '%' !in reason
    ensures Substitute(h + "%name%" + m + "%reason%" + t + "%input%", name, input, reason)
         == h + name + m + reason + t + input
  {
    NameStep(h, m, t, name);
    InputStep(h + name + m, t, input);
    ReasonStep(h + name + m, t + input, reason);
    assert (h + name + m) + (reason + (t + input)) == h + name + m + reason + t + input;
  }

  /** Helper for TemplateMessage: %name% is hit once; %reason% and %input%
      are not mistaken for it. */
  lemma NameStep(h: string, m: string, t: string, name: string)
    requires '%' !in h && '%' !in m && '%' !in t
    requires t == [] || t[0] != 'n'
    ensures Replace(h + "%name%" + m + "%reason%" + t + "%input%", "%name%", name)
         == (h + name + m) + ("%reason%" + (t + "%input%"))
  {
    var rest := "%reason%" + (t + "%input%");
    assert h + "%name%" + m + "%reason%" + t + "%input%" == h + ("%name%" + (m + rest));
    NameSkipsRest(m, t, name);
    ReplaceHit(m + rest, "%name%", name);
    ReplaceSkips(h, "%name%" + (m + rest), "%name%", name);
    assert h + (name + (m + rest)) == (h + name + m) + rest;
  }

  /** Helper for NameStep: the text after %name% holds no %name%. */
  lemma NameSkipsRest(m: string, t: string, name: string)
    requires '%' !in m && '%' !in t
    requires t == [] || t[0] != 'n'
    ensures Replace(m + ("%reason%" + (t + "%input%")), "%name%", name) == m + ("%reason%" + (t + "%input%"))
  {
    NameSkipsTail(t, name);
    ReplaceMissAll("%reason%", t + "%input%", "%name%", name);
    ReplaceSkips(m, "%reason%" + (t + "%input%"), "%name%", name);
  }

  /** Helper for NameSkipsRest: the text after %reason% holds no %name%. */
  lemma NameSkipsTail(t: string, name: string)
    requires '%' !in t
    requires t == [] || t[0] != 'n'
    ensures Replace(t + "%input%", "%name%", name) == t + "%input%"
  {
    ReplaceSkips(t, "%input%", "%name%", name);
    assert "%input%" + "" == "%input%";
    ReplaceMissAll("%input%", "", "%name%", name);
  }

  /** Helper for TemplateMessage: %input% is hit once, at the end. */
  lemma InputStep(a: string, t: string, input: string)
    requires '%' !in a && '%' !in t
    requires t == [] || t[0] != 'i'
    ensures Replace(a + ("%reason%" + (t + "%input%")), "%input%", input)
         == a + ("%reason%" + (t + input))
  {
    ReplaceSkips(a, "%reason%" + (t + "%input%"), "%input%", input);
    ReplaceMissAll("%reason%", t + "%input%", "%input%", input);
    ReplaceSkips(t, "%input%", "%input%", input);
    ReplaceHit("", "%input%", input);
    assert "%input%" + "" == "%input%" && input + "" == input;
  }

  /** Helper for TemplateMessage: %reason% is hit once. */
  lemma ReasonStep(a: string, b: string, reason: string)
    requires '%' !in a && '%' !in b
    ensures Replace(a + ("%reason%" + b), "%reason%", reason) == a + (reason + b)
  {
    ReplaceSkips(a, "%reason%" + b, "%reason%", reason);
    ReplaceHit(b, "%reason%", reason);
    ReplaceSkips(b, "", "%reason%", reason);
    assert b + "" == b;
  }

  /** With the default template, the error text names the argument, the
      reason and the input, in that order. */
  lemma DefaultTemplateMessage(name: string, input: string, reason: string)
    requires '%' !in name && '%' !in input && '%' !in reason
    ensures Substitute(DEFAULT_ARGUMENT_ERROR, name, input, reason)
         == TemplateHead + name + TemplateMiddle + reason + TemplateTail + input
  {
    TemplateMessage(TemplateHead, TemplateMiddle, TemplateTail, name, input, reason);
  }

  /** Helper for TemplateMessage: another placeholder, whose body has
      no '%', is copied unchanged when what follows it cannot start the
      target either. */
  lemma ReplaceMissAll(placeholder: string, s: string, target: string, replacement: string)
    requires |placeholder| >= 3 && placeholder[0] == '%' && placeholder[|placeholder| - 1] == '%'
    requires '%' !in placeholder[1..|placeholder| - 1]
    requires |target| >= 2 && target[0] == '%' && placeholder[1] != target[1]
    requires s == [] || s[0] != target[1]
    ensures Replace(placeholder + s, target, replacement) == placeholder + Replace(s, target, replacement)
  {
    var body := placeholder[1..|placeholder| - 1];
    assert placeholder == ['%'] + body + ['%'];
    assert placeholder + s == ['%'] + (body + (['%'] + s));
    assert !StartsWith(['%'] + (body + (['%'] + s)), target) by {
      assert (['%'] + (body + (['%'] + s)))[1] == placeholder[1];
    }
    ReplaceMiss('%', body + (['%'] + s), target, replacement);
    ReplaceSkips(body, ['%'] + s, target, replacement);
    assert !StartsWith(['%'] + s, target) by {
      if |['%'] + s| >= |target| {
        assert (['%'] + s)[1] == s[0];
      }
    }
    ReplaceMiss('%', s, target, replacement);
  }
}
