/** SimpleBooleanArgument: "true" or "false" in any letter case; its tab
    completion offers the two words that start with the input. */
module SimpleBooleanArgument {
  import opened Wrappers
  import opened Strings
  import opened Outcomes
  import opened Sequences
  import opened SimpleCommandArgument

  const BOOLEAN_REASON: string := "Could not parse the boolean."

  /** parseArgument: a case-insensitive comparison with "true", then with
      "false"; anything else throws ParseFailedException. */
  function Parse(token: string): (r: ParseOutcome)
    ensures r.Success? ==> r.value.Some? && r.value.value.BoolValue?
    ensures r == Success(Some(BoolValue(true))) <==> CaseVariant(token, "true")
    ensures r == Success(Some(BoolValue(false))) <==> CaseVariant(token, "false")
    ensures r.Failure? <==> !CaseVariant(token, "true") && !CaseVariant(token, "false")
    ensures r.Failure? ==> r.cause == Some(BOOLEAN_REASON)
  {
    CaseVariantIff(token, "true");
    CaseVariantIff(token, "false");
    if EqualsIgnoreCase(token, "true") then Success(Some(BoolValue(true)))
    else if EqualsIgnoreCase(token, "false") then Success(Some(BoolValue(false)))
    else Failure(Some(BOOLEAN_REASON))
  }

  /** `t` spells the lower-case word `w` with any of its letters upper-cased. */
  predicate CaseVariant(t: string, w: string)
  {
    |t| == |w| && forall k | 0 <= k < |t| :: t[k] == w[k] || t[k] as int == w[k] as int - 32
  }

  /** For a lower-case word, ASCII-insensitive equality is exactly "a case
      variant of it". */
  lemma CaseVariantIff(t: string, w: string)
    requires forall k | 0 <= k < |w| :: 'a' <= w[k] <= 'z'
    ensures EqualsIgnoreCase(t, w) <==> CaseVariant(t, w)
  {
    if |t| == |w| {
      forall k | 0 <= k < |t|
        ensures LowerAscii(t[k]) == LowerAscii(w[k]) <==> (t[k] == w[k] || t[k] as int == w[k] as int - 32)
      {
        assert LowerAscii(w[k]) == w[k];
      }
    }
  }

  /** onTabCompletion: ["true", "false"] filtered by startsWith(input),
      which is case-sensitive. */
  function Complete(input: string): (r: seq<string>)
  {
    FilterPrefixed(["true", "false"], input)
  }

  /** The stream filter over a candidate list. */
  function FilterPrefixed(candidates: seq<string>, input: string): (r: seq<string>)
    decreases |candidates|
  {
    if |candidates| == 0 then []
    else
      var rest := FilterPrefixed(candidates[..|candidates| - 1], input);
      if StartsWith(candidates[|candidates| - 1], input) then rest + [candidates[|candidates| - 1]] else rest
  }

  /** The filter keeps exactly the candidates starting with the input, in
      their order. */
  lemma {:induction false} FilterPrefixedSpec(candidates: seq<string>, input: string)
    ensures Subsequence(FilterPrefixed(candidates, input), candidates)
    ensures forall w :: w in FilterPrefixed(candidates, input) <==> w in candidates && StartsWith(w, input)
    decreases |candidates|
  {
    if |candidates| != 0 {
      var init := candidates[..|candidates| - 1];
      var last := candidates[|candidates| - 1];
      FilterPrefixedSpec(init, input);
      assert candidates == init + [last];
      if StartsWith(last, input) {
        SubsequenceKeep(FilterPrefixed(init, input), init, last);
      } else {
        SubsequenceSkip(FilterPrefixed(init, input), init, last);
      }
    }
  }

  /** Completion offers "true" iff it starts with the input, and "false"
      likewise, in that order and nothing else. */
  lemma CompleteSpec(input: string)
    ensures Subsequence(Complete(input), ["true", "false"])
    ensures forall w :: w in Complete(input) <==> (w == "true" || w == "false") && StartsWith(w, input)
    ensures Complete(input)
         == (if StartsWith("true", input) then ["true"] else []) + (if StartsWith("false", input) then ["false"] else [])
  {
    FilterPrefixedSpec(["true", "false"], input);
    assert ["true", "false"][..1] == ["true"];
    assert ["true"][..0] == [];
  }

  /** The empty input completes to both words; an upper-case start to none. */
  lemma CompleteEmptyAndUpper()
    ensures Complete("") == ["true", "false"]
    ensures Complete("T") == []
  {
    CompleteSpec("");
    CompleteSpec("T");
    assert !StartsWith("true", "T") && !StartsWith("false", "T") by {
      assert "true"[0] != 'T' && "false"[0] != 'T';
    }
  }
}

/** SimpleArgumentString: the token itself is the value. */
module SimpleArgumentString {
  import opened Wrappers
  import opened Outcomes
  import opened SimpleCommandArgument

  /** parseArgument is the identity: it never fails and never yields null. */
  function Parse(token: string): (r: ParseOutcome)
    ensures r.Success? && r.value.Some?
    ensures r.value.value == StringValue(token)
  {
    Success(Some(StringValue(token)))
  }
}
