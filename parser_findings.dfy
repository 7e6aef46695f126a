/** `parseIdentifier` as written against its evident intent. The handler
    passes the rule name, the input and the offset to `parse`, which takes
    only the input: the start rule runs over the rule's NAME as if it were
    the text, the real input and the offset are dropped, and the caller gets
    `parse`'s answer (a value or null) instead of a match result. The rest of
    the model resolves an identifier through `EvalDefinition` at the offset,
    as intended. */
module ParserFindings {
  import opened ParserTypes
  import opened ParserSpec
  import ParserLemmas

  /** The identifier handler as written: `parse(name)` under start rule
      `grammar`. Only this outer call is as written: identifiers nested in
      the start rule are resolved by `EvalDefinition` as intended, so the
      counterexample below uses a start rule without identifiers. The
      caller of the handler would next call `isMatch()` on the string or
      null it gets back, which PHP answers with an Error; that step is not
      modelled. */
  function IdentifierAsWritten(g: Registry, grammar: Name, name: Name, input: Bytes, off: nat, fuel: nat): Answer
  {
    EvalParse(g, grammar, name, fuel)
  }

  /** As written, what an identifier evaluates to does not depend on the
      input or on the offset at all. */
  lemma AsWrittenIgnoresPosition(g: Registry, grammar: Name, name: Name, input: Bytes, off: nat, input': Bytes, off': nat, fuel: nat)
    ensures IdentifierAsWritten(g, grammar, name, input, off, fuel)
         == IdentifierAsWritten(g, grammar, name, input', off', fuel)
  {
  }

  /** With the single rule `A <- .` as start rule, the identifier `A` on the
      empty input should fail, since no byte remains; as written it runs `A`
      over the text "A" and hands back the value "A". */
  lemma IdentifierCounterexample(fuel: nat)
    requires 0 < fuel
    ensures var g := map[[65 as byte] := Definition(Any, None)];
      && IdentifierAsWritten(g, [65], [65], [], 0, fuel) == Returned(Str([65]))
      && EvalOp(g, Identifier([65]), [], 0, fuel) == NoMatch(0)
  {
    var g := map[[65 as byte] := Definition(Any, None)];
    var name: Name := [65];
    assert EvalOp(g, Any, name, 0, fuel - 1) == Match(1, Str([65]), 0);
    assert EvalDefinition(g, name, name, 0, fuel) == Match(1, Str([65]), 0);
    assert EvalOp(g, Any, [], 0, fuel - 1) == NoMatch(0);
    assert EvalDefinition(g, name, [], 0, fuel) == NoMatch(0);
    assert EvalOp(g, Identifier(name), [], 0, fuel) == EvalDefinition(g, name, [], 0, fuel);
  }

  /** The intended identifier is the named rule at the offset, as
      `parseDefinition` evaluates it: it reports that offset, stays within the
      input, passes on every result of the rule's tree but a match, and
      matches exactly when the tree does, with the tree's length and the
      value the rule's action makes of the tree's value. */
  lemma IdentifierIsRule(g: Registry, name: Name, input: Bytes, off: nat, fuel: nat)
    requires name in g && 0 < fuel && off <= |input|
    ensures var r := EvalOp(g, Identifier(name), input, off, fuel);
      var t := EvalOp(g, g[name].rule, input, off, fuel - 1);
      && r == EvalDefinition(g, name, input, off, fuel)
      && StartsAt(r, off)
      && (r.Match? ==> off + r.len <= |input|)
      && (!t.Match? ==> r == t)
      && (r.Match? <==> t.Match?)
      && (r.Match? ==> r.len == t.len)
      && (r.Match? ==> r.value == if g[name].action.Some? then g[name].action.value(t.value) else t.value)
  {
    assert EvalOp(g, Identifier(name), input, off, fuel) == EvalDefinition(g, name, input, off, fuel);
    ParserLemmas.DefinitionInBounds(g, name, input, off, fuel);
  }
}
