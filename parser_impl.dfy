/** Class `Parser` in the source's own form: a registry field that the
    constructor and `AddDefinition` write, and handlers that walk sequences,
    choices and repetitions with loops. Each handler is proved to compute what
    the matching function of `ParserSpec` specifies. */
module ParserImpl {
  import opened ParserTypes
  import opened ParserSpec
  import ParserLemmas

  class Parser {
    /** Name of the start rule. */
    var grammar: Name
    /** The rules, by name. */
    var definitions: Registry

    /** Copies the given rules into the registry one by one. */
    constructor (name: Name, defs: Registry)
      ensures grammar == name && definitions == defs
    {
      var copied: Registry := map[];
      var todo := defs.Keys;
      while todo != {}
        invariant todo <= defs.Keys
        invariant copied.Keys == defs.Keys - todo
        invariant forall id :: id in copied ==> copied[id] == defs[id]
        decreases |todo|
      {
        var id :| id in todo;
        copied := copied[id := defs[id]];
        todo := todo - {id};
      }
      grammar := name;
      definitions := copied;
    }

    /** Registers `rule` with its optional action under `id`, replacing any
        earlier rule of that name. */
    method AddDefinition(id: Name, rule: Op, action: Option<Value -> Value>)
      modifies this
      ensures definitions == old(definitions)[id := Definition(rule, action)]
      ensures grammar == old(grammar)
    {
      definitions := definitions[id := Definition(rule, action)];
    }

    /** Parses `input` with the start rule: null when it does not match. */
    method Parse(input: Bytes, fuel: nat) returns (a: Answer)
      ensures a == EvalParse(definitions, grammar, input, fuel)
    {
      var result := ParseDefinition(grammar, input, 0, fuel);
      match result
      case Match(_, v, _) => a := Returned(v);
      case NoMatch(_) => a := Returned(Null);
      case Raised(e) => a := Thrown(e);
      case Unfinished => a := DoesNotReturn;
    }

    method ParseDefinition(id: Name, input: Bytes, off: nat, fuel: nat) returns (r: Result)
      ensures r == EvalDefinition(definitions, id, input, off, fuel)
      decreases fuel, 0, 0, 0, 0
    {
      if id !in definitions {
        return Raised(UnknownRule(id));
      }
      if fuel == 0 {
        return Unfinished;
      }
      var definition := definitions[id];
      var result := ParseOperator(definition.rule, input, off, fuel - 1);
      r := WithAction(definition, result);
    }

    method ParseOperator(op: Op, input: Bytes, off: nat, fuel: nat) returns (r: Result)
      ensures r == EvalOp(definitions, op, input, off, fuel)
      decreases fuel, Size(op), 1, 0, 0
    {
      match op
      case Literal(text) => r := ParseLiteral(text, input, off);
      case CharacterClass(members) => r := ParseCharacterClass(members, input, off);
      case Identifier(name) => r := ParseDefinition(name, input, off, fuel);
      case Sequence(items) => r := ParseSequence(items, input, off, fuel);
      case Choice(alternatives) => r := ParseChoice(alternatives, input, off, fuel);
      case Repeat(child, min, max) => r := ParseRepeat(child, min, max, input, off, fuel);
      case Any => r := ParseAny(input, off);
      case Not(child) =>
        var result := ParseOperator(child, input, off, fuel);
        r := NotOf(result, off);
      case And(child) =>
        var result := ParseOperator(child, input, off, fuel);
        r := AndOf(result, off);
      case Undefined(tag) => r := Raised(UndefinedOperator(tag));
    }

    method ParseSequence(items: seq<Op>, input: Bytes, off: nat, fuel: nat) returns (r: Result)
      ensures r == EvalSequence(definitions, items, input, off, fuel)
      decreases fuel, SizeAll(items), 2, 0, 0
    {
      var g := definitions;
      var offset := off;
      var matches: seq<Value> := [];
      var matchLen: nat := 0;
      var i := 0;
      SequenceStart(g, items, input, off, fuel);
      while i < |items|
        invariant 0 <= i <= |items|
        invariant offset == off + matchLen
        invariant EvalSequence(g, items, input, off, fuel)
               == Prepend(matchLen, matches, EvalSequence(g, items[i..], input, offset, fuel), off)
      {
        SizeAllBound(items, i);
        var result := ParseOperator(items[i], input, offset, fuel);
        SequenceStep(g, items, i, input, off, fuel, offset, matches, matchLen, result);
        if !result.Match? {
          if result.NoMatch? {
            return NoMatch(off);
          }
          return result;
        }
        offset := offset + result.len;
        matches := matches + [result.value];
        matchLen := matchLen + result.len;
        i := i + 1;
      }
      assert matches + [] == matches;
      return Match(matchLen, List(matches), off);
    }

    method ParseChoice(alternatives: seq<Op>, input: Bytes, off: nat, fuel: nat) returns (r: Result)
      ensures r == EvalChoice(definitions, alternatives, input, off, fuel)
      decreases fuel, SizeAll(alternatives), 2, 0, 0
    {
      var i := 0;
      while i < |alternatives|
        invariant 0 <= i <= |alternatives|
        invariant EvalChoice(definitions, alternatives, input, off, fuel)
               == EvalChoice(definitions, alternatives[i..], input, off, fuel)
      {
        SizeAllBound(alternatives, i);
        var result := ParseOperator(alternatives[i], input, off, fuel);
        assert alternatives[i..][1..] == alternatives[i + 1..];
        if !result.NoMatch? {
          return result;
        }
        i := i + 1;
      }
      return NoMatch(off);
    }

    /** `count` is the number of iterations that have succeeded; the source's
        `++$i <= $max` tests `count < max` before each attempt, and its
        `$i <= $min` after a failure tests `count < min`. `Left` and `LeftMax`
        give the iterations still required and allowed. */
    method ParseRepeat(child: Op, min: nat, max: Option<nat>, input: Bytes, off: nat, fuel: nat)
      returns (r: Result)
      ensures r == EvalRepeat(definitions, child, min, max, input, off, fuel)
      decreases fuel, Size(child), 2, |input| - off, Bound(max)
    {
      var g := definitions;
      var offset := off;
      var matches: seq<Value> := [];
      var matchLen: nat := 0;
      var count: nat := 0;
      ghost var target := EvalRepeat(g, child, min, max, input, off, fuel);
      RepeatStart(g, child, min, max, input, off, fuel);
      while max.None? || count < max.value
        invariant max.Some? ==> count <= max.value
        invariant target == Prepend(matchLen, matches, EvalRepeat(g, child, Left(min, count), LeftMax(max, count), input, offset, fuel), off)
        decreases |input| - offset, Bound(max) - count
      {
        var result := ParseOperator(child, input, offset, fuel);
        if !result.Match? || offset + result.len > |input| {
          RepeatEnd(g, child, target, input, off, fuel, min, max, count, offset, matches, matchLen);
          if !result.Match? && !result.NoMatch? {
            r := result;
          } else if count < min {
            r := NoMatch(off);
          } else {
            r := Match(matchLen, List(matches), off);
          }
          return;
        }
        if result.len == 0 && max.None? {
          // every further iteration matches the same empty span: the source never leaves the loop
          RepeatStuck(g, child, target, input, off, fuel, min, max, count, offset, matches, matchLen);
          return Unfinished;
        }
        RepeatAdvance(g, child, target, input, off, fuel, min, max, count, offset, matches, matchLen, result);
        offset := offset + result.len;
        matches := matches + [result.value];
        matchLen := matchLen + result.len;
        count := count + 1;
      }
      RepeatDone(g, child, target, input, off, fuel, min, max, count, offset, matches, matchLen);
      return Match(matchLen, List(matches), off);
    }
  }

  /** Iterations still required after `count` have succeeded. */
  function Left(min: nat, count: nat): nat
  {
    if count <= min then min - count else 0
  }

  /** Iterations still allowed after `count` have succeeded. */
  function LeftMax(max: Option<nat>, count: nat): Option<nat>
  {
    match max
    case None => None
    case Some(m) => Some(if count <= m then m - count else 0)
  }

  /** One item of a sequence: a failure ends it, a match moves the
      accumulated prefix on. */
  lemma SequenceStep(g: Registry, items: seq<Op>, i: nat, input: Bytes, off: nat, fuel: nat,
                     offset: nat, matches: seq<Value>, matchLen: nat, first: Result)
    requires i < |items|
    requires EvalSequence(g, items, input, off, fuel)
          == Prepend(matchLen, matches, EvalSequence(g, items[i..], input, offset, fuel), off)
    requires first == EvalOp(g, items[i], input, offset, fuel)
    ensures first.Match? ==>
      && EvalSequence(g, items, input, off, fuel)
         == Prepend(matchLen + first.len, matches + [first.value],
                    EvalSequence(g, items[i + 1..], input, offset + first.len, fuel), off)
    ensures first.NoMatch? ==> EvalSequence(g, items, input, off, fuel) == NoMatch(off)
    ensures first.Raised? || first.Unfinished? ==> EvalSequence(g, items, input, off, fuel) == first
  {
    assert items[i..][0] == items[i];
    assert items[i..][1..] == items[i + 1..];
    if first.Match? {
      PrependAssoc(matchLen, matches, first.len, [first.value],
                   EvalSequence(g, items[i + 1..], input, offset + first.len, fuel), offset, off);
    }
  }

  /** Before the first iteration nothing has been accumulated. */
  lemma RepeatStart(g: Registry, child: Op, min: nat, max: Option<nat>, input: Bytes, off: nat, fuel: nat)
    ensures var target := EvalRepeat(g, child, min, max, input, off, fuel);
      target == Prepend(0, [], EvalRepeat(g, child, Left(min, 0), LeftMax(max, 0), input, off, fuel), off)
  {
    assert Left(min, 0) == min && LeftMax(max, 0) == max;
    var target := EvalRepeat(g, child, min, max, input, off, fuel);
    if target.Match? {
      assert target.off == off;
      assert [] + target.value.items == target.value.items;
    }
  }

  /** Before the first item nothing has been accumulated. */
  lemma SequenceStart(g: Registry, items: seq<Op>, input: Bytes, off: nat, fuel: nat)
    ensures var whole := EvalSequence(g, items, input, off, fuel);
      whole == Prepend(0, [], EvalSequence(g, items[0..], input, off, fuel), off)
  {
    assert items[0..] == items;
    var whole := EvalSequence(g, items, input, off, fuel);
    if whole.Match? {
      assert whole.off == off;
      assert [] + whole.value.items == whole.value.items;
    }
  }

  /** An iteration that raises, does not finish, fails or reaches past the
      end of the input ends the loop. */
  lemma RepeatEnd(g: Registry, child: Op, target: Result, input: Bytes, off: nat, fuel: nat,
                  min: nat, max: Option<nat>, count: nat, offset: nat, matches: seq<Value>, matchLen: nat)
    requires max.Some? ==> count < max.value
    requires target == Prepend(matchLen, matches, EvalRepeat(g, child, Left(min, count), LeftMax(max, count), input, offset, fuel), off)
    requires var first := EvalOp(g, child, input, offset, fuel);
      !first.Match? || offset + first.len > |input|
    ensures var first := EvalOp(g, child, input, offset, fuel);
      target == if first.Raised? || first.Unfinished? then first
                else if count < min then NoMatch(off)
                else Match(matchLen, List(matches), off)
  {
    assert matches + [] == matches;
  }

  /** An iteration that matches the empty string under no upper bound never
      lets the loop end. */
  lemma RepeatStuck(g: Registry, child: Op, target: Result, input: Bytes, off: nat, fuel: nat,
                    min: nat, max: Option<nat>, count: nat, offset: nat, matches: seq<Value>, matchLen: nat)
    requires max.None?
    requires target == Prepend(matchLen, matches, EvalRepeat(g, child, Left(min, count), LeftMax(max, count), input, offset, fuel), off)
    requires var first := EvalOp(g, child, input, offset, fuel);
      first.Match? && first.len == 0 && offset <= |input|
    ensures target == Unfinished
  {
  }

  /** The loop ends once `max` iterations have succeeded. */
  lemma RepeatDone(g: Registry, child: Op, target: Result, input: Bytes, off: nat, fuel: nat,
                   min: nat, max: Option<nat>, count: nat, offset: nat, matches: seq<Value>, matchLen: nat)
    requires max == Some(count)
    requires target == Prepend(matchLen, matches, EvalRepeat(g, child, Left(min, count), LeftMax(max, count), input, offset, fuel), off)
    ensures target == Match(matchLen, List(matches), off)
  {
    assert matches + [] == matches;
  }

  /** A successful iteration moves the accumulated prefix on. */
  lemma RepeatAdvance(g: Registry, child: Op, target: Result, input: Bytes, off: nat, fuel: nat,
                      min: nat, max: Option<nat>, count: nat, offset: nat, matches: seq<Value>, matchLen: nat, first: Result)
    requires max.Some? ==> count < max.value
    requires target == Prepend(matchLen, matches, EvalRepeat(g, child, Left(min, count), LeftMax(max, count), input, offset, fuel), off)
    requires first == EvalOp(g, child, input, offset, fuel)
    requires first.Match? && (first.len > 0 || max.Some?)
    requires offset + first.len <= |input|
    ensures target == Prepend(matchLen + first.len, matches + [first.value],
                              EvalRepeat(g, child, Left(min, count + 1), LeftMax(max, count + 1), input, offset + first.len, fuel), off)
  {
    ParserLemmas.RepeatStep(g, child, Left(min, count), LeftMax(max, count), input, offset, fuel);
    assert DecMin(Left(min, count)) == Left(min, count + 1);
    assert DecMax(LeftMax(max, count)) == LeftMax(max, count + 1);
    PrependAssoc(matchLen, matches, first.len, [first.value],
                 EvalRepeat(g, child, Left(min, count + 1), LeftMax(max, count + 1), input, offset + first.len, fuel), offset, off);
  }
}
