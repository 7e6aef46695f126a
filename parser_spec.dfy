/** The PEG evaluator of class `Parser` as functions: one function per
    handler, offsets passed as values, exceptions as `Raised`. The fuel bounds
    how deeply rules may be resolved through one another; the source has no
    such bound. */
module ParserSpec {
  import opened ParserTypes

  /** PHP's `substr($s, $start, $n)` for a start inside the string: at most
      `n` bytes from `start`, fewer when the string ends first. */
  function Substr(s: Bytes, start: nat, n: nat): (r: Bytes)
    requires start <= |s|
    ensures start + n <= |s| ==> r == s[start..start + n]
    ensures start + n > |s| ==> r == s[start..] && |r| < n
  {
    s[start..if start + n <= |s| then start + n else |s|]
  }

  /** `text` occurs in `input` at `off`. */
  predicate OccursAt(text: Bytes, input: Bytes, off: nat)
  {
    off + |text| <= |input| && forall k :: 0 <= k < |text| ==> input[off + k] == text[k]
  }

  /** `parseLiteral`: the literal text must be the next bytes of the input. */
  function ParseLiteral(text: Bytes, input: Bytes, off: nat): (r: Result)
  {
    if OccursAt(text, input, off) then Match(|text|, Str(text), off) else NoMatch(off)
  }

  /** `parseCharacterClass`: the bracket expression is applied to the rest of
      the input, so it matches the one byte at the offset when that byte is a
      member of the class. */
  function ParseCharacterClass(members: set<byte>, input: Bytes, off: nat): (r: Result)
  {
    if off < |input| && input[off] in members then Match(1, Str([input[off]]), off) else NoMatch(off)
  }

  /** `parseAny`: any single byte, as long as one remains. */
  function ParseAny(input: Bytes, off: nat): (r: Result)
  {
    if off < |input| then Match(1, Str([input[off]]), off) else NoMatch(off)
  }

  /** `parseNot` once its child has been evaluated at `off`. */
  function NotOf(child: Result, off: nat): (r: Result)
    ensures r.Match? <==> child.NoMatch?
    ensures r.NoMatch? <==> child.Match?
    ensures r.Match? ==> r == Match(0, Null, off)
    ensures r.NoMatch? ==> r.off == off
    ensures child.Raised? || child.Unfinished? ==> r == child
  {
    match child
    case Match(_, _, _) => NoMatch(off)
    case NoMatch(_) => Match(0, Null, off)
    case _ => child
  }

  /** `parseAnd` once its child has been evaluated at `off`. */
  function AndOf(child: Result, off: nat): (r: Result)
    ensures r.Match? <==> child.Match?
    ensures r.NoMatch? <==> child.NoMatch?
    ensures r.Match? ==> r == Match(0, Null, off)
    ensures r.NoMatch? ==> r.off == off
    ensures child.Raised? || child.Unfinished? ==> r == child
  {
    match child
    case Match(_, _, _) => Match(0, Null, off)
    case NoMatch(_) => NoMatch(off)
    case _ => child
  }

  /** The tail of `parseDefinition`: the rule's action transforms the value
      of a match, which keeps its length and start; everything else is
      passed on untouched. Without an action the raw value is kept. */
  function WithAction(d: Definition, r: Result): (r': Result)
    ensures !r.Match? ==> r' == r
    ensures r.Match? ==> r'.Match? && r'.len == r.len && r'.off == r.off
    ensures r.Match? && d.action.None? ==> r' == r
    ensures r.Match? && d.action.Some? ==> r'.value == d.action.value(r.value)
  {
    if !r.Match? then r
    else match d.action
      case None => r
      case Some(f) => Match(r.len, f(r.value), r.off)
  }

  /** Puts `len` bytes and the values `vs`, matched before `rest` started,
      in front of `rest`; the combined attempt started at `off`. A failure of
      `rest` is a failure of the whole at `off`. */
  function Prepend(len: nat, vs: seq<Value>, rest: Result, off: nat): (r: Result)
    requires rest.Match? ==> rest.value.List?
  {
    match rest
    case Match(l, v, _) => Match(len + l, List(vs + v.items), off)
    case NoMatch(_) => NoMatch(off)
    case _ => rest
  }

  /** Prepending twice is prepending the two prefixes together. */
  lemma PrependAssoc(len: nat, vs: seq<Value>, l: nat, ws: seq<Value>, rest: Result, mid: nat, off: nat)
    requires rest.Match? ==> rest.value.List?
    ensures Prepend(len, vs, Prepend(l, ws, rest, mid), off) == Prepend(len + l, vs + ws, rest, off)
  {
    if rest.Match? {
      assert vs + (ws + rest.value.items) == vs + ws + rest.value.items;
    }
  }

  function DecMin(min: nat): nat
  {
    if min > 0 then min - 1 else 0
  }

  function DecMax(max: Option<nat>): Option<nat>
  {
    match max
    case None => None
    case Some(m) => Some(if m > 0 then m - 1 else 0)
  }

  function Bound(max: Option<nat>): nat
  {
    match max
    case None => 0
    case Some(m) => m
  }

  /** `parseOperator`: an operator whose tag names no handler raises;
      every other operator goes to its handler. (`ParserLemmas.InBounds`:
      every Match and NoMatch reports the offset it started at, and a Match
      never reaches past the end of the input.) */
  function EvalOp(g: Registry, op: Op, input: Bytes, off: nat, fuel: nat): (r: Result)
    decreases fuel, Size(op), 1, 0, 0
  {
    if op.Undefined? then Raised(UndefinedOperator(op.tag))
    else Dispatch(g, op, input, off, fuel)
  }

  /** The handler `parse<Tag>` of an operator with a handler. */
  function Dispatch(g: Registry, op: Op, input: Bytes, off: nat, fuel: nat): (r: Result)
    requires !op.Undefined?
    decreases fuel, Size(op), 0, 0, 0
  {
    match op
    case Literal(text) => ParseLiteral(text, input, off)
    case CharacterClass(members) => ParseCharacterClass(members, input, off)
    case Identifier(name) => EvalDefinition(g, name, input, off, fuel)
    case Sequence(items) => EvalSequence(g, items, input, off, fuel)
    case Choice(alternatives) => EvalChoice(g, alternatives, input, off, fuel)
    case Repeat(child, min, max) => EvalRepeat(g, child, min, max, input, off, fuel)
    case Any => ParseAny(input, off)
    case Not(child) => NotOf(EvalOp(g, child, input, off, fuel), off)
    case And(child) => AndOf(EvalOp(g, child, input, off, fuel), off)
  }

  /** `parseDefinition`: resolve the rule by name, evaluate its tree and
      apply its action to a match. An unknown name raises whatever the input
      or the fuel; each resolution spends one unit of fuel. */
  function EvalDefinition(g: Registry, name: Name, input: Bytes, off: nat, fuel: nat): (r: Result)
    decreases fuel, 0, 0, 0, 0
  {
    if name !in g then Raised(UnknownRule(name))
    else if fuel == 0 then Unfinished
    else WithAction(g[name], EvalOp(g, g[name].rule, input, off, fuel - 1))
  }

  /** `parseSequence`: the first item at `off`, the rest from where it
      stopped. */
  function EvalSequence(g: Registry, items: seq<Op>, input: Bytes, off: nat, fuel: nat): (r: Result)
    ensures r.Match? ==> r.value.List?
    decreases fuel, SizeAll(items), 2, 0, 0
  {
    if items == [] then Match(0, List([]), off)
    else
      var first := EvalOp(g, items[0], input, off, fuel);
      if first.Match? then
        Prepend(first.len, [first.value], EvalSequence(g, items[1..], input, off + first.len, fuel), off)
      else if first.NoMatch? then NoMatch(off)
      else first
  }

  /** `parseChoice`: the alternatives in order, all at `off`; the first one
      that does not fail decides. */
  function EvalChoice(g: Registry, alternatives: seq<Op>, input: Bytes, off: nat, fuel: nat): (r: Result)
    decreases fuel, SizeAll(alternatives), 2, 0, 0
  {
    if alternatives == [] then NoMatch(off)
    else
      var first := EvalOp(g, alternatives[0], input, off, fuel);
      if first.NoMatch? then EvalChoice(g, alternatives[1..], input, off, fuel)
      else first
  }

  /** `parseRepeat` from one iteration on: `min` and `max` are what is still
      required and allowed. A failed iteration (or, as in the source, a match
      past the end of the input) ends the loop, and fails the whole when fewer
      than `min` iterations succeeded. Once `max` iterations have succeeded the
      loop ends with a match, even when `max` is below `min`. */
  function EvalRepeat(g: Registry, child: Op, min: nat, max: Option<nat>, input: Bytes, off: nat, fuel: nat): (r: Result)
    ensures r.Match? ==> r.value.List?
    decreases fuel, Size(child), 2, |input| - off, Bound(max)
  {
    if max == Some(0) then Match(0, List([]), off)
    else
      var first := EvalOp(g, child, input, off, fuel);
      if first.Raised? || first.Unfinished? then first
      else if !first.Match? || off + first.len > |input| then
        if min > 0 then NoMatch(off) else Match(0, List([]), off)
      else if first.len == 0 && max.None? then Unfinished
      else
        Prepend(first.len, [first.value],
                EvalRepeat(g, child, DecMin(min), DecMax(max), input, off + first.len, fuel), off)
  }

  /** `parse`: the start rule at offset 0. PHP's null stands both for "no
      match" and for a match whose value is null. */
  function EvalParse(g: Registry, grammar: Name, input: Bytes, fuel: nat): (a: Answer)
  {
    match EvalDefinition(g, grammar, input, 0, fuel)
    case Match(_, v, _) => Returned(v)
    case NoMatch(_) => Returned(Null)
    case Raised(e) => Thrown(e)
    case Unfinished => DoesNotReturn
  }
}
