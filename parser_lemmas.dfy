/** What the evaluator of `ParserSpec` promises: each terminal against the
    formulation the source uses, the composition laws of Sequence, Choice and
    Repeat, the separation of grammar defects from non-matches, and the
    stability of finished results under more fuel. */
module ParserLemmas {
  import opened ParserTypes
  import opened ParserSpec

  // ---------------------------------------------------------------- terminals

  /** A literal matches exactly when its text is the next slice of the input,
      which is when PHP's `substr` of that length equals the text; the match
      covers the text and carries it as its value. */
  lemma LiteralMatches(text: Bytes, input: Bytes, off: nat)
    requires off <= |input|
    ensures var r := ParseLiteral(text, input, off);
      && (r.Match? <==> off + |text| <= |input| && input[off..off + |text|] == text)
      && (r.Match? <==> Substr(input, off, |text|) == text)
      && (r.Match? ==> r == Match(|text|, Str(text), off))
      && (!r.Match? ==> r == NoMatch(off))
  {
    if off + |text| <= |input| {
      if OccursAt(text, input, off) {
        assert input[off..off + |text|] == text;
      } else {
        var k :| 0 <= k < |text| && input[off + k] != text[k];
        assert input[off..off + |text|][k] != text[k];
      }
    }
  }

  /** A character class matches the one byte at the offset exactly when a
      byte remains and it is a member; the value is that byte, which is the
      one-byte `substr` at the offset. */
  lemma CharacterClassMatches(members: set<byte>, input: Bytes, off: nat)
    requires off <= |input|
    ensures var r := ParseCharacterClass(members, input, off);
      && (r.Match? <==> off < |input| && input[off] in members)
      && (r.Match? ==> r == Match(1, Str(Substr(input, off, 1)), off))
      && (!r.Match? ==> r == NoMatch(off))
  {
    if off < |input| {
      assert Substr(input, off, 1) == [input[off]];
    }
  }

  /** Any matches exactly when at least one byte remains, with that byte,
      taken as the one-byte `substr` at the offset, as its value. */
  lemma AnyMatches(input: Bytes, off: nat)
    requires off <= |input|
    ensures var r := ParseAny(input, off);
      && (r.Match? <==> |input| - off >= 1)
      && (r.Match? ==> r == Match(1, Str(Substr(input, off, 1)), off))
      && (!r.Match? ==> r == NoMatch(off))
  {
    if off < |input| {
      assert Substr(input, off, 1) == [input[off]];
    }
  }

  // ---------------------------------------------------------------- bounds

  /** Every Match and NoMatch reports the offset its attempt started at, and
      a Match never reaches past the end of the input. This makes the test of
      the new offset against the input length in `parseRepeat` redundant. */
  lemma {:induction false} InBounds(g: Registry, op: Op, input: Bytes, off: nat, fuel: nat)
    requires off <= |input|
    ensures var r := EvalOp(g, op, input, off, fuel);
      StartsAt(r, off) && (r.Match? ==> off + r.len <= |input|)
    decreases fuel, Size(op), 1, 0, 0
  {
    match op
    case Identifier(name) => DefinitionInBounds(g, name, input, off, fuel);
    case Sequence(items) => SequenceInBounds(g, items, input, off, fuel);
    case Choice(alternatives) => ChoiceInBounds(g, alternatives, input, off, fuel);
    case Repeat(child, min, max) => RepeatInBounds(g, child, min, max, input, off, fuel);
    case _ =>
  }

  lemma {:induction false} DefinitionInBounds(g: Registry, name: Name, input: Bytes, off: nat, fuel: nat)
    requires off <= |input|
    ensures var r := EvalDefinition(g, name, input, off, fuel);
      StartsAt(r, off) && (r.Match? ==> off + r.len <= |input|)
    decreases fuel, 0, 0, 0, 0
  {
    if name in g && fuel > 0 {
      InBounds(g, g[name].rule, input, off, fuel - 1);
    }
  }

  lemma {:induction false} SequenceInBounds(g: Registry, items: seq<Op>, input: Bytes, off: nat, fuel: nat)
    requires off <= |input|
    ensures var r := EvalSequence(g, items, input, off, fuel);
      StartsAt(r, off) && (r.Match? ==> off + r.len <= |input|)
    decreases fuel, SizeAll(items), 2, 0, 0
  {
    if items != [] {
      InBounds(g, items[0], input, off, fuel);
      var first := EvalOp(g, items[0], input, off, fuel);
      if first.Match? {
        SequenceInBounds(g, items[1..], input, off + first.len, fuel);
      }
    }
  }

  lemma {:induction false} ChoiceInBounds(g: Registry, alternatives: seq<Op>, input: Bytes, off: nat, fuel: nat)
    requires off <= |input|
    ensures var r := EvalChoice(g, alternatives, input, off, fuel);
      StartsAt(r, off) && (r.Match? ==> off + r.len <= |input|)
    decreases fuel, SizeAll(alternatives), 2, 0, 0
  {
    if alternatives != [] {
      InBounds(g, alternatives[0], input, off, fuel);
      ChoiceInBounds(g, alternatives[1..], input, off, fuel);
    }
  }

  lemma {:induction false} RepeatInBounds(g: Registry, child: Op, min: nat, max: Option<nat>, input: Bytes, off: nat, fuel: nat)
    requires off <= |input|
    ensures var r := EvalRepeat(g, child, min, max, input, off, fuel);
      StartsAt(r, off) && (r.Match? ==> off + r.len <= |input|)
    decreases fuel, Size(child), 2, |input| - off, Bound(max)
  {
    if max != Some(0) {
      var first := EvalOp(g, child, input, off, fuel);
      if first.Match? && off + first.len <= |input| && (first.len > 0 || max.Some?) {
        RepeatInBounds(g, child, DecMin(min), DecMax(max), input, off + first.len, fuel);
      }
    }
  }

  // ------------------------------------------------------------ predicates

  /** Not and And consume nothing: Not matches (with null) exactly when its
      child fails, And exactly when its child matches; failures and
      exceptions of the child are passed on. */
  lemma LookaheadConsumesNothing(g: Registry, child: Op, input: Bytes, off: nat, fuel: nat)
    ensures var c := EvalOp(g, child, input, off, fuel);
      var n := EvalOp(g, Not(child), input, off, fuel);
      var a := EvalOp(g, And(child), input, off, fuel);
      && (n.Match? <==> c.NoMatch?) && (n.Match? ==> n == Match(0, Null, off))
      && (n.NoMatch? <==> c.Match?) && (n.NoMatch? ==> n == NoMatch(off))
      && (a.Match? <==> c.Match?) && (a.Match? ==> a == Match(0, Null, off))
      && (a.NoMatch? <==> c.NoMatch?) && (a.NoMatch? ==> a == NoMatch(off))
      && (!c.Match? && !c.NoMatch? ==> n == c && a == c)
  {
  }

  /** And is the double negation of its child. */
  lemma AndIsNotNot(g: Registry, child: Op, input: Bytes, off: nat, fuel: nat)
    ensures EvalOp(g, And(child), input, off, fuel) == EvalOp(g, Not(Not(child)), input, off, fuel)
  {
    assert EvalOp(g, Not(child), input, off, fuel) == NotOf(EvalOp(g, child, input, off, fuel), off);
  }

  // -------------------------------------------------------------- sequence

  /** A non-empty sequence: its first item, then the rest from where the
      first item stopped. */
  lemma SequenceCons(g: Registry, items: seq<Op>, input: Bytes, off: nat, fuel: nat)
    requires items != []
    ensures var first := EvalOp(g, items[0], input, off, fuel);
      EvalSequence(g, items, input, off, fuel)
      == if first.Match? then
           Prepend(first.len, [first.value], EvalSequence(g, items[1..], input, off + first.len, fuel), off)
         else if first.NoMatch? then NoMatch(off)
         else first
  {
  }

  /** Splitting a sequence: the second part runs from where the first part
      stopped, and a failure of either part is a failure of the whole at the
      start offset. */
  lemma {:induction false} SequenceConcat(g: Registry, a: seq<Op>, b: seq<Op>, input: Bytes, off: nat, fuel: nat)
    ensures var ra := EvalSequence(g, a, input, off, fuel);
      EvalSequence(g, a + b, input, off, fuel)
      == if ra.Match? then Prepend(ra.len, ra.value.items, EvalSequence(g, b, input, off + ra.len, fuel), off)
         else ra
    decreases |a|
  {
    if a == [] {
      assert a + b == b;
      var rb := EvalSequence(g, b, input, off, fuel);
      if rb.Match? {
        assert [] + rb.value.items == rb.value.items;
      }
    } else {
      assert (a + b)[0] == a[0];
      assert (a + b)[1..] == a[1..] + b;
      SequenceCons(g, a + b, input, off, fuel);
      SequenceCons(g, a, input, off, fuel);
      var first := EvalOp(g, a[0], input, off, fuel);
      if first.Match? {
        var mid := off + first.len;
        var rest := EvalSequence(g, a[1..], input, mid, fuel);
        SequenceConcat(g, a[1..], b, input, mid, fuel);
        if rest.Match? {
          PrependAssoc(first.len, [first.value], rest.len, rest.value.items,
                       EvalSequence(g, b, input, mid + rest.len, fuel), mid, off);
        }
      }
    }
  }

  /** A sequence of two items: the second starts where the first stopped;
      the match covers both and lists both values in order. */
  lemma SequencePair(g: Registry, x: Op, y: Op, input: Bytes, off: nat, fuel: nat)
    ensures var rx := EvalOp(g, x, input, off, fuel);
      EvalSequence(g, [x, y], input, off, fuel)
      == if rx.Match? then
           var ry := EvalOp(g, y, input, off + rx.len, fuel);
           if ry.Match? then Match(rx.len + ry.len, List([rx.value, ry.value]), off)
           else if ry.NoMatch? then NoMatch(off)
           else ry
         else if rx.NoMatch? then NoMatch(off)
         else rx
  {
    SequenceCons(g, [x, y], input, off, fuel);
    var rx := EvalOp(g, x, input, off, fuel);
    if rx.Match? {
      var mid := off + rx.len;
      assert [x, y][1..] == [y];
      SequenceCons(g, [y], input, mid, fuel);
      var ry := EvalOp(g, y, input, mid, fuel);
      if ry.Match? {
        assert [y][1..] == [];
        assert EvalSequence(g, [], input, mid + ry.len, fuel) == Match(0, List([]), mid + ry.len);
      }
    }
  }

  // ---------------------------------------------------------------- choice

  /** The first alternative that does not fail decides the choice; the
      alternatives after it are never considered. */
  lemma {:induction false} ChoiceFirstDecides(g: Registry, alternatives: seq<Op>, i: nat, input: Bytes, off: nat, fuel: nat)
    requires i < |alternatives|
    requires forall j :: 0 <= j < i ==> EvalOp(g, alternatives[j], input, off, fuel).NoMatch?
    requires !EvalOp(g, alternatives[i], input, off, fuel).NoMatch?
    ensures EvalChoice(g, alternatives, input, off, fuel) == EvalOp(g, alternatives[i], input, off, fuel)
    decreases i
  {
    if i > 0 {
      assert EvalOp(g, alternatives[0], input, off, fuel).NoMatch?;
      var rest := alternatives[1..];
      forall j | 0 <= j < i - 1
        ensures EvalOp(g, rest[j], input, off, fuel).NoMatch?
      {
        assert rest[j] == alternatives[j + 1];
      }
      assert rest[i - 1] == alternatives[i];
      ChoiceFirstDecides(g, rest, i - 1, input, off, fuel);
    }
  }

  /** A choice fails exactly when every alternative fails at the offset. */
  lemma {:induction false} ChoiceFailsIff(g: Registry, alternatives: seq<Op>, input: Bytes, off: nat, fuel: nat)
    ensures EvalChoice(g, alternatives, input, off, fuel) == NoMatch(off)
            <==> forall j :: 0 <= j < |alternatives| ==> EvalOp(g, alternatives[j], input, off, fuel).NoMatch?
    decreases |alternatives|
  {
    if alternatives != [] {
      var rest := alternatives[1..];
      ChoiceFailsIff(g, rest, input, off, fuel);
      assert forall j :: 0 <= j < |rest| ==> rest[j] == alternatives[j + 1];
      if EvalOp(g, alternatives[0], input, off, fuel).NoMatch? {
        forall j | 0 <= j < |alternatives| && (forall j' :: 0 <= j' < |rest| ==> EvalOp(g, rest[j'], input, off, fuel).NoMatch?)
          ensures EvalOp(g, alternatives[j], input, off, fuel).NoMatch?
        {
          if j > 0 {
            assert alternatives[j] == rest[j - 1];
          }
        }
      }
    }
  }

  /** Appending alternatives changes a choice only when all earlier ones
      fail. */
  lemma {:induction false} ChoiceConcat(g: Registry, a: seq<Op>, b: seq<Op>, input: Bytes, off: nat, fuel: nat)
    ensures var ra := EvalChoice(g, a, input, off, fuel);
      EvalChoice(g, a + b, input, off, fuel) == if ra.NoMatch? then EvalChoice(g, b, input, off, fuel) else ra
    decreases |a|
  {
    if a == [] {
      assert a + b == b;
    } else {
      assert (a + b)[0] == a[0];
      assert (a + b)[1..] == a[1..] + b;
      ChoiceConcat(g, a[1..], b, input, off, fuel);
    }
  }

  // ---------------------------------------------------------------- repeat

  /** `k` copies of the same operator. */
  function Copies(child: Op, k: nat): (ops: seq<Op>)
    ensures |ops| == k
    ensures forall i :: 0 <= i < k ==> ops[i] == child
  {
    if k == 0 then [] else [child] + Copies(child, k - 1)
  }

  /** The repetition after one successful iteration that moves on or leaves
      fewer iterations allowed. */
  lemma RepeatStep(g: Registry, child: Op, min: nat, max: Option<nat>, input: Bytes, off: nat, fuel: nat)
    requires max != Some(0)
    requires EvalOp(g, child, input, off, fuel).Match?
    requires EvalOp(g, child, input, off, fuel).len > 0 || max.Some?
    requires off + EvalOp(g, child, input, off, fuel).len <= |input|
    ensures var first := EvalOp(g, child, input, off, fuel);
      EvalRepeat(g, child, min, max, input, off, fuel)
      == Prepend(first.len, [first.value], EvalRepeat(g, child, DecMin(min), DecMax(max), input, off + first.len, fuel), off)
  {
  }

  /** The repetition when its next iteration does not match. */
  lemma RepeatEnds(g: Registry, child: Op, min: nat, max: Option<nat>, input: Bytes, off: nat, fuel: nat)
    requires max != Some(0)
    requires var first := EvalOp(g, child, input, off, fuel);
      !first.Match? || off + first.len > |input|
    ensures var first := EvalOp(g, child, input, off, fuel);
      EvalRepeat(g, child, min, max, input, off, fuel)
      == if first.Raised? || first.Unfinished? then first
         else if min > 0 then NoMatch(off) else Match(0, List([]), off)
  {
  }

  /** A sequence of copies of one operator: the first copy, then the rest
      from where it stopped. */
  lemma CopiesStep(g: Registry, child: Op, k: nat, input: Bytes, off: nat, fuel: nat)
    requires 0 < k
    ensures var first := EvalOp(g, child, input, off, fuel);
      EvalSequence(g, Copies(child, k), input, off, fuel)
      == if first.Match? then
           Prepend(first.len, [first.value], EvalSequence(g, Copies(child, k - 1), input, off + first.len, fuel), off)
         else if first.NoMatch? then NoMatch(off)
         else first
  {
    assert Copies(child, k)[1..] == Copies(child, k - 1);
  }

  /** A matching iteration in front of `k` matching copies makes `k + 1`. */
  lemma CopiesPrepend(g: Registry, child: Op, k: nat, input: Bytes, off: nat, fuel: nat, rest: Result)
    requires EvalOp(g, child, input, off, fuel).Match?
    requires var first := EvalOp(g, child, input, off, fuel);
      rest == EvalSequence(g, Copies(child, k), input, off + first.len, fuel)
    requires rest.Match?
    ensures var first := EvalOp(g, child, input, off, fuel);
      var r := Prepend(first.len, [first.value], rest, off);
      r == EvalSequence(g, Copies(child, k + 1), input, off, fuel) && |r.value.items| == |rest.value.items| + 1
  {
    CopiesStep(g, child, k + 1, input, off, fuel);
  }

  /** A repetition that matches after `k` iterations is the sequence of `k`
      copies of its child: the length is the sum of the iterations' lengths
      and the value is their list of values. */
  lemma {:induction false} RepeatIsSequence(g: Registry, child: Op, min: nat, max: Option<nat>, input: Bytes, off: nat, fuel: nat)
    ensures var r := EvalRepeat(g, child, min, max, input, off, fuel);
      r.Match? ==> r == EvalSequence(g, Copies(child, |r.value.items|), input, off, fuel)
    decreases |input| - off, Bound(max)
  {
    var r := EvalRepeat(g, child, min, max, input, off, fuel);
    assert EvalSequence(g, Copies(child, 0), input, off, fuel) == Match(0, List([]), off);
    if max != Some(0) {
      var first := EvalOp(g, child, input, off, fuel);
      if !first.Match? || off + first.len > |input| {
        RepeatEnds(g, child, min, max, input, off, fuel);
      } else if first.len > 0 || max.Some? {
        var mid := off + first.len;
        RepeatStep(g, child, min, max, input, off, fuel);
        var rest := EvalRepeat(g, child, DecMin(min), DecMax(max), input, mid, fuel);
        assert r == Prepend(first.len, [first.value], rest, off);
        if rest.Match? {
          RepeatIsSequence(g, child, DecMin(min), DecMax(max), input, mid, fuel);
          CopiesPrepend(g, child, |rest.value.items|, input, off, fuel, rest);
        } else {
          assert !r.Match?;
        }
      } else {
        assert r == Unfinished;
      }
    }
  }

  /** A matching repetition never exceeds `max` iterations, and reaches `min`
      unless `max` stopped it first. */
  lemma {:induction false} RepeatCount(g: Registry, child: Op, min: nat, max: Option<nat>, input: Bytes, off: nat, fuel: nat)
    ensures var r := EvalRepeat(g, child, min, max, input, off, fuel);
      r.Match? ==>
        && (max.Some? ==> |r.value.items| <= max.value)
        && (min <= |r.value.items| || max == Some(|r.value.items|))
    decreases |input| - off, Bound(max)
  {
    if max != Some(0) {
      var first := EvalOp(g, child, input, off, fuel);
      if !first.Match? || off + first.len > |input| {
        RepeatEnds(g, child, min, max, input, off, fuel);
      } else if first.len > 0 || max.Some? {
        RepeatStep(g, child, min, max, input, off, fuel);
        RepeatCount(g, child, DecMin(min), DecMax(max), input, off + first.len, fuel);
      }
    }
  }

  /** Repetition is greedy: unless `max` iterations were taken, one more
      iteration fails where the match ends. */
  lemma {:induction false} RepeatGreedy(g: Registry, child: Op, min: nat, max: Option<nat>, input: Bytes, off: nat, fuel: nat)
    requires off <= |input|
    ensures var r := EvalRepeat(g, child, min, max, input, off, fuel);
      r.Match? && (max.None? || |r.value.items| < max.value) ==> !EvalOp(g, child, input, off + r.len, fuel).Match?
    decreases |input| - off, Bound(max)
  {
    if max != Some(0) {
      var first := EvalOp(g, child, input, off, fuel);
      if !first.Match? || off + first.len > |input| {
        RepeatEnds(g, child, min, max, input, off, fuel);
        InBounds(g, child, input, off, fuel);
      } else if first.len > 0 || max.Some? {
        RepeatStep(g, child, min, max, input, off, fuel);
        RepeatGreedy(g, child, DecMin(min), DecMax(max), input, off + first.len, fuel);
      }
    }
  }

  /** `k` iterations of `child` match from `off` and the next one does not. */
  predicate StopsAfter(g: Registry, child: Op, k: nat, input: Bytes, off: nat, fuel: nat)
  {
    var done := EvalSequence(g, Copies(child, k), input, off, fuel);
    done.Match? && !EvalOp(g, child, input, off + done.len, fuel).Match?
  }

  /** One more matching iteration in front of `k` that stop. */
  lemma StopsAfterStep(g: Registry, child: Op, k: nat, input: Bytes, off: nat, fuel: nat)
    requires EvalOp(g, child, input, off, fuel).Match?
    requires StopsAfter(g, child, k, input, off + EvalOp(g, child, input, off, fuel).len, fuel)
    ensures StopsAfter(g, child, k + 1, input, off, fuel)
  {
    CopiesStep(g, child, k + 1, input, off, fuel);
  }

  /** A repetition fails only when `min` is positive, after fewer than `min`
      (and fewer than `max`) iterations matched and the next one failed. In
      particular a repetition with `min` zero never fails. */
  lemma {:induction false} RepeatNoMatch(g: Registry, child: Op, min: nat, max: Option<nat>, input: Bytes, off: nat, fuel: nat)
    requires off <= |input|
    ensures EvalRepeat(g, child, min, max, input, off, fuel).NoMatch? ==>
      && 0 < min
      && exists k: nat :: k < min && (max.None? || k < max.value) && StopsAfter(g, child, k, input, off, fuel)
    decreases |input| - off, Bound(max)
  {
    if max != Some(0) {
      var first := EvalOp(g, child, input, off, fuel);
      if !first.Match? || off + first.len > |input| {
        RepeatEnds(g, child, min, max, input, off, fuel);
        InBounds(g, child, input, off, fuel);
        assert StopsAfter(g, child, 0, input, off, fuel);
      } else if first.len > 0 || max.Some? {
        var mid := off + first.len;
        RepeatStep(g, child, min, max, input, off, fuel);
        if EvalRepeat(g, child, DecMin(min), DecMax(max), input, mid, fuel).NoMatch? {
          RepeatNoMatch(g, child, DecMin(min), DecMax(max), input, mid, fuel);
          var k: nat :| k < DecMin(min) && (DecMax(max).None? || k < DecMax(max).value)
                        && StopsAfter(g, child, k, input, mid, fuel);
          StopsAfterStep(g, child, k, input, off, fuel);
        }
      }
    }
  }

  /** Copies of a child that matches the empty string at `p` all match the
      empty string there. */
  lemma {:induction false} ZeroWidthCopies(g: Registry, child: Op, k: nat, input: Bytes, p: nat, fuel: nat)
    requires EvalOp(g, child, input, p, fuel).Match? && EvalOp(g, child, input, p, fuel).len == 0
    ensures var done := EvalSequence(g, Copies(child, k), input, p, fuel);
      done.Match? && done.len == 0
    decreases k
  {
    if k > 0 {
      CopiesStep(g, child, k, input, p, fuel);
      ZeroWidthCopies(g, child, k - 1, input, p, fuel);
    }
  }

  /** When some copies match and the next iteration does not, the first
      copy consumed input: otherwise every later attempt would match the
      empty string at the same offset again. */
  lemma CopiesProgress(g: Registry, child: Op, k: nat, input: Bytes, off: nat, fuel: nat)
    requires 0 < k
    requires EvalSequence(g, Copies(child, k), input, off, fuel).Match?
    requires var done := EvalSequence(g, Copies(child, k), input, off, fuel);
      !EvalOp(g, child, input, off + done.len, fuel).Match?
    ensures EvalOp(g, child, input, off, fuel).Match? && EvalOp(g, child, input, off, fuel).len > 0
  {
    CopiesStep(g, child, k, input, off, fuel);
    var first := EvalOp(g, child, input, off, fuel);
    if first.Match? && first.len == 0 {
      ZeroWidthCopies(g, child, k - 1, input, off, fuel);
      assert false;
    }
  }

  /** One step of `RepeatOutcome`: a first iteration in front of a
      repetition whose outcome is known. */
  lemma RepeatOutcomeStep(g: Registry, child: Op, min: nat, max: Option<nat>, k: nat, input: Bytes, off: nat, fuel: nat, rest: Result)
    requires 0 < k && (max.None? || k < max.value)
    requires EvalOp(g, child, input, off, fuel).Match?
    requires var first := EvalOp(g, child, input, off, fuel);
      off + first.len <= |input| && first.len > 0
    requires rest.Match? && rest.value.List?
    requires var first := EvalOp(g, child, input, off, fuel);
      EvalRepeat(g, child, DecMin(min), DecMax(max), input, off + first.len, fuel)
      == if k - 1 < DecMin(min) then NoMatch(off + first.len) else rest
    ensures var first := EvalOp(g, child, input, off, fuel);
      EvalRepeat(g, child, min, max, input, off, fuel)
      == if k < min then NoMatch(off) else Prepend(first.len, [first.value], rest, off)
  {
    RepeatStep(g, child, min, max, input, off, fuel);
  }

  /** The converse of `RepeatNoMatch` and `RepeatIsSequence`: when `k`
      iterations match, the next one fails, and `max` allows more than `k`,
      the repetition fails at the offset if `k` is below `min`, and otherwise
      is the match of the `k` iterations. */
  lemma {:induction false} RepeatOutcome(g: Registry, child: Op, min: nat, max: Option<nat>, k: nat, input: Bytes, off: nat, fuel: nat)
    requires off <= |input|
    requires max.None? || k < max.value
    requires EvalSequence(g, Copies(child, k), input, off, fuel).Match?
    requires var done := EvalSequence(g, Copies(child, k), input, off, fuel);
      EvalOp(g, child, input, off + done.len, fuel).NoMatch?
    ensures var done := EvalSequence(g, Copies(child, k), input, off, fuel);
      EvalRepeat(g, child, min, max, input, off, fuel) == if k < min then NoMatch(off) else done
    decreases k
  {
    if k == 0 {
      assert EvalSequence(g, Copies(child, k), input, off, fuel) == Match(0, List([]), off);
      RepeatEnds(g, child, min, max, input, off, fuel);
    } else {
      CopiesProgress(g, child, k, input, off, fuel);
      CopiesStep(g, child, k, input, off, fuel);
      InBounds(g, child, input, off, fuel);
      var first := EvalOp(g, child, input, off, fuel);
      var mid := off + first.len;
      var rest := EvalSequence(g, Copies(child, k - 1), input, mid, fuel);
      RepeatOutcome(g, child, DecMin(min), DecMax(max), k - 1, input, mid, fuel);
      RepeatOutcomeStep(g, child, min, max, k, input, off, fuel, rest);
    }
  }

  /** The loop stops after `max` iterations: when `k` iterations match, a
      repetition with `max` equal to `k` is their match, whatever `min` is. */
  lemma {:induction false} RepeatStopsAtMax(g: Registry, child: Op, min: nat, k: nat, input: Bytes, off: nat, fuel: nat)
    requires off <= |input|
    requires EvalSequence(g, Copies(child, k), input, off, fuel).Match?
    ensures EvalRepeat(g, child, min, Some(k), input, off, fuel) == EvalSequence(g, Copies(child, k), input, off, fuel)
    decreases k
  {
    if k == 0 {
      assert EvalSequence(g, Copies(child, k), input, off, fuel) == Match(0, List([]), off);
    } else {
      CopiesStep(g, child, k, input, off, fuel);
      InBounds(g, child, input, off, fuel);
      var first := EvalOp(g, child, input, off, fuel);
      var rest := EvalSequence(g, Copies(child, k - 1), input, off + first.len, fuel);
      RepeatStep(g, child, min, Some(k), input, off, fuel);
      assert DecMax(Some(k)) == Some(k - 1);
      RepeatStopsAtMax(g, child, DecMin(min), k - 1, input, off + first.len, fuel);
      assert EvalRepeat(g, child, min, Some(k), input, off, fuel) == Prepend(first.len, [first.value], rest, off);
    }
  }

  /** One step of `RepeatPassesOn`: a first iteration that consumed input
      in front of a repetition that raises or does not finish. */
  lemma RepeatPassesStep(g: Registry, child: Op, min: nat, max: Option<nat>, input: Bytes, off: nat, fuel: nat, next: Result)
    requires max != Some(0)
    requires EvalOp(g, child, input, off, fuel).Match?
    requires var first := EvalOp(g, child, input, off, fuel);
      off + first.len <= |input| && first.len > 0
    requires next.Raised? || next.Unfinished?
    requires var first := EvalOp(g, child, input, off, fuel);
      EvalRepeat(g, child, DecMin(min), DecMax(max), input, off + first.len, fuel) == next
    ensures EvalRepeat(g, child, min, max, input, off, fuel) == next
  {
    RepeatStep(g, child, min, max, input, off, fuel);
  }

  /** An exception, or an evaluation that does not finish, in the iteration
      after `k` matching ones is the outcome of the whole repetition. */
  lemma {:induction false} RepeatPassesOn(g: Registry, child: Op, min: nat, max: Option<nat>, k: nat, input: Bytes, off: nat, fuel: nat)
    requires off <= |input|
    requires max.None? || k < max.value
    requires EvalSequence(g, Copies(child, k), input, off, fuel).Match?
    requires var done := EvalSequence(g, Copies(child, k), input, off, fuel);
      var next := EvalOp(g, child, input, off + done.len, fuel);
      next.Raised? || next.Unfinished?
    ensures var done := EvalSequence(g, Copies(child, k), input, off, fuel);
      EvalRepeat(g, child, min, max, input, off, fuel) == EvalOp(g, child, input, off + done.len, fuel)
    decreases k
  {
    if k == 0 {
      assert EvalSequence(g, Copies(child, k), input, off, fuel) == Match(0, List([]), off);
      RepeatEnds(g, child, min, max, input, off, fuel);
    } else {
      CopiesProgress(g, child, k, input, off, fuel);
      CopiesStep(g, child, k, input, off, fuel);
      InBounds(g, child, input, off, fuel);
      var first := EvalOp(g, child, input, off, fuel);
      var rest := EvalSequence(g, Copies(child, k - 1), input, off + first.len, fuel);
      assert rest.Match? && off + EvalSequence(g, Copies(child, k), input, off, fuel).len == off + first.len + rest.len;
      RepeatPassesOn(g, child, DecMin(min), DecMax(max), k - 1, input, off + first.len, fuel);
      RepeatPassesStep(g, child, min, max, input, off, fuel, EvalOp(g, child, input, off + first.len + rest.len, fuel));
    }
  }

  /** The `number` rule `Repeat(CharacterClass(digits), 1, INF)` on "123abc"
      takes the three digits and lists them one by one. */
  lemma NumberExample(g: Registry, fuel: nat)
    ensures var digits := {48, 49, 50, 51, 52, 53, 54, 55, 56, 57};
      EvalRepeat(g, CharacterClass(digits), 1, None, [49, 50, 51, 97, 98, 99], 0, fuel)
      == Match(3, List([Str([49]), Str([50]), Str([51])]), 0)
  {
    var digits: set<byte> := {48, 49, 50, 51, 52, 53, 54, 55, 56, 57};
    var input: Bytes := [49, 50, 51, 97, 98, 99];
    var op := CharacterClass(digits);
    assert EvalOp(g, op, input, 3, fuel) == NoMatch(3) by {
      assert input[3] !in digits;
    }
    RepeatEnds(g, op, 0, None, input, 3, fuel);
    assert EvalOp(g, op, input, 2, fuel) == Match(1, Str([51]), 2);
    RepeatStep(g, op, 0, None, input, 2, fuel);
    assert EvalOp(g, op, input, 1, fuel) == Match(1, Str([50]), 1);
    RepeatStep(g, op, 0, None, input, 1, fuel);
    assert EvalOp(g, op, input, 0, fuel) == Match(1, Str([49]), 0);
    RepeatStep(g, op, 1, None, input, 0, fuel);
  }

  /** With `max` below `min` the loop stops after `max` iterations and the
      repetition matches, although fewer than `min` iterations succeeded:
      `Repeat(Any, 3, 1)` on "ab" takes "a". */
  lemma MaxBelowMinExample(g: Registry, fuel: nat)
    ensures EvalRepeat(g, Any, 3, Some(1), [97, 98], 0, fuel) == Match(1, List([Str([97])]), 0)
  {
    var input: Bytes := [97, 98];
    assert EvalOp(g, Any, input, 0, fuel) == Match(1, Str([97]), 0);
    RepeatStep(g, Any, 3, Some(1), input, 0, fuel);
    assert DecMax(Some(1)) == Some(0);
    assert EvalRepeat(g, Any, DecMin(3), Some(0), input, 1, fuel) == Match(0, List([]), 1);
    assert [Str([97])] + [] == [Str([97])];
  }

  // ---------------------------------------------------------------- values

  /** The bytes a value stands for: a string is itself, null is empty, and a
      list is its elements' bytes one after the other. */
  function Flatten(v: Value): Bytes
  {
    match v
    case Str(bytes) => bytes
    case Null => []
    case List(items) => FlattenAll(items)
  }

  function FlattenAll(vs: seq<Value>): Bytes
  {
    if vs == [] then [] else Flatten(vs[0]) + FlattenAll(vs[1..])
  }

  /** No registered rule has an action. */
  predicate ActionFree(g: Registry)
  {
    forall name :: name in g ==> g[name].action.None?
  }

  /** A match of `len` bytes from `off` whose value stands for exactly those
      bytes of the input. */
  predicate Consumed(r: Result, input: Bytes, off: nat)
  {
    r.Match? ==> off + r.len <= |input| && Flatten(r.value) == input[off..off + r.len]
  }

  /** A match in front of a list match consumes both spans. */
  lemma PrependConsumed(first: Result, rest: Result, input: Bytes, off: nat)
    requires first.Match? && Consumed(first, input, off)
    requires rest.Match? ==> rest.value.List?
    requires Consumed(rest, input, off + first.len)
    ensures Consumed(Prepend(first.len, [first.value], rest, off), input, off)
  {
    if rest.Match? {
      var mid := off + first.len;
      var items := [first.value] + rest.value.items;
      assert items[0] == first.value && items[1..] == rest.value.items;
      assert input[off..mid] + input[mid..mid + rest.len] == input[off..mid + rest.len];
    }
  }

  /** Without actions, the value of every match stands for exactly the bytes
      it consumed: the consumed part of the string, with Sequence and Repeat
      splitting it into a list. */
  lemma {:induction false} ValueIsConsumed(g: Registry, op: Op, input: Bytes, off: nat, fuel: nat)
    requires ActionFree(g) && off <= |input|
    ensures Consumed(EvalOp(g, op, input, off, fuel), input, off)
    decreases fuel, Size(op), 1, 0, 0
  {
    match op
    case Literal(text) => LiteralMatches(text, input, off);
    case CharacterClass(_) =>
    case Any =>
    case Identifier(name) => DefinitionValueIsConsumed(g, name, input, off, fuel);
    case Sequence(items) => SequenceValueIsConsumed(g, items, input, off, fuel);
    case Choice(alternatives) => ChoiceValueIsConsumed(g, alternatives, input, off, fuel);
    case Repeat(child, min, max) => RepeatValueIsConsumed(g, child, min, max, input, off, fuel);
    case Not(_) =>
    case And(_) =>
    case Undefined(_) =>
  }

  lemma {:induction false} DefinitionValueIsConsumed(g: Registry, name: Name, input: Bytes, off: nat, fuel: nat)
    requires ActionFree(g) && off <= |input|
    ensures Consumed(EvalDefinition(g, name, input, off, fuel), input, off)
    decreases fuel, 0, 0, 0, 0
  {
    if name in g && fuel > 0 {
      ValueIsConsumed(g, g[name].rule, input, off, fuel - 1);
    }
  }

  lemma {:induction false} SequenceValueIsConsumed(g: Registry, items: seq<Op>, input: Bytes, off: nat, fuel: nat)
    requires ActionFree(g) && off <= |input|
    ensures Consumed(EvalSequence(g, items, input, off, fuel), input, off)
    decreases fuel, SizeAll(items), 2, 0, 0
  {
    if items != [] {
      ValueIsConsumed(g, items[0], input, off, fuel);
      var first := EvalOp(g, items[0], input, off, fuel);
      if first.Match? {
        var rest := EvalSequence(g, items[1..], input, off + first.len, fuel);
        SequenceValueIsConsumed(g, items[1..], input, off + first.len, fuel);
        PrependConsumed(first, rest, input, off);
      }
    }
  }

  lemma {:induction false} ChoiceValueIsConsumed(g: Registry, alternatives: seq<Op>, input: Bytes, off: nat, fuel: nat)
    requires ActionFree(g) && off <= |input|
    ensures Consumed(EvalChoice(g, alternatives, input, off, fuel), input, off)
    decreases fuel, SizeAll(alternatives), 2, 0, 0
  {
    if alternatives != [] {
      ValueIsConsumed(g, alternatives[0], input, off, fuel);
      ChoiceValueIsConsumed(g, alternatives[1..], input, off, fuel);
    }
  }

  lemma {:induction false} RepeatValueIsConsumed(g: Registry, child: Op, min: nat, max: Option<nat>, input: Bytes, off: nat, fuel: nat)
    requires ActionFree(g) && off <= |input|
    ensures Consumed(EvalRepeat(g, child, min, max, input, off, fuel), input, off)
    decreases fuel, Size(child), 2, |input| - off, Bound(max)
  {
    if max != Some(0) {
      var first := EvalOp(g, child, input, off, fuel);
      if !first.Match? || off + first.len > |input| {
        RepeatEnds(g, child, min, max, input, off, fuel);
      } else if first.len > 0 || max.Some? {
        ValueIsConsumed(g, child, input, off, fuel);
        RepeatStep(g, child, min, max, input, off, fuel);
        var rest := EvalRepeat(g, child, DecMin(min), DecMax(max), input, off + first.len, fuel);
        RepeatValueIsConsumed(g, child, DecMin(min), DecMax(max), input, off + first.len, fuel);
        PrependConsumed(first, rest, input, off);
      }
    }
  }

  // ------------------------------------------------------------ exceptions

  /** Evaluating a rule name that is not registered raises, whatever the
      input, the offset or the fuel; so does an operator tag without a
      handler. */
  lemma DefectsRaise(g: Registry, name: Name, tag: Bytes, input: Bytes, off: nat, fuel: nat)
    ensures name !in g ==> EvalOp(g, Identifier(name), input, off, fuel) == Raised(UnknownRule(name))
    ensures EvalOp(g, Undefined(tag), input, off, fuel) == Raised(UndefinedOperator(tag))
  {
    assert EvalOp(g, Identifier(name), input, off, fuel) == EvalDefinition(g, name, input, off, fuel);
  }

  /** Every rule name in the tree is registered and every tag has a handler. */
  predicate Closed(g: Registry, op: Op)
  {
    match op
    case Identifier(name) => name in g
    case Sequence(items) => forall i :: 0 <= i < |items| ==> Closed(g, items[i])
    case Choice(alternatives) => forall i :: 0 <= i < |alternatives| ==> Closed(g, alternatives[i])
    case Repeat(child, _, _) => Closed(g, child)
    case Not(child) => Closed(g, child)
    case And(child) => Closed(g, child)
    case Undefined(_) => false
    case _ => true
  }

  /** Every registered rule is closed, including rules that the evaluated
      tree never reaches: a grammar with one unused malformed rule falls
      outside `NeverRaises`. */
  predicate ClosedGrammar(g: Registry)
  {
    forall name :: name in g ==> Closed(g, g[name].rule)
  }

  /** In a closed grammar nothing raises: a mismatch of the input only ever
      produces NoMatch. */
  lemma {:induction false} NeverRaises(g: Registry, op: Op, input: Bytes, off: nat, fuel: nat)
    requires ClosedGrammar(g) && Closed(g, op)
    ensures !EvalOp(g, op, input, off, fuel).Raised?
    decreases fuel, Size(op), 1, 0, 0
  {
    match op
    case Identifier(name) => DefinitionNeverRaises(g, name, input, off, fuel);
    case Sequence(items) => SequenceNeverRaises(g, items, input, off, fuel);
    case Choice(alternatives) => ChoiceNeverRaises(g, alternatives, input, off, fuel);
    case Repeat(child, min, max) => RepeatNeverRaises(g, child, min, max, input, off, fuel);
    case Not(child) => NeverRaises(g, child, input, off, fuel);
    case And(child) => NeverRaises(g, child, input, off, fuel);
    case _ =>
  }

  lemma {:induction false} DefinitionNeverRaises(g: Registry, name: Name, input: Bytes, off: nat, fuel: nat)
    requires ClosedGrammar(g) && name in g
    ensures !EvalDefinition(g, name, input, off, fuel).Raised?
    decreases fuel, 0, 0, 0, 0
  {
    if fuel > 0 {
      NeverRaises(g, g[name].rule, input, off, fuel - 1);
    }
  }

  lemma {:induction false} SequenceNeverRaises(g: Registry, items: seq<Op>, input: Bytes, off: nat, fuel: nat)
    requires ClosedGrammar(g)
    requires forall i :: 0 <= i < |items| ==> Closed(g, items[i])
    ensures !EvalSequence(g, items, input, off, fuel).Raised?
    decreases fuel, SizeAll(items), 2, 0, 0
  {
    if items != [] {
      NeverRaises(g, items[0], input, off, fuel);
      var first := EvalOp(g, items[0], input, off, fuel);
      if first.Match? {
        SequenceNeverRaises(g, items[1..], input, off + first.len, fuel);
      }
    }
  }

  lemma {:induction false} ChoiceNeverRaises(g: Registry, alternatives: seq<Op>, input: Bytes, off: nat, fuel: nat)
    requires ClosedGrammar(g)
    requires forall i :: 0 <= i < |alternatives| ==> Closed(g, alternatives[i])
    ensures !EvalChoice(g, alternatives, input, off, fuel).Raised?
    decreases fuel, SizeAll(alternatives), 2, 0, 0
  {
    if alternatives != [] {
      NeverRaises(g, alternatives[0], input, off, fuel);
      ChoiceNeverRaises(g, alternatives[1..], input, off, fuel);
    }
  }

  lemma {:induction false} RepeatNeverRaises(g: Registry, child: Op, min: nat, max: Option<nat>, input: Bytes, off: nat, fuel: nat)
    requires ClosedGrammar(g) && Closed(g, child)
    ensures !EvalRepeat(g, child, min, max, input, off, fuel).Raised?
    decreases fuel, Size(child), 2, |input| - off, Bound(max)
  {
    if max != Some(0) {
      NeverRaises(g, child, input, off, fuel);
      var first := EvalOp(g, child, input, off, fuel);
      if first.Match? && off + first.len <= |input| && (first.len > 0 || max.Some?) {
        RepeatNeverRaises(g, child, DecMin(min), DecMax(max), input, off + first.len, fuel);
      }
    }
  }

  // ------------------------------------------------------------------ fuel

  /** A result reached with some fuel is reached with any larger fuel: fuel
      only cuts evaluations short, it never changes a finished result. */
  lemma {:induction false} FuelMonotone(g: Registry, op: Op, input: Bytes, off: nat, fuel: nat, more: nat)
    requires fuel <= more
    requires !EvalOp(g, op, input, off, fuel).Unfinished?
    ensures EvalOp(g, op, input, off, more) == EvalOp(g, op, input, off, fuel)
    decreases fuel, Size(op), 1, 0, 0
  {
    match op
    case Identifier(name) => DefinitionFuelMonotone(g, name, input, off, fuel, more);
    case Sequence(items) => SequenceFuelMonotone(g, items, input, off, fuel, more);
    case Choice(alternatives) => ChoiceFuelMonotone(g, alternatives, input, off, fuel, more);
    case Repeat(child, min, max) => RepeatFuelMonotone(g, child, min, max, input, off, fuel, more);
    case Not(child) => FuelMonotone(g, child, input, off, fuel, more);
    case And(child) => FuelMonotone(g, child, input, off, fuel, more);
    case _ =>
  }

  lemma {:induction false} DefinitionFuelMonotone(g: Registry, name: Name, input: Bytes, off: nat, fuel: nat, more: nat)
    requires fuel <= more
    requires !EvalDefinition(g, name, input, off, fuel).Unfinished?
    ensures EvalDefinition(g, name, input, off, more) == EvalDefinition(g, name, input, off, fuel)
    decreases fuel, 0, 0, 0, 0
  {
    if name in g {
      FuelMonotone(g, g[name].rule, input, off, fuel - 1, more - 1);
    }
  }

  lemma {:induction false} SequenceFuelMonotone(g: Registry, items: seq<Op>, input: Bytes, off: nat, fuel: nat, more: nat)
    requires fuel <= more
    requires !EvalSequence(g, items, input, off, fuel).Unfinished?
    ensures EvalSequence(g, items, input, off, more) == EvalSequence(g, items, input, off, fuel)
    decreases fuel, SizeAll(items), 2, 0, 0
  {
    if items != [] {
      FuelMonotone(g, items[0], input, off, fuel, more);
      var first := EvalOp(g, items[0], input, off, fuel);
      if first.Match? {
        SequenceFuelMonotone(g, items[1..], input, off + first.len, fuel, more);
      }
    }
  }

  lemma {:induction false} ChoiceFuelMonotone(g: Registry, alternatives: seq<Op>, input: Bytes, off: nat, fuel: nat, more: nat)
    requires fuel <= more
    requires !EvalChoice(g, alternatives, input, off, fuel).Unfinished?
    ensures EvalChoice(g, alternatives, input, off, more) == EvalChoice(g, alternatives, input, off, fuel)
    decreases fuel, SizeAll(alternatives), 2, 0, 0
  {
    if alternatives != [] {
      FuelMonotone(g, alternatives[0], input, off, fuel, more);
      if EvalOp(g, alternatives[0], input, off, fuel).NoMatch? {
        ChoiceFuelMonotone(g, alternatives[1..], input, off, fuel, more);
      }
    }
  }

  lemma {:induction false} RepeatFuelMonotone(g: Registry, child: Op, min: nat, max: Option<nat>, input: Bytes, off: nat, fuel: nat, more: nat)
    requires fuel <= more
    requires !EvalRepeat(g, child, min, max, input, off, fuel).Unfinished?
    ensures EvalRepeat(g, child, min, max, input, off, more) == EvalRepeat(g, child, min, max, input, off, fuel)
    decreases fuel, Size(child), 2, |input| - off, Bound(max)
  {
    if max != Some(0) {
      var first := EvalOp(g, child, input, off, fuel);
      if !first.Match? || off + first.len > |input| {
        RepeatEnds(g, child, min, max, input, off, fuel);
        FuelMonotone(g, child, input, off, fuel, more);
        RepeatEnds(g, child, min, max, input, off, more);
      } else if first.len > 0 || max.Some? {
        FuelMonotone(g, child, input, off, fuel, more);
        RepeatStep(g, child, min, max, input, off, fuel);
        RepeatStep(g, child, min, max, input, off, more);
        RepeatFuelMonotone(g, child, DecMin(min), DecMax(max), input, off + first.len, fuel, more);
      }
    }
  }

  // ------------------------------------------------------- rules and parse

  /** A rule's action applies only to a match of its tree, keeping the
      length and start offset; any other result of the tree is the rule's
      result unchanged. */
  lemma RuleAppliesAction(g: Registry, name: Name, input: Bytes, off: nat, fuel: nat)
    requires name in g && 0 < fuel
    ensures var t := EvalOp(g, g[name].rule, input, off, fuel - 1);
      var r := EvalDefinition(g, name, input, off, fuel);
      && (!t.Match? ==> r == t)
      && (t.Match? ==> r == Match(t.len, if g[name].action.Some? then g[name].action.value(t.value) else t.value, t.off))
  {
  }

  /** Without actions, `parse` returns the consumed part of the input when
      the start rule matches: the value stands for the first `len` bytes. */
  lemma ParseReturnsConsumed(g: Registry, grammar: Name, input: Bytes, fuel: nat)
    requires ActionFree(g)
    ensures var r := EvalDefinition(g, grammar, input, 0, fuel);
      r.Match? ==> r.len <= |input| && EvalParse(g, grammar, input, fuel) == Returned(r.value)
                   && Flatten(r.value) == input[..r.len]
  {
    DefinitionValueIsConsumed(g, grammar, input, 0, fuel);
  }

  /** `parse` returns null exactly when the start rule does not match or
      matches with a null value, and returns the value of any other match. */
  lemma ParseNull(g: Registry, grammar: Name, input: Bytes, fuel: nat)
    ensures var r := EvalDefinition(g, grammar, input, 0, fuel);
      && (EvalParse(g, grammar, input, fuel) == Returned(Null) <==> r.NoMatch? || (r.Match? && r.value == Null))
      && (r.Match? ==> EvalParse(g, grammar, input, fuel) == Returned(r.value))
  {
  }
}
