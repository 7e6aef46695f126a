/** Data model of the PEG interpreter in class `Parser`: operator trees, the
    values a match produces, the result of one parse attempt, and the registry
    of named rules. */
module ParserTypes {

  /** One storage unit of a PHP string: the parser works on bytes. */
  newtype byte = b: int | 0 <= b < 256

  type Bytes = seq<byte>

  /** Rule names are PHP array keys; the model takes them to be byte strings. */
  type Name = Bytes

  datatype Option<T> = None | Some(value: T)

  /** An operator tree. In the source an operator is an array whose first
      element is a tag naming a `parse<Tag>` handler; `Undefined` stands for a
      tag with no handler. */
  datatype Op =
    | Literal(text: Bytes)
    | CharacterClass(members: set<byte>)
    | Identifier(name: Name)
    | Sequence(items: seq<Op>)
    | Choice(alternatives: seq<Op>)
    | Repeat(child: Op, min: nat, max: Option<nat>)   // max None is PHP's INF
    | Any
    | Not(child: Op)
    | And(child: Op)
    | Undefined(tag: Bytes)

  /** The values a match carries: the matched bytes, the list built by
      Sequence and Repeat, or PHP's null (Not, And). Actions may return any of
      these. */
  datatype Value = Str(bytes: Bytes) | List(items: seq<Value>) | Null

  /** Grammar defects: the two conditions for which the source throws. */
  datatype Error = UnknownRule(name: Name) | UndefinedOperator(tag: Bytes)

  /** The outcome of evaluating an operator at an offset.
      `Raised` is an exception thrown by the source. `Unfinished` marks an
      evaluation that does not finish: rule resolution nested deeper than the
      fuel allows, or a Repeat without upper bound over a child that matches
      without consuming input, where the source loops forever. */
  datatype Result =
    | Match(len: nat, value: Value, off: nat)
    | NoMatch(off: nat)
    | Raised(error: Error)
    | Unfinished

  /** A registered rule: its operator tree and optional action. */
  datatype Definition = Definition(rule: Op, action: Option<Value -> Value>)

  type Registry = map<Name, Definition>

  /** What `Parser::parse` hands back: a PHP value (null included), an
      exception, or nothing because the evaluation does not finish. */
  datatype Answer = Returned(value: Value) | Thrown(error: Error) | DoesNotReturn

  /** Match and NoMatch report the offset the attempt started at. */
  predicate StartsAt(r: Result, off: nat)
  {
    (r.Match? || r.NoMatch?) ==> r.off == off
  }

  /** Number of nodes of an operator tree; every node counts at least one. */
  function Size(op: Op): (n: nat)
    ensures n >= 1
  {
    match op
    case Sequence(items) => 1 + SizeAll(items)
    case Choice(alternatives) => 1 + SizeAll(alternatives)
    case Repeat(child, _, _) => 1 + Size(child)
    case Not(child) => 1 + Size(child)
    case And(child) => 1 + Size(child)
    case _ => 1
  }

  function SizeAll(ops: seq<Op>): nat
  {
    if ops == [] then 0 else Size(ops[0]) + SizeAll(ops[1..])
  }

  /** Each element of a list is no bigger than the whole list. */
  lemma {:induction false} SizeAllBound(ops: seq<Op>, i: nat)
    requires i < |ops|
    ensures Size(ops[i]) <= SizeAll(ops)
    ensures SizeAll(ops[i + 1..]) < SizeAll(ops[i..])
  {
    if i > 0 {
      assert ops[1..][i - 1] == ops[i];
      assert ops[1..][i - 1 + 1..] == ops[i + 1..];
      assert ops[1..][i - 1..] == ops[i..];
      SizeAllBound(ops[1..], i - 1);
    } else {
      assert ops[0..] == ops;
    }
  }
}
