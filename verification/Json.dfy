/** JSON values, the SAX events a handler receives, and the events a value generates. */
module Json {
  /** A DOM value. A double is named by the literal it was read from. */
  datatype Value =
    | Null
    | Bool(b: bool)
    | Integer(n: int)
    | Double(literal: string)
    | Text(s: string)
    | Array(elements: seq<Value>)
    | Object(members: seq<Member>)

  datatype Member = Member(name: string, value: Value)

  /** The four integer events of the handler concept. */
  datatype IntKind = Int32 | Uint32 | Int64 | Uint64

  datatype Event =
    | NullEvent
    | BoolEvent(b: bool)
    | IntegerEvent(kind: IntKind, n: int)
    | DoubleEvent(literal: string)
    | StringEvent(s: string)
    | StartObject
    | Key(name: string)
    | EndObject(memberCount: nat)
    | StartArray
    | EndArray(elementCount: nat)

  /** The events that are values by themselves. */
  predicate IsScalar(e: Event) {
    e.NullEvent? || e.BoolEvent? || e.IntegerEvent? || e.DoubleEvent? || e.StringEvent?
  }

  const TWO31: int := 0x8000_0000
  const TWO32: int := 0x1_0000_0000
  const TWO63: int := 0x8000_0000_0000_0000
  const TWO64: int := 0x1_0000_0000_0000_0000

  /** The integer event of `Accept`: the first of IsInt, IsUint, IsInt64 that holds. */
  function AcceptKind(n: int): IntKind {
    if -TWO31 <= n < TWO31 then Int32
    else if 0 <= n < TWO32 then Uint32
    else if -TWO63 <= n < TWO63 then Int64
    else Uint64
  }

  /** No doubles, and every integer fits the 64-bit representations of the DOM. */
  predicate Representable(v: Value) {
    match v
    case Integer(n) => -TWO63 <= n < TWO64
    case Double(_) => false
    case Array(es) => forall e <- es :: Representable(e)
    case Object(ms) => forall m <- ms :: Representable(m.value)
    case _ => true
  }

  /** The events `GenericValue::Accept` sends for a value. */
  function Events(v: Value): seq<Event>
    decreases v
  {
    match v
    case Null => [NullEvent]
    case Bool(b) => [BoolEvent(b)]
    case Integer(n) => [IntegerEvent(AcceptKind(n), n)]
    case Double(literal) => [DoubleEvent(literal)]
    case Text(s) => [StringEvent(s)]
    case Array(es) => [StartArray] + ElementEvents(es) + [EndArray(|es|)]
    case Object(ms) => [StartObject] + MemberEvents(ms) + [EndObject(|ms|)]
  }

  function ElementEvents(es: seq<Value>): seq<Event>
    decreases es
  {
    if es == [] then [] else Events(es[0]) + ElementEvents(es[1..])
  }

  function MemberEvents(ms: seq<Member>): seq<Event>
    decreases ms
  {
    if ms == [] then []
    else [Key(ms[0].name)] + Events(ms[0].value) + MemberEvents(ms[1..])
  }

  /** An event with the width of its integer forgotten: integers are compared by value. */
  function ByValue(e: Event): Event {
    if e.IntegerEvent? then IntegerEvent(Int64, e.n) else e
  }

  function AllByValue(es: seq<Event>): (r: seq<Event>)
    ensures |r| == |es|
  {
    seq(|es|, i requires 0 <= i < |es| => ByValue(es[i]))
  }
}
