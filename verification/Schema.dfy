/** Compiled JSON schemas and what it means for a value to satisfy one. */
module Schemas {
  import opened Options
  import opened Json

  /** The type names of the `type` keyword. */
  datatype TypeName = NullType | BooleanType | ObjectType | ArrayType | StringType | NumberType | IntegerType

  const ALL_TYPES: set<TypeName> :=
    {NullType, BooleanType, ObjectType, ArrayType, StringType, NumberType, IntegerType}

  /** An integer that an int64_t or a uint64_t holds. */
  type Wide = n: int | -TWO63 <= n < TWO64

  type WideDivisor = n: int | 0 < n < TWO64 witness 1

  /** A numeric keyword: an integer, or a double, known by the integers whose conversion to double it refuses. */
  datatype Limit = Whole(n: Wide) | Floating(refused: iset<int>)

  datatype Divisor = WholeDivisor(n: WideDivisor) | FloatingDivisor(refused: iset<int>)

  datatype Bounds = Bounds(
    minimum: Option<Limit>,
    exclusiveMinimum: bool,
    maximum: Option<Limit>,
    exclusiveMaximum: bool,
    multipleOf: Option<Divisor>,
    /** The double literals of the instance that the floating-point comparisons refuse. */
    refused: iset<string>)

  datatype Items =
    | AnyItems
    | ListItems(item: Schema)
    | TupleItems(tuple: seq<Schema>)

  datatype Property = Property(name: string, schema: Schema, required: bool)

  /** A schema after compilation; an empty list of alternatives is an absent keyword. */
  datatype Schema = Schema(
    types: set<TypeName>,
    bounds: Bounds,
    allOf: seq<Schema>,
    anyOf: seq<Schema>,
    oneOf: seq<Schema>,
    negated: Option<Schema>,
    properties: seq<Property>,
    additionalProperties: bool,
    additionalPropertiesSchema: Option<Schema>,
    minProperties: nat,
    maxProperties: Option<nat>,
    items: Items,
    additionalItems: bool,
    additionalItemsSchema: Option<Schema>,
    minItems: nat,
    maxItems: Option<nat>,
    defaultLength: nat)

  const UNBOUNDED: Bounds := Bounds(None, false, None, false, None, iset{})

  /** The schema that accepts everything. */
  const TYPELESS: Schema :=
    Schema(ALL_TYPES, UNBOUNDED, [], [], [], None, [], true, None, 0, None, AnyItems, true, None, 0, None, 0)

  predicate AtMost(n: nat, limit: Option<nat>) {
    limit.Some? ==> n <= limit.value
  }

  // ---------------------------------------------------------------- the meaning of a schema

  predicate TypeAllowed(types: set<TypeName>, v: Value) {
    match v
    case Null => NullType in types
    case Bool(_) => BooleanType in types
    case Integer(_) => IntegerType in types || NumberType in types
    case Double(_) => NumberType in types
    case Text(_) => StringType in types
    case Array(_) => ArrayType in types
    case Object(_) => ObjectType in types
  }

  predicate AboveMinimum(limit: Limit, exclusive: bool, n: int) {
    match limit
    case Whole(m) => if exclusive then m < n else m <= n
    case Floating(refused) => n !in refused
  }

  predicate BelowMaximum(limit: Limit, exclusive: bool, n: int) {
    match limit
    case Whole(m) => if exclusive then n < m else n <= m
    case Floating(refused) => n !in refused
  }

  predicate Divides(divisor: Divisor, n: int) {
    match divisor
    case WholeDivisor(d) => n % d == 0
    case FloatingDivisor(refused) => n !in refused
  }

  /** The numeric keywords; integer ones compare as integers whatever their width and signedness. */
  predicate WithinBounds(b: Bounds, n: int) {
    && (b.minimum.Some? ==> AboveMinimum(b.minimum.value, b.exclusiveMinimum, n))
    && (b.maximum.Some? ==> BelowMaximum(b.maximum.value, b.exclusiveMaximum, n))
    && (b.multipleOf.Some? ==> Divides(b.multipleOf.value, n))
  }

  /** The index of the first property of that name. */
  function FindProperty(ps: seq<Property>, name: string, from: nat): (r: Option<nat>)
    requires from <= |ps|
    ensures r.Some? ==>
              && from <= r.value < |ps| && ps[r.value].name == name
              && forall k | from <= k < r.value :: ps[k].name != name
    ensures r.None? ==> forall k | from <= k < |ps| :: ps[k].name != name
    decreases |ps| - from
  {
    if from == |ps| then None
    else if ps[from].name == name then Some(from)
    else FindProperty(ps, name, from + 1)
  }

  /** The schema a member's value has to satisfy, if the member is allowed at all. */
  function MemberSchema(s: Schema, name: string): Option<Schema> {
    var index := FindProperty(s.properties, name, 0);
    if index.Some? then Some(s.properties[index.value].schema)
    else if s.additionalPropertiesSchema.Some? then s.additionalPropertiesSchema
    else if s.additionalProperties then Some(TYPELESS)
    else None
  }

  /**
   * The schema the element at an index has to satisfy, if an element is allowed there. The array of an empty tuple
   * is a null pointer, which the code takes for an absent keyword.
   */
  function ItemSchema(s: Schema, index: nat): Option<Schema> {
    match s.items
    case ListItems(item) => Some(item)
    case TupleItems(tuple) =>
      if tuple == [] then Some(TYPELESS)
      else if index < |tuple| then Some(tuple[index])
      else if s.additionalItemsSchema.Some? then s.additionalItemsSchema
      else if s.additionalItems then Some(TYPELESS)
      else None
    case AnyItems => Some(TYPELESS)
  }

  /** What the code checks: a required property whose schema has a default string may be absent. */
  predicate RequiredPresent(s: Schema, ms: seq<Member>) {
    forall p <- s.properties | p.required && p.schema.defaultLength == 0 :: HasMember(ms, p.name)
  }

  predicate HasMember(ms: seq<Member>, name: string) {
    exists m <- ms :: m.name == name
  }

  /** A value satisfies a schema. */
  predicate Meets(s: Schema, v: Value)
    decreases v, s, 1
  {
    && MeetsShape(s, v)
    && MeetsAll(s.allOf, v)
    && (s.anyOf != [] ==> MeetsAny(s.anyOf, v))
    && (s.oneOf != [] ==> MeetsOne(s.oneOf, v))
    && (s.negated.Some? ==> !Meets(s.negated.value, v))
  }

  predicate MeetsAll(ss: seq<Schema>, v: Value)
    decreases v, ss, 0
  {
    forall i | 0 <= i < |ss| :: Meets(ss[i], v)
  }

  predicate MeetsAny(ss: seq<Schema>, v: Value)
    decreases v, ss, 0
  {
    exists i | 0 <= i < |ss| :: Meets(ss[i], v)
  }

  /** Exactly one of the schemas is satisfied. */
  predicate MeetsOne(ss: seq<Schema>, v: Value)
    decreases v, ss, 0
  {
    exists i | 0 <= i < |ss| :: Meets(ss[i], v) && forall j | 0 <= j < |ss| :: Meets(ss[j], v) ==> j == i
  }

  /** The keywords that look at the value itself, its members and its elements. */
  predicate MeetsShape(s: Schema, v: Value)
    decreases v, s, 0
  {
    && TypeAllowed(s.types, v)
    && match v {
      case Integer(n) => WithinBounds(s.bounds, n)
      case Double(literal) => literal !in s.bounds.refused
      case Array(es) => MeetsItems(s, es, 0) && s.minItems <= |es| && AtMost(|es|, s.maxItems)
      case Object(ms) =>
        && MeetsMembers(s, ms) && RequiredPresent(s, ms)
        && s.minProperties <= |ms| && AtMost(|ms|, s.maxProperties)
      case _ => true
    }
  }

  /** The elements from an index on satisfy the schemas of their positions. */
  predicate MeetsItems(s: Schema, es: seq<Value>, index: nat)
    decreases es
  {
    es != [] ==>
      var item := ItemSchema(s, index);
      item.Some? && Meets(item.value, es[0]) && MeetsItems(s, es[1..], index + 1)
  }

  predicate MeetsMembers(s: Schema, ms: seq<Member>)
    decreases ms
  {
    ms != [] ==>
      var member := MemberSchema(s, ms[0].name);
      member.Some? && Meets(member.value, ms[0].value) && MeetsMembers(s, ms[1..])
  }

  // ---------------------------------------------------------------- what compilation guarantees

  predicate DistinctNames(ps: seq<Property>) {
    forall i, j | 0 <= i < j < |ps| :: ps[i].name != ps[j].name
  }

  /** Property names are distinct, in the schema and in every schema inside it. */
  predicate WellFormed(s: Schema) {
    && DistinctNames(s.properties)
    && (forall p <- s.properties :: WellFormed(p.schema))
    && (forall t <- s.allOf :: WellFormed(t))
    && (forall t <- s.anyOf :: WellFormed(t))
    && (forall t <- s.oneOf :: WellFormed(t))
    && (s.negated.Some? ==> WellFormed(s.negated.value))
    && (s.additionalPropertiesSchema.Some? ==> WellFormed(s.additionalPropertiesSchema.value))
    && (s.items.ListItems? ==> WellFormed(s.items.item))
    && (s.items.TupleItems? ==> forall t <- s.items.tuple :: WellFormed(t))
    && (s.additionalItemsSchema.Some? ==> WellFormed(s.additionalItemsSchema.value))
  }

  /** Every integer of the value fits an int64_t or a uint64_t. */
  predicate Sized(v: Value) {
    match v
    case Integer(n) => -TWO63 <= n < TWO64
    case Array(es) => forall e <- es :: Sized(e)
    case Object(ms) => forall m <- ms :: Sized(m.value)
    case _ => true
  }
}

/** The streaming validator: a stack of contexts, each with sub-validators fed the same events. */
module SchemaMachine {
  import opened Options
  import opened Json
  import opened Schemas

  /** One open value: its schema, the schema of its next child, and the sub-validators it started. */
  datatype Context = Context(
    schema: Schema,
    valueSchema: Option<Schema>,
    validators: seq<Validator>,
    inArray: bool,
    arrayElementIndex: nat,
    propertyExist: seq<bool>)

  datatype Validator = Validator(root: Schema, stack: seq<Context>, valid: bool)

  function Started(s: Schema): Validator {
    Validator(s, [], true)
  }

  /** The sub-schemas that get a validator of their own, in the order of the validator array. */
  function Parallel(s: Schema): (r: seq<Schema>)
    ensures forall i | 0 <= i < |r| :: r[i] < s
    ensures |r| == |s.allOf| + |s.anyOf| + |s.oneOf| + (if s.negated.Some? then 1 else 0)
    ensures forall i | 0 <= i < |s.allOf| :: r[i] == s.allOf[i]
    ensures forall i | 0 <= i < |s.anyOf| :: r[|s.allOf| + i] == s.anyOf[i]
    ensures forall i | 0 <= i < |s.oneOf| :: r[|s.allOf| + |s.anyOf| + i] == s.oneOf[i]
    ensures s.negated.Some? ==> r[|s.allOf| + |s.anyOf| + |s.oneOf|] == s.negated.value
  {
    s.allOf + s.anyOf + s.oneOf + if s.negated.Some? then [s.negated.value] else []
  }

  predicate HasRequired(s: Schema) {
    exists p <- s.properties :: p.required
  }

  // ---------------------------------------------------------------- the checks of one schema

  /** The branches of `CheckInt` and `CheckUint`: by the signedness of the event, then of the keyword. */
  predicate MinimumAllowsInt(limit: Limit, exclusive: bool, i: int) {
    match limit
    case Whole(m) => m < TWO63 && if exclusive then i > m else i >= m
    case Floating(refused) => i !in refused
  }

  predicate MaximumAllowsInt(limit: Limit, exclusive: bool, i: int) {
    match limit
    case Whole(m) => m < TWO63 ==> if exclusive then i < m else i <= m
    case Floating(refused) => i !in refused
  }

  predicate MinimumAllowsUint(limit: Limit, exclusive: bool, i: int) {
    match limit
    case Whole(m) => 0 <= m ==> if exclusive then i > m else i >= m
    case Floating(refused) => i !in refused
  }

  predicate MaximumAllowsUint(limit: Limit, exclusive: bool, i: int) {
    match limit
    case Whole(m) => 0 <= m && if exclusive then i < m else i <= m
    case Floating(refused) => i !in refused
  }

  predicate CheckInt(s: Schema, i: int) {
    && (IntegerType in s.types || NumberType in s.types)
    && (s.bounds.minimum.Some? ==> MinimumAllowsInt(s.bounds.minimum.value, s.bounds.exclusiveMinimum, i))
    && (s.bounds.maximum.Some? ==> MaximumAllowsInt(s.bounds.maximum.value, s.bounds.exclusiveMaximum, i))
    && (s.bounds.multipleOf.Some? ==>
          match s.bounds.multipleOf.value
          case WholeDivisor(d) => (if i >= 0 then i else -i) % d == 0
          case FloatingDivisor(refused) => i !in refused)
  }

  predicate CheckUint(s: Schema, i: int) {
    && (IntegerType in s.types || NumberType in s.types)
    && (s.bounds.minimum.Some? ==> MinimumAllowsUint(s.bounds.minimum.value, s.bounds.exclusiveMinimum, i))
    && (s.bounds.maximum.Some? ==> MaximumAllowsUint(s.bounds.maximum.value, s.bounds.exclusiveMaximum, i))
    && (s.bounds.multipleOf.Some? ==> Divides(s.bounds.multipleOf.value, i))
  }

  predicate Begins(e: Event) {
    IsScalar(e) || e.StartObject? || e.StartArray?
  }

  /** The check a schema makes on the first event of a value. */
  predicate Accepts(s: Schema, e: Event)
    requires Begins(e)
  {
    match e
    case NullEvent => NullType in s.types
    case BoolEvent(_) => BooleanType in s.types
    case IntegerEvent(kind, n) => if kind.Int32? || kind.Int64? then CheckInt(s, n) else CheckUint(s, n)
    case DoubleEvent(literal) => NumberType in s.types && literal !in s.bounds.refused
    case StringEvent(_) => StringType in s.types
    case StartObject => ObjectType in s.types
    case StartArray => ArrayType in s.types
  }

  /** `Schema::BeginValue`: choose the schema of the next element; outside an array nothing changes. */
  function BeginChild(c: Context): Option<Context> {
    if !c.inArray then Some(c)
    else
      var item := ItemSchema(c.schema, c.arrayElementIndex);
      if item.None? then None
      else Some(c.(valueSchema := item, arrayElementIndex := c.arrayElementIndex + 1))
  }

  /** `Schema::Key`: choose the schema of the next member and mark the property as present. */
  function KeyChild(c: Context, name: string): Option<Context> {
    var child := MemberSchema(c.schema, name);
    if child.None? then None
    else
      var index := FindProperty(c.schema.properties, name, 0);
      var marked := if index.Some? && index.value < |c.propertyExist|
        then c.propertyExist[index.value := true] else c.propertyExist;
      Some(c.(valueSchema := child, propertyExist := marked))
  }

  predicate Marked(exist: seq<bool>, i: nat) {
    i < |exist| && exist[i]
  }

  /** `Schema::EndObject`. */
  predicate ObjectComplete(c: Context, memberCount: nat) {
    && (forall i | 0 <= i < |c.schema.properties| ::
          c.schema.properties[i].required && c.schema.properties[i].schema.defaultLength == 0 ==>
            Marked(c.propertyExist, i))
    && c.schema.minProperties <= memberCount && AtMost(memberCount, c.schema.maxProperties)
  }

  /** `Schema::EndArray`. */
  predicate ArrayComplete(c: Context, elementCount: nat) {
    c.schema.minItems <= elementCount && AtMost(elementCount, c.schema.maxItems)
  }

  predicate Passed(vs: seq<Validator>, i: nat) {
    i < |vs| && vs[i].valid
  }

  /** The verdicts of a stretch of the validator array. */
  function Verdicts(vs: seq<Validator>, from: nat, count: nat): (r: seq<bool>)
    ensures |r| == count
  {
    seq(count, i requires 0 <= i < count => Passed(vs, from + i))
  }

  predicate AllTrue(bs: seq<bool>) {
    forall i | 0 <= i < |bs| :: bs[i]
  }

  predicate AnyTrue(bs: seq<bool>) {
    exists i | 0 <= i < |bs| :: bs[i]
  }

  predicate OneTrue(bs: seq<bool>) {
    exists i | 0 <= i < |bs| :: bs[i] && forall j | 0 <= j < |bs| :: bs[j] ==> j == i
  }

  /** `Schema::EndValue`: read the verdicts of the sub-validators. */
  predicate ValueComplete(c: Context) {
    var any := |c.schema.allOf|;
    var one := any + |c.schema.anyOf|;
    var negated := one + |c.schema.oneOf|;
    && AllTrue(Verdicts(c.validators, 0, any))
    && (c.schema.anyOf != [] ==> AnyTrue(Verdicts(c.validators, any, |c.schema.anyOf|)))
    && (c.schema.oneOf != [] ==> OneTrue(Verdicts(c.validators, one, |c.schema.oneOf|)))
    && (c.schema.negated.Some? ==> !Passed(c.validators, negated))
  }

  // ---------------------------------------------------------------- one event

  /** Pop the finished value, or stop. */
  function EndValue(v: Validator): Validator
    requires v.stack != []
  {
    if ValueComplete(v.stack[|v.stack| - 1]) then v.(stack := v.stack[..|v.stack| - 1])
    else v.(valid := false)
  }

  /** The context of a value whose first event was accepted; its validators have seen that event. */
  function Begun(s: Schema, e: Event): (c: Context)
    requires Begins(e)
    ensures c.schema == s && |c.validators| == |Parallel(s)|
    decreases s, 0
  {
    var subs := Parallel(s);
    Context(s, None, seq(|subs|, i requires 0 <= i < |subs| => First(subs[i], e)), e.StartArray?, 0,
            if e.StartObject? && HasRequired(s) then seq(|s.properties|, _ => false) else [])
  }

  /** Push a context for a value with schema `s`, check, forward, and finish a scalar at once. */
  function Open(root: Schema, before: seq<Context>, forwarded: seq<Context>, s: Schema, e: Event): Validator
    requires Begins(e)
    decreases s, 1
  {
    if !Accepts(s, e) then Validator(root, before + [Context(s, None, [], false, 0, [])], false)
    else
      var begun := Validator(root, forwarded + [Begun(s, e)], true);
      if IsScalar(e) then EndValue(begun) else begun
  }

  /** A validator that sees its first event. */
  function First(s: Schema, e: Event): Validator
    requires Begins(e)
    decreases s, 2
  {
    Open(s, [], [], s, e)
  }

  /** The event reaches the sub-validators of every open context. */
  function Forward(cs: seq<Context>, e: Event): (r: seq<Context>)
    ensures |r| == |cs|
    decreases cs, 1
  {
    seq(|cs|, i requires 0 <= i < |cs| => cs[i].(validators := ForwardAll(cs[i].validators, e)))
  }

  function ForwardAll(vs: seq<Validator>, e: Event): (r: seq<Validator>)
    ensures |r| == |vs|
    decreases vs, 1
  {
    seq(|vs|, i requires 0 <= i < |vs| => Feed(vs[i], e))
  }

  /** One event method of GenericSchemaValidator. */
  function Feed(v: Validator, e: Event): Validator
    decreases v, 1
  {
    if !v.valid then v
    else if v.stack == [] then if Begins(e) then First(v.root, e) else v
    else
      var last := |v.stack| - 1;
      var forwarded := Forward(v.stack, e);
      match e
      case Key(name) =>
        var top := KeyChild(v.stack[last], name);
        if top.None? then v.(valid := false)
        else v.(stack := forwarded[last := top.value.(validators := forwarded[last].validators)])
      case EndObject(memberCount) =>
        if ObjectComplete(v.stack[last], memberCount) then EndValue(v.(stack := forwarded))
        else Validator(v.root, forwarded, false)
      case EndArray(elementCount) =>
        var closed := forwarded[last := forwarded[last].(inArray := false)];
        if ArrayComplete(v.stack[last], elementCount) then EndValue(v.(stack := closed))
        else Validator(v.root, closed, false)
      case _ =>
        var top := BeginChild(v.stack[last]);
        if top.None? then v.(valid := false)
        else if top.value.valueSchema.None? then v
        else
          Open(v.root, v.stack[last := top.value],
               forwarded[last := top.value.(validators := forwarded[last].validators)],
               top.value.valueSchema.value, e)
  }

  function FeedAll(v: Validator, es: seq<Event>): Validator
    decreases |es|
  {
    if es == [] then v else FeedAll(Feed(v, es[0]), es[1..])
  }
}
