/** Required properties with a default string: where the verdict departs from the schema without its defaults. */
module SchemaStrict {
  import opened Options
  import opened Json
  import opened Schemas
  import opened SchemaMachine
  import opened SchemaVerdict

  // ---------------------------------------------------------------- one object

  /** Every required property has a member. */
  predicate StrictPresent(s: Schema, ms: seq<Member>) {
    forall p <- s.properties | p.required :: HasMember(ms, p.name)
  }

  /** A required property is absent, and a default string stands in for it. */
  predicate DefaultStandsIn(s: Schema, ms: seq<Member>) {
    exists p <- s.properties :: p.required && p.schema.defaultLength != 0 && !HasMember(ms, p.name)
  }

  /** Main result for one object: what the code checks is presence, exactly when no default stands in. */
  lemma RequiredExact(s: Schema, ms: seq<Member>)
    ensures StrictPresent(s, ms) <==> RequiredPresent(s, ms) && !DefaultStandsIn(s, ms)
  {
    hide HasMember;
  }

  // ---------------------------------------------------------------- whole schemas

  /** The schema with every `default` keyword taken out, at every depth. */
  function WithoutDefaults(s: Schema): (r: Schema)
    ensures r.defaultLength == 0
    decreases s
  {
    s.(allOf := AllWithout(s.allOf),
       anyOf := AllWithout(s.anyOf),
       oneOf := AllWithout(s.oneOf),
       negated := if s.negated.Some? then Some(WithoutDefaults(s.negated.value)) else None,
       properties := seq(|s.properties|, i requires 0 <= i < |s.properties| =>
         Property(s.properties[i].name, WithoutDefaults(s.properties[i].schema), s.properties[i].required)),
       additionalPropertiesSchema := if s.additionalPropertiesSchema.Some? then Some(WithoutDefaults(s.additionalPropertiesSchema.value)) else None,
       items := match s.items
         case AnyItems => AnyItems
         case ListItems(item) => ListItems(WithoutDefaults(item))
         case TupleItems(tuple) => TupleItems(AllWithout(tuple)),
       additionalItemsSchema := if s.additionalItemsSchema.Some? then Some(WithoutDefaults(s.additionalItemsSchema.value)) else None,
       defaultLength := 0)
  }

  function AllWithout(ss: seq<Schema>): (r: seq<Schema>)
    ensures |r| == |ss|
    decreases ss
  {
    seq(|ss|, i requires 0 <= i < |ss| => WithoutDefaults(ss[i]))
  }

  /** A value satisfies a schema when defaults play no part. */
  predicate MeetsStrictly(s: Schema, v: Value) {
    Meets(WithoutDefaults(s), v)
  }

  lemma StrictRequired(s: Schema, ms: seq<Member>)
    ensures RequiredPresent(WithoutDefaults(s), ms) <==> StrictPresent(s, ms)
  {
    hide HasMember, AllWithout;
    var ps, qs := s.properties, WithoutDefaults(s).properties;
    assert |qs| == |ps|;
    forall i | 0 <= i < |ps|
      ensures qs[i].name == ps[i].name && qs[i].required == ps[i].required && qs[i].schema.defaultLength == 0
      ensures ps[i] in ps && qs[i] in qs
    {
    }
  }

  /** A required property whose schema has a default string of one character. */
  const REQUIRED_WITH_DEFAULT: Schema := TYPELESS.(properties := [Property("a", TYPELESS.(defaultLength := 1), true)])

  /** The empty object is accepted although its required property is absent. */
  lemma DefaultAccepted()
    ensures FeedAll(Started(REQUIRED_WITH_DEFAULT), Events(Object([]))).valid
    ensures !StrictPresent(REQUIRED_WITH_DEFAULT, []) && !MeetsStrictly(REQUIRED_WITH_DEFAULT, Object([]))
  {
    hide FeedAll, WithoutDefaults;
    var s := REQUIRED_WITH_DEFAULT;
    assert s.properties[0] in s.properties;
    assert !HasMember([], "a");
    StrictRequired(s, []);
    TypesKept(s);
    EmptyObject(s);
    EmptyObject(WithoutDefaults(s));
    StreamingVerdict(s, Object([]));
  }

  /** The empty object and a schema without alternatives: only the type and the required properties count. */
  lemma EmptyObject(s: Schema)
    requires ObjectType in s.types && s.minProperties == 0
    ensures Meets(s, Object([])) ==> RequiredPresent(s, [])
    ensures s.allOf == s.anyOf == s.oneOf == [] && s.negated.None? && RequiredPresent(s, []) ==> Meets(s, Object([]))
  {
    hide RequiredPresent, MeetsMembers;
    var v := Object([]);
    ObjectShape(s, v);
    NoMembers(s);
  }

  lemma NoMembers(s: Schema)
    ensures MeetsMembers(s, [])
  {
  }

  lemma TypesKept(s: Schema)
    ensures WithoutDefaults(s).types == s.types && WithoutDefaults(s).minProperties == s.minProperties
  {
    hide AllWithout;
  }

  /** No required property has a default string, in the schema and in every schema inside it. */
  predicate NoRequiredDefault(s: Schema)
    decreases s, 1
  {
    (forall p <- s.properties :: p.required ==> p.schema.defaultLength == 0) && NoneInside(s)
  }

  /** No required property has a default string in the schemas inside this one. */
  predicate NoneInside(s: Schema)
    decreases s, 0
  {
    && (forall p <- s.properties :: NoRequiredDefault(p.schema))
    && (forall t <- s.allOf :: NoRequiredDefault(t))
    && (forall t <- s.anyOf :: NoRequiredDefault(t))
    && (forall t <- s.oneOf :: NoRequiredDefault(t))
    && (s.negated.Some? ==> NoRequiredDefault(s.negated.value))
    && (s.additionalPropertiesSchema.Some? ==> NoRequiredDefault(s.additionalPropertiesSchema.value))
    && (s.items.ListItems? ==> NoRequiredDefault(s.items.item))
    && (s.items.TupleItems? ==> forall t <- s.items.tuple :: NoRequiredDefault(t))
    && (s.additionalItemsSchema.Some? ==> NoRequiredDefault(s.additionalItemsSchema.value))
  }

  function Without(s: Option<Schema>): Option<Schema> {
    if s.Some? then Some(WithoutDefaults(s.value)) else None
  }

  lemma TypelessWithout()
    ensures WithoutDefaults(TYPELESS) == TYPELESS && NoRequiredDefault(TYPELESS)
  {
  }

  lemma ItemWithout(s: Schema, index: nat)
    ensures ItemSchema(WithoutDefaults(s), index) == Without(ItemSchema(s, index))
    ensures NoneInside(s) && ItemSchema(s, index).Some? ==> NoRequiredDefault(ItemSchema(s, index).value)
  {
    TypelessWithout();
  }

  lemma {:induction false} FindSameNames(ps: seq<Property>, qs: seq<Property>, name: string, from: nat)
    requires |ps| == |qs| && from <= |ps| && forall i | 0 <= i < |ps| :: ps[i].name == qs[i].name
    ensures FindProperty(ps, name, from) == FindProperty(qs, name, from)
    decreases |ps| - from
  {
    if from < |ps| {
      FindSameNames(ps, qs, name, from + 1);
    }
  }

  lemma MemberWithout(s: Schema, name: string)
    ensures MemberSchema(WithoutDefaults(s), name) == Without(MemberSchema(s, name))
    ensures NoneInside(s) && MemberSchema(s, name).Some? ==> NoRequiredDefault(MemberSchema(s, name).value)
  {
    TypelessWithout();
    FindSameNames(s.properties, WithoutDefaults(s).properties, name, 0);
  }

  /** Main result: when no required property has a default, a value satisfies the schema with its defaults or without. */
  lemma {:induction false} StrictMeaning(s: Schema, v: Value)
    requires NoRequiredDefault(s)
    ensures Meets(s, v) <==> MeetsStrictly(s, v)
    decreases v, s, 2
  {
    hide Meets, NoneInside, StandsInAt;
    StrictExact(s, v);
    NothingStandsIn(s, v);
  }

  predicate StandsInAt(s: Schema, v: Value) {
    v.Object? && DefaultStandsIn(s, v.members)
  }

  lemma NothingStandsIn(s: Schema, v: Value)
    requires NoRequiredDefault(s)
    ensures !StandsInAt(s, v)
  {
    hide HasMember, NoneInside;
  }

  /** Main result: when only the schema's own properties may have one, the two differ exactly where a default stands in. */
  lemma {:induction false} StrictExact(s: Schema, v: Value)
    requires NoneInside(s)
    ensures MeetsStrictly(s, v) <==> Meets(s, v) && !StandsInAt(s, v)
    decreases v, s, 1
  {
    hide MeetsShape, MeetsAll, MeetsAny, MeetsOne, NoRequiredDefault, NoneInside, StandsInAt;
    ChildrenHaveNone(s);
    ShapeAgrees(s, v);
    ListAgrees(s.allOf, v);
    ListAgrees(s.anyOf, v);
    ListAgrees(s.oneOf, v);
    if s.negated.Some? {
      StrictMeaning(s.negated.value, v);
    }
  }

  lemma ChildrenHaveNone(s: Schema)
    requires NoneInside(s)
    ensures forall i | 0 <= i < |s.allOf| :: NoRequiredDefault(s.allOf[i])
    ensures forall i | 0 <= i < |s.anyOf| :: NoRequiredDefault(s.anyOf[i])
    ensures forall i | 0 <= i < |s.oneOf| :: NoRequiredDefault(s.oneOf[i])
    ensures s.negated.Some? ==> NoRequiredDefault(s.negated.value)
  {
    hide NoRequiredDefault;
  }

  lemma {:induction false} ListAgrees(ss: seq<Schema>, v: Value)
    requires forall i | 0 <= i < |ss| :: NoRequiredDefault(ss[i])
    ensures MeetsAll(ss, v) <==> MeetsAll(AllWithout(ss), v)
    ensures MeetsAny(ss, v) <==> MeetsAny(AllWithout(ss), v)
    ensures MeetsOne(ss, v) <==> MeetsOne(AllWithout(ss), v)
    decreases v, ss, 0
  {
    hide Meets, NoRequiredDefault, WithoutDefaults, MeetsAll, MeetsAny, MeetsOne, AllTrue, AnyTrue, OneTrue;
    var bs := seq(|ss|, i requires 0 <= i < |ss| => Meets(ss[i], v));
    forall i | 0 <= i < |ss| ensures bs[i] <==> Meets(AllWithout(ss)[i], v) {
      StrictMeaning(ss[i], v);
    }
    SameVerdicts(bs, ss, v);
    SameVerdicts(bs, AllWithout(ss), v);
  }

  lemma {:induction false} ShapeAgrees(s: Schema, v: Value)
    requires NoneInside(s)
    ensures MeetsShape(WithoutDefaults(s), v) <==> MeetsShape(s, v) && !StandsInAt(s, v)
    decreases v, s, 0
  {
    hide MeetsItems, MeetsMembers, RequiredPresent, StrictPresent, DefaultStandsIn, NoneInside, AllWithout;
    match v
    case Array(es) =>
      ItemsAgree(s, es, 0);
    case Object(ms) =>
      MembersAgree(s, ms);
      StrictRequired(s, ms);
      RequiredExact(s, ms);
    case _ =>
  }

  lemma {:induction false} ItemsAgree(s: Schema, es: seq<Value>, index: nat)
    requires NoneInside(s)
    ensures MeetsItems(s, es, index) <==> MeetsItems(WithoutDefaults(s), es, index)
    decreases es
  {
    hide Meets, NoneInside, NoRequiredDefault, WithoutDefaults, ItemSchema;
    if es != [] {
      ItemWithout(s, index);
      if ItemSchema(s, index).Some? {
        StrictMeaning(ItemSchema(s, index).value, es[0]);
        ItemsAgree(s, es[1..], index + 1);
      }
    }
  }

  lemma {:induction false} MembersAgree(s: Schema, ms: seq<Member>)
    requires NoneInside(s)
    ensures MeetsMembers(s, ms) <==> MeetsMembers(WithoutDefaults(s), ms)
    decreases ms
  {
    hide Meets, NoneInside, NoRequiredDefault, WithoutDefaults, MemberSchema;
    if ms != [] {
      MemberWithout(s, ms[0].name);
      if MemberSchema(s, ms[0].name).Some? {
        StrictMeaning(MemberSchema(s, ms[0].name).value, ms[0].value);
        MembersAgree(s, ms[1..]);
      }
    }
  }

  /**
   * The verdict is the strict one except where a default stands in; when the schema has no required default,
   * which can be checked before any value is seen, it is the strict one for every value.
   */
  lemma StrictVerdict(s: Schema, v: Value)
    requires WellFormed(s) && Sized(v) && NoneInside(s)
    ensures MeetsStrictly(s, v) <==> FeedAll(Started(s), Events(v)).valid && !StandsInAt(s, v)
    ensures NoRequiredDefault(s) ==> (FeedAll(Started(s), Events(v)).valid <==> MeetsStrictly(s, v))
  {
    hide WellFormed, Meets, FeedAll, NoRequiredDefault, NoneInside, StandsInAt;
    StreamingVerdict(s, v);
    StrictExact(s, v);
    if NoRequiredDefault(s) {
      StrictMeaning(s, v);
    }
  }
}
