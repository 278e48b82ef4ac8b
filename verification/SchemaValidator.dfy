/** The validator as an object: event methods that update a stack of contexts in place. */
module SchemaValidator {
  import opened Options
  import opened Json
  import opened Schemas
  import opened SchemaCompile
  import opened SchemaMachine
  import opened SchemaMeaning
  import opened SchemaSafety
  import opened SchemaVerdict

  function StartedAll(ss: seq<Schema>): (r: seq<Validator>)
    ensures |r| == |ss|
  {
    seq(|ss|, i requires 0 <= i < |ss| => Started(ss[i]))
  }

  /** A context whose check passed, before the event is forwarded. */
  function Created(s: Schema, e: Event): Context {
    Context(s, None, StartedAll(Parallel(s)), e.StartArray?, 0,
            if e.StartObject? && HasRequired(s) then seq(|s.properties|, _ => false) else [])
  }

  lemma CreatedForwarded(before: seq<Context>, s: Schema, e: Event)
    requires Begins(e)
    ensures Forward(before + [Created(s, e)], e) == Forward(before, e) + [Begun(s, e)]
  {
    hide Parallel, First;
    var vs := Created(s, e).validators;
    forall i | 0 <= i < |vs| ensures Feed(vs[i], e) == Begun(s, e).validators[i] {
    }
    assert ForwardAll(vs, e) == Begun(s, e).validators;
  }

  // ---------------------------------------------------------------- the methods of Schema

  /** One started validator per sub-schema of a list, at the end of the validator array. */
  method CreateSchemaValidators(validators: seq<Validator>, ss: seq<Schema>) returns (r: seq<Validator>)
    ensures r == validators + StartedAll(ss)
  {
    r := validators;
    for i := 0 to |ss|
      invariant r == validators + StartedAll(ss)[..i]
    {
      r := r + [Started(ss[i])];
    }
  }

  method CreateParallelValidator(s: Schema) returns (r: seq<Validator>)
    ensures r == StartedAll(Parallel(s))
  {
    hide StartedAll;
    StartedConcat([], s.allOf);
    r := CreateSchemaValidators([], s.allOf);
    StartedConcat(s.allOf, s.anyOf);
    r := CreateSchemaValidators(r, s.anyOf);
    StartedConcat(s.allOf + s.anyOf, s.oneOf);
    r := CreateSchemaValidators(r, s.oneOf);
    if s.negated.Some? {
      StartedConcat(s.allOf + s.anyOf + s.oneOf, [s.negated.value]);
      r := r + [Started(s.negated.value)];
    } else {
      assert Parallel(s) == s.allOf + s.anyOf + s.oneOf;
    }
  }

  lemma StartedConcat(a: seq<Schema>, b: seq<Schema>)
    ensures StartedAll(a) + StartedAll(b) == StartedAll(a + b)
    ensures StartedAll([]) == []
    ensures |b| == 1 ==> StartedAll(b) == [Started(b[0])]
  {
  }

  method BeginElement(c: Context) returns (r: Option<Context>)
    requires c.inArray
    ensures r == BeginChild(c)
  {
    var valueSchema;
    if c.schema.items.ListItems? {
      valueSchema := c.schema.items.item;
    } else if c.schema.items.TupleItems? && c.schema.items.tuple != [] {
      if c.arrayElementIndex < |c.schema.items.tuple| {
        valueSchema := c.schema.items.tuple[c.arrayElementIndex];
      } else if c.schema.additionalItemsSchema.Some? {
        valueSchema := c.schema.additionalItemsSchema.value;
      } else if c.schema.additionalItems {
        valueSchema := TYPELESS;
      } else {
        return None;
      }
    } else {
      valueSchema := TYPELESS;
    }
    return Some(c.(valueSchema := Some(valueSchema), arrayElementIndex := c.arrayElementIndex + 1));
  }

  method MemberKey(c: Context, name: string) returns (r: Option<Context>)
    ensures r == KeyChild(c, name)
  {
    var index := FindPropertyIndex(c.schema.properties, name);
    if index.Some? {
      var exist := c.propertyExist;
      if index.value < |exist| {
        exist := exist[index.value := true];
      }
      return Some(c.(valueSchema := Some(c.schema.properties[index.value].schema), propertyExist := exist));
    }
    if c.schema.additionalPropertiesSchema.Some? {
      return Some(c.(valueSchema := c.schema.additionalPropertiesSchema));
    } else if c.schema.additionalProperties {
      return Some(c.(valueSchema := Some(TYPELESS)));
    }
    return None;
  }

  method CheckObject(c: Context, memberCount: nat) returns (ok: bool)
    ensures ok == ObjectComplete(c, memberCount)
  {
    var missing := 0;
    for i := 0 to |c.schema.properties|
      invariant missing >= 0
      invariant missing == 0 <==>
                forall k | 0 <= k < i ::
                  c.schema.properties[k].required && c.schema.properties[k].schema.defaultLength == 0 ==>
                    Marked(c.propertyExist, k)
    {
      if c.schema.properties[i].required && !Marked(c.propertyExist, i) {
        if c.schema.properties[i].schema.defaultLength == 0 {
          missing := missing + 1;
        }
      }
    }
    if missing != 0 || memberCount < c.schema.minProperties {
      return false;
    }
    return !(c.schema.maxProperties.Some? && memberCount > c.schema.maxProperties.value);
  }

  /** `EndValue`: all of allOf, one at least of anyOf, exactly one of oneOf, and not the negated schema. */
  method CheckValue(c: Context) returns (ok: bool)
    ensures ok == ValueComplete(c)
  {
    hide Parallel;
    var any := |c.schema.allOf|;
    var one := any + |c.schema.anyOf|;
    var negated := one + |c.schema.oneOf|;
    ghost var alls, anys, ones := Verdicts(c.validators, 0, any), Verdicts(c.validators, any, |c.schema.anyOf|),
                                  Verdicts(c.validators, one, |c.schema.oneOf|);
    for i := 0 to any
      invariant forall k | 0 <= k < i :: alls[k]
    {
      if !Passed(c.validators, i) {
        assert !alls[i];
        return false;
      }
    }
    if c.schema.anyOf != [] {
      var found := false;
      var i := any;
      while i < one && !found
        invariant any <= i <= one
        invariant !found ==> forall k | 0 <= k < i - any :: !anys[k]
        invariant found ==> AnyTrue(anys)
        decreases one - i, !found
      {
        if Passed(c.validators, i) {
          assert anys[i - any];
          found := true;
        } else {
          i := i + 1;
        }
      }
      if !found {
        return false;
      }
    }
    if c.schema.oneOf != [] {
      var oneValid := false;
      ghost var which := 0;
      for i := one to negated
        invariant !oneValid ==> forall k | 0 <= k < i - one :: !ones[k]
        invariant oneValid ==> 0 <= which < i - one && ones[which]
        invariant oneValid ==> forall k | 0 <= k < i - one :: ones[k] ==> k == which
      {
        if Passed(c.validators, i) {
          assert ones[i - one];
          if oneValid {
            return false;
          }
          oneValid, which := true, i - one;
        }
      }
      if !oneValid {
        return false;
      }
    }
    if c.schema.negated.Some? && Passed(c.validators, negated) {
      return false;
    }
    return true;
  }

  // ---------------------------------------------------------------- GenericSchemaValidator

  class GenericSchemaValidator {
    const root: Schema
    var schemaStack: seq<Context>
    var valid: bool

    ghost function State(): Validator
      reads this
    {
      Validator(root, schemaStack, valid)
    }

    constructor (root: Schema)
      ensures this.root == root && State() == Started(root)
    {
      this.root, schemaStack, valid := root, [], true;
    }

    method Reset()
      modifies this
      ensures State() == Started(root)
    {
      while schemaStack != []
        decreases |schemaStack|
      {
        schemaStack := schemaStack[..|schemaStack| - 1];
      }
      valid := true;
    }

    method IsValid() returns (r: bool)
      ensures r == State().valid
    {
      return valid;
    }

    /** Push the context of a new value: the root's, or the one its parent chose for it. */
    method BeginValue() returns (r: Option<Schema>)
      requires schemaStack != [] && !schemaStack[|schemaStack| - 1].inArray ==>
                 schemaStack[|schemaStack| - 1].valueSchema.Some?
      modifies this`schemaStack
      ensures old(schemaStack) == [] ==> r == Some(root) && schemaStack == [Context(root, None, [], false, 0, [])]
      ensures
        old(schemaStack) != [] ==>
          var last := |old(schemaStack)| - 1;
          var top := BeginChild(old(schemaStack)[last]);
            if top.None? then r.None? && schemaStack == old(schemaStack)
            else
              && r.Some? && r == top.value.valueSchema
              && schemaStack == old(schemaStack)[last := top.value] + [Context(r.value, None, [], false, 0, [])]
    {
      if schemaStack == [] {
        schemaStack := [Context(root, None, [], false, 0, [])];
        return Some(root);
      }
      var last := |schemaStack| - 1;
      if schemaStack[last].inArray {
        var top := BeginElement(schemaStack[last]);
        if top.None? {
          return None;
        }
        schemaStack := schemaStack[last := top.value];
      }
      r := schemaStack[last].valueSchema;
      schemaStack := schemaStack + [Context(r.value, None, [], false, 0, [])];
    }

    /** The event reaches every sub-validator of every context on the stack. */
    method ForwardEvent(e: Event)
      modifies this`schemaStack
      ensures schemaStack == Forward(old(schemaStack), e)
    {
      hide Feed;
      var i := 0;
      while i < |schemaStack|
        invariant 0 <= i <= |schemaStack| == |old(schemaStack)|
        invariant schemaStack[..i] == Forward(old(schemaStack), e)[..i]
        invariant schemaStack[i..] == old(schemaStack)[i..]
      {
        var validators := schemaStack[i].validators;
        for k := 0 to |validators|
          invariant |validators| == |schemaStack[i].validators|
          invariant validators[..k] == ForwardAll(schemaStack[i].validators, e)[..k]
          invariant validators[k..] == schemaStack[i].validators[k..]
        {
          validators := validators[k := Feed(validators[k], e)];
        }
        assert validators == ForwardAll(schemaStack[i].validators, e);
        schemaStack := schemaStack[i := schemaStack[i].(validators := validators)];
        i := i + 1;
      }
    }

    /** Read the sub-validators' verdicts and pop the context. */
    method FinishValue() returns (r: bool)
      requires schemaStack != []
      modifies this`schemaStack
      ensures schemaStack == EndValue(Validator(root, old(schemaStack), true)).stack
      ensures r == EndValue(Validator(root, old(schemaStack), true)).valid
    {
      hide ValueComplete;
      r := CheckValue(schemaStack[|schemaStack| - 1]);
      if r {
        schemaStack := schemaStack[..|schemaStack| - 1];
      }
    }

    /** The part all value events share: begin, check, create the sub-validators, forward. */
    method Begin(e: Event) returns (r: bool)
      requires Begins(e) && Asserted(State(), e) && valid
      modifies this
      ensures r == valid
      ensures
        var v := Feed(old(State()), e);
          if !r then State() == v
          else schemaStack != [] && v == if IsScalar(e) then EndValue(State()) else State()
    {
      hide Forward, EndValue, Parallel, Accepts, ItemSchema, HasRequired, Feed, Begun;
      FeedBegins(State(), e);
      var schema := BeginValue();
      if schema.None? {
        valid := false;
        return false;
      }
      var s := schema.value;
      var last := |schemaStack| - 1;
      ghost var below := schemaStack[..last];
      assert schemaStack == below + [Context(s, None, [], false, 0, [])];
      if !Accepts(s, e) {
        valid := false;
        return false;
      }
      var validators := CreateParallelValidator(s);
      var exist := if e.StartObject? && HasRequired(s) then seq(|s.properties|, _ => false) else [];
      schemaStack := schemaStack[last := Context(s, None, validators, e.StartArray?, 0, exist)];
      assert schemaStack == below + [Created(s, e)];
      ForwardEvent(e);
      CreatedForwarded(below, s, e);
      return true;
    }

    /** Null, Bool, Int, Uint, Int64, Uint64, Double and String. */
    method Scalar(e: Event) returns (r: bool)
      requires IsScalar(e) && Asserted(State(), e)
      modifies this
      ensures State() == Feed(old(State()), e) && r == valid
    {
      hide Feed;
      if !valid {
        FeedInvalid(State(), e);
        return false;
      }
      r := Begin(e);
      if r {
        valid := FinishValue();
        r := valid;
      }
    }

    /** StartObject and StartArray. */
    method Start(e: Event) returns (r: bool)
      requires (e.StartObject? || e.StartArray?) && Asserted(State(), e)
      modifies this
      ensures State() == Feed(old(State()), e) && r == valid
    {
      hide Feed;
      if !valid {
        FeedInvalid(State(), e);
        return false;
      }
      r := Begin(e);
    }

    method Key(name: string) returns (r: bool)
      requires Asserted(State(), Event.Key(name))
      modifies this
      ensures State() == Feed(old(State()), Event.Key(name)) && r == valid
    {
      hide ForwardAll, KeyChild;
      if !valid {
        return false;
      }
      ghost var before := schemaStack;
      var last := |schemaStack| - 1;
      var top := MemberKey(schemaStack[last], name);
      if top.None? {
        valid := false;
        return false;
      }
      schemaStack := schemaStack[last := top.value];
      ForwardEvent(Event.Key(name));
      KeyKeeps(before[last], name);
      ForwardUpdate(before, top.value, Event.Key(name));
      return true;
    }

    method EndObject(memberCount: nat) returns (r: bool)
      requires Asserted(State(), Event.EndObject(memberCount))
      modifies this
      ensures State() == Feed(old(State()), Event.EndObject(memberCount)) && r == valid
    {
      hide ForwardAll, ValueComplete, ObjectComplete;
      if !valid {
        return false;
      }
      var e := Event.EndObject(memberCount);
      ghost var before := schemaStack;
      var last := |schemaStack| - 1;
      ForwardEvent(e);
      ForwardKeeps(before, e, memberCount);
      var ok := CheckObject(schemaStack[last], memberCount);
      if !ok {
        valid := false;
        return false;
      }
      valid := FinishValue();
      return valid;
    }

    method EndArray(elementCount: nat) returns (r: bool)
      requires Asserted(State(), Event.EndArray(elementCount))
      modifies this
      ensures State() == Feed(old(State()), Event.EndArray(elementCount)) && r == valid
    {
      hide ForwardAll, ValueComplete;
      if !valid {
        return false;
      }
      var last := |schemaStack| - 1;
      ForwardEvent(Event.EndArray(elementCount));
      schemaStack := schemaStack[last := schemaStack[last].(inArray := false)];
      var s := schemaStack[last].schema;
      if elementCount < s.minItems || (s.maxItems.Some? && elementCount > s.maxItems.value) {
        valid := false;
        return false;
      }
      valid := FinishValue();
      return valid;
    }

    /** One event of a stream, as `GenericValue::Accept` or the reader calls the handler. */
    method Handle(e: Event) returns (r: bool)
      requires Asserted(State(), e)
      modifies this
      ensures State() == Feed(old(State()), e) && r == valid
    {
      hide Feed;
      match e
      case Key(name) => r := Key(name);
      case EndObject(memberCount) => r := EndObject(memberCount);
      case EndArray(elementCount) => r := EndArray(elementCount);
      case StartObject => r := Start(e);
      case StartArray => r := Start(e);
      case NullEvent => r := Scalar(e);
      case BoolEvent(_) => r := Scalar(e);
      case IntegerEvent(_, _) => r := Scalar(e);
      case DoubleEvent(_) => r := Scalar(e);
      case StringEvent(_) => r := Scalar(e);
    }

    /**
     * A whole value, stopping at the first event that is refused: the answer is whether the value
     * satisfies the schema, and no assertion of an event method fails on the way.
     */
    method Validate(v: Value) returns (r: bool)
      requires State() == Started(root)
      requires WellFormed(root) && Sized(v)
      modifies this
      ensures r == valid && (r <==> Satisfies(root, v))
      ensures r <==> Meets(root, v)
    {
      hide WellFormed, Meets, Satisfies, Feed, Asserted, Sized, Events;
      MeetsSaysKeywords(root, v);
      var es := Events(v);
      StreamingVerdict(root, v);
      ValueSafe(State(), v);
      ghost var verdict := FeedAll(State(), es);
      var i := 0;
      r := true;
      while i < |es| && r
        invariant 0 <= i <= |es| && r == valid
        invariant Safe(State(), es[i..]) && FeedAll(State(), es[i..]) == verdict
        decreases |es| - i
      {
        assert es[i..][1..] == es[i + 1..];
        r := Handle(es[i]);
        i := i + 1;
      }
      if r {
        assert es[i..] == [];
      } else {
        InvalidStays(State(), es[i..]);
      }
    }
  }

  /** The first event of a value, by what the stack decides about the value's schema. */
  lemma FeedBegins(v: Validator, e: Event)
    requires v.valid && Begins(e)
    ensures v.stack == [] ==> Feed(v, e) == Open(v.root, [], Forward([], e), v.root, e)
    ensures v.stack != [] && BeginChild(v.stack[|v.stack| - 1]).None? ==> Feed(v, e) == v.(valid := false)
    ensures
      v.stack != [] && BeginChild(v.stack[|v.stack| - 1]).Some? ==>
        var c := BeginChild(v.stack[|v.stack| - 1]).value;
        var below := v.stack[|v.stack| - 1 := c];
          c.valueSchema.Some? ==> Feed(v, e) == Open(v.root, below, Forward(below, e), c.valueSchema.value, e)
  {
    hide Forward, Open;
    if v.stack == [] {
      ForwardNone(e);
    } else if BeginChild(v.stack[|v.stack| - 1]).Some? {
      ForwardUpdate(v.stack, BeginChild(v.stack[|v.stack| - 1]).value, e);
    }
  }

  lemma ForwardNone(e: Event)
    ensures Forward([], e) == []
  {
  }

  lemma FeedInvalid(v: Validator, e: Event)
    requires !v.valid
    ensures Feed(v, e) == v
  {
  }

  /** Replacing the top context, validators apart, commutes with forwarding. */
  lemma ForwardUpdate(cs: seq<Context>, c: Context, e: Event)
    requires cs != [] && c.validators == cs[|cs| - 1].validators
    ensures Forward(cs[|cs| - 1 := c], e)
         == Forward(cs, e)[|cs| - 1 := c.(validators := Forward(cs, e)[|cs| - 1].validators)]
  {
    hide ForwardAll;
  }

  /** Forwarding changes nothing that the end of an object looks at. */
  lemma ForwardKeeps(cs: seq<Context>, e: Event, n: nat)
    requires cs != []
    ensures ObjectComplete(Forward(cs, e)[|cs| - 1], n) == ObjectComplete(cs[|cs| - 1], n)
  {
    hide ForwardAll;
  }
}
