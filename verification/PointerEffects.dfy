/** What resolving, creating and erasing by pointer do to a tree, said of the members and elements themselves. */
module PointerEffects {
  import opened Options
  import opened Characters
  import opened Json
  import opened Pointer
  import opened PointerTree

  /** The first member that has the name. */
  predicate FirstNamed(ms: seq<Member>, name: string, i: nat) {
    i < |ms| && ms[i].name == name && forall k | 0 <= k < i :: ms[k].name != name
  }

  predicate Unnamed(ms: seq<Member>, name: string) {
    forall k | 0 <= k < |ms| :: ms[k].name != name
  }

  // ---------------------------------------------------------------- resolving, section 4 of RFC 6901

  /** The pointer leads from `v` to `w`: by the first member of the name, by the element of the index. */
  predicate Resolves(v: Value, tokens: seq<Token>, w: Value)
    decreases |tokens|
  {
    if tokens == [] then w == v
    else
      match v
      case Object(ms) =>
        exists i | 0 <= i < |ms| :: FirstNamed(ms, CString(tokens[0].name), i) && Resolves(ms[i].value, tokens[1..], w)
      case Array(es) =>
        exists i | 0 <= i < |es| :: tokens[0].index == Some(i) && Resolves(es[i], tokens[1..], w)
      case _ => false
  }

  lemma {:induction false} GetResolves(v: Value, tokens: seq<Token>, w: Value)
    ensures Get(v, tokens) == Some(w) <==> Resolves(v, tokens, w)
    decreases |tokens|
  {
    hide CString, FindMember, FirstNamed;
    if tokens != [] {
      match v
      case Object(ms) =>
        FindsFirst(ms, CString(tokens[0].name));
        forall i | 0 <= i < |ms| {
          GetResolves(ms[i].value, tokens[1..], w);
        }
      case Array(es) =>
        forall i | 0 <= i < |es| {
          GetResolves(es[i], tokens[1..], w);
        }
      case _ =>
    }
  }

  lemma FindsFirst(ms: seq<Member>, name: string)
    ensures FindMember(ms, name, 0).None? <==> Unnamed(ms, name)
    ensures forall i: nat :: FirstNamed(ms, name, i) <==> FindMember(ms, name, 0) == Some(i)
  {
  }

  // ---------------------------------------------------------------- creation

  /**
   * `w` is `v` with the value at the pointer made, and replaced by the leaf if there is one. "-" names the element
   * behind the last; a value that cannot have the child becomes an empty container.
   */
  predicate Made(v: Value, tokens: seq<Token>, leaf: Option<Value>, w: Value)
    decreases |tokens|, 1
  {
    if tokens == [] then w == if leaf.Some? then leaf.value else v
    else
      var t := tokens[0];
      match v
      case Array(es) =>
        if t.name == "-" then MadeElement(es, |es|, tokens, leaf, w)
        else if t.index.Some? then MadeElement(es, t.index.value, tokens, leaf, w)
        else MadeMember([], tokens, leaf, w)
      case Object(ms) => MadeMember(ms, tokens, leaf, w)
      case _ =>
        if t.index.Some? then MadeElement([], t.index.value, tokens, leaf, w)
        else MadeMember([], tokens, leaf, w)
  }

  /** The old elements stay where they are; only nulls fill the places up to the index. */
  predicate MadeElement(es: seq<Value>, i: nat, tokens: seq<Token>, leaf: Option<Value>, w: Value)
    requires tokens != []
    decreases |tokens|, 0
  {
    && w.Array?
    && |w.elements| == (if i < |es| then |es| else i + 1)
    && (forall k | 0 <= k < |w.elements| && k != i :: w.elements[k] == if k < |es| then es[k] else Null)
    && Made(if i < |es| then es[i] else Null, tokens[1..], leaf, w.elements[i])
  }

  /** The old members stay where they are, with their names; a missing member comes last, with the name of the token. */
  predicate MadeMember(ms: seq<Member>, tokens: seq<Token>, leaf: Option<Value>, w: Value)
    requires tokens != []
    decreases |tokens|, 0
  {
    && w.Object?
    && if Unnamed(ms, CString(tokens[0].name)) then
         && |w.members| == |ms| + 1
         && w.members[..|ms|] == ms
         && w.members[|ms|].name == tokens[0].name
         && Made(Null, tokens[1..], leaf, w.members[|ms|].value)
       else
         && |w.members| == |ms|
         && (forall k | 0 <= k < |ms| :: w.members[k].name == ms[k].name)
         && (forall k | 0 <= k < |ms| :: if FirstNamed(ms, CString(tokens[0].name), k)
                                         then Made(ms[k].value, tokens[1..], leaf, w.members[k].value)
                                         else w.members[k].value == ms[k].value)
  }

  /** Main lemma: this is what `Create` and `Set` make, and nothing else. */
  lemma {:induction false} CreateMakes(v: Value, tokens: seq<Token>, leaf: Option<Value>, w: Value)
    ensures Create(v, tokens, leaf).tree == w <==> Made(v, tokens, leaf, w)
    decreases |tokens|, 1
  {
    hide CString, MadeElement, MadeMember, Ensure, WithChild, Child, Filled, FindMember, Unnamed;
    if tokens != [] {
      var t := tokens[0];
      EnsureByKind(v, t);
      match v
      case Array(es) =>
        if t.name == "-" {
          ElementMade(v, es, |es|, tokens, leaf, w);
        } else if t.index.Some? {
          ElementMade(v, es, t.index.value, tokens, leaf, w);
        } else {
          MemberMade(v, [], tokens, leaf, w);
        }
      case Object(ms) => MemberMade(v, ms, tokens, leaf, w);
      case _ =>
        if t.index.Some? {
          ElementMade(v, [], t.index.value, tokens, leaf, w);
        } else {
          MemberMade(v, [], tokens, leaf, w);
        }
    }
  }

  /** An array with an element `i`. */
  function Filled(es: seq<Value>, i: nat): (r: seq<Value>)
    ensures |r| == (if i < |es| then |es| else i + 1)
    ensures forall k | 0 <= k < |r| :: r[k] == if k < |es| then es[k] else Null
  {
    if i < |es| then es else es + seq(i + 1 - |es|, _ => Null)
  }

  lemma EnsureByKind(v: Value, t: Token)
    ensures
      var e := Ensure(v, t);
      var empty := if t.index.Some? then Array([]) else Object([]);
      var w := if v.Object? || (v.Array? && (t.index.Some? || t.name == "-")) then v else empty;
        match w
        case Array(es) =>
          var i := if v.Array? && t.name == "-" then |es| else if t.index.Some? then t.index.value else |es|;
            e.container == Array(Filled(es, i)) && e.child == i
        case Object(ms) =>
          var i := FindMember(ms, CString(t.name), 0);
            if i.Some? then e.container == w && e.child == i.value
            else e.container == Object(ms + [Member(t.name, Null)]) && e.child == |ms|
        case _ => false
  {
    hide CString, FindMember;
    var e := Ensure(v, t);
    if v.Array? && (t.index.Some? || t.name == "-") {
      assert e.container.elements == Filled(v.elements, e.child);
    } else if !v.Object? && t.index.Some? {
      assert e.container.elements == Filled([], t.index.value);
    }
  }

  lemma {:induction false} ElementMade(v: Value, es: seq<Value>, i: nat, tokens: seq<Token>, leaf: Option<Value>, w: Value)
    requires tokens != [] && Ensure(v, tokens[0]).container == Array(Filled(es, i)) && Ensure(v, tokens[0]).child == i
    ensures Create(v, tokens, leaf).tree == w <==> MadeElement(es, i, tokens, leaf, w)
    decreases |tokens|, 0
  {
    hide Ensure, Made, Filled;
    var r := Create(Filled(es, i)[i], tokens[1..], leaf).tree;
    assert Create(v, tokens, leaf).tree == Array(Filled(es, i)[i := r]);
    if w.Array? && |w.elements| == |Filled(es, i)| {
      CreateMakes(Filled(es, i)[i], tokens[1..], leaf, w.elements[i]);
      assert w.elements == Filled(es, i)[i := r] <==>
        w.elements[i] == r && forall k | 0 <= k < |w.elements| && k != i :: w.elements[k] == Filled(es, i)[k];
    }
  }

  lemma {:induction false} MemberMade(v: Value, ms: seq<Member>, tokens: seq<Token>, leaf: Option<Value>, w: Value)
    requires tokens != []
    requires
      var e := Ensure(v, tokens[0]);
      var i := FindMember(ms, CString(tokens[0].name), 0);
        if i.Some? then e.container == Object(ms) && e.child == i.value
        else e.container == Object(ms + [Member(tokens[0].name, Null)]) && e.child == |ms|
    ensures Create(v, tokens, leaf).tree == w <==> MadeMember(ms, tokens, leaf, w)
    decreases |tokens|, 0
  {
    hide Ensure, Made, CString, FindMember, FirstNamed;
    var name := CString(tokens[0].name);
    FindsFirst(ms, name);
    var e := Ensure(v, tokens[0]);
    var all := e.container.members;
    var r := Create(all[e.child].value, tokens[1..], leaf).tree;
    assert Create(v, tokens, leaf).tree == Object(all[e.child := Member(all[e.child].name, r)]);
    if w.Object? && |w.members| == |all| {
      CreateMakes(all[e.child].value, tokens[1..], leaf, w.members[e.child].value);
      SameMembers(w.members, all, e.child, r);
      if Unnamed(ms, name) {
        assert w.members[..|ms|] == ms <==> forall k | 0 <= k < |ms| :: w.members[k] == ms[k];
      }
    }
  }

  lemma SameMembers(ws: seq<Member>, ms: seq<Member>, i: nat, x: Value)
    requires |ws| == |ms| && i < |ms|
    ensures ws == ms[i := Member(ms[i].name, x)] <==>
            && (forall k | 0 <= k < |ms| :: ws[k].name == ms[k].name)
            && ws[i].value == x
            && (forall k | 0 <= k < |ms| && k != i :: ws[k].value == ms[k].value)
  {
    var us := ms[i := Member(ms[i].name, x)];
    if (forall k | 0 <= k < |ms| :: ws[k].name == ms[k].name) && ws[i].value == x
       && (forall k | 0 <= k < |ms| && k != i :: ws[k].value == ms[k].value) {
      forall k | 0 <= k < |ms| ensures ws[k] == us[k] {
        assert ws[k].name == us[k].name && ws[k].value == us[k].value;
      }
    }
  }

  // ---------------------------------------------------------------- erasure

  /** `w` is `v` without the member or element at the pointer: those behind it move up, all else stays. */
  predicate Cut(v: Value, tokens: seq<Token>, w: Value)
    decreases |tokens|, 1
  {
    && tokens != []
    && match v
       case Object(ms) =>
         exists i | 0 <= i < |ms| :: FirstNamed(ms, CString(tokens[0].name), i) && MemberCut(ms, i, tokens, w)
       case Array(es) =>
         exists i | 0 <= i < |es| :: tokens[0].index == Some(i) && ElementCut(es, i, tokens, w)
       case _ => false
  }

  predicate MemberCut(ms: seq<Member>, i: nat, tokens: seq<Token>, w: Value)
    requires tokens != [] && i < |ms|
    decreases |tokens|, 0
  {
    if |tokens| == 1 then w == Object(ms[..i] + ms[i + 1..])
    else
      && w.Object? && |w.members| == |ms|
      && w.members[..i] == ms[..i] && w.members[i + 1..] == ms[i + 1..]
      && w.members[i].name == ms[i].name && Cut(ms[i].value, tokens[1..], w.members[i].value)
  }

  predicate ElementCut(es: seq<Value>, i: nat, tokens: seq<Token>, w: Value)
    requires tokens != [] && i < |es|
    decreases |tokens|, 0
  {
    if |tokens| == 1 then w == Array(es[..i] + es[i + 1..])
    else
      && w.Array? && |w.elements| == |es|
      && w.elements[..i] == es[..i] && w.elements[i + 1..] == es[i + 1..]
      && Cut(es[i], tokens[1..], w.elements[i])
  }

  lemma {:induction false} MemberCuts(ms: seq<Member>, i: nat, tokens: seq<Token>, w: Value)
    requires tokens != [] && FirstNamed(ms, CString(tokens[0].name), i)
    ensures Erase(Object(ms), tokens) == Erased(w, true) <==> MemberCut(ms, i, tokens, w)
    decreases |tokens|, 0
  {
    hide CString, FindMember, FirstNamed, Cut;
    FindsFirst(ms, CString(tokens[0].name));
    assert Locate(Object(ms), tokens[0]) == Some(i);
    if |tokens| > 1 && w.Object? && |w.members| == |ms| {
      EraseCuts(ms[i].value, tokens[1..], w.members[i].value);
      var x := Erase(ms[i].value, tokens[1..]).tree;
      assert w.members == ms[i := Member(ms[i].name, x)] <==>
        && w.members[..i] == ms[..i] && w.members[i + 1..] == ms[i + 1..] && w.members[i] == Member(ms[i].name, x) by {
        SplitAt(w.members, ms[i := Member(ms[i].name, x)], i);
      }
    }
  }

  lemma {:induction false} ElementCuts(es: seq<Value>, i: nat, tokens: seq<Token>, w: Value)
    requires tokens != [] && i < |es| && tokens[0].index == Some(i)
    ensures Erase(Array(es), tokens) == Erased(w, true) <==> ElementCut(es, i, tokens, w)
    decreases |tokens|, 0
  {
    hide Cut;
    if |tokens| > 1 && w.Array? && |w.elements| == |es| {
      EraseCuts(es[i], tokens[1..], w.elements[i]);
      var x := Erase(es[i], tokens[1..]).tree;
      assert w.elements == es[i := x] <==>
        && w.elements[..i] == es[..i] && w.elements[i + 1..] == es[i + 1..] && w.elements[i] == x by {
        SplitAt(w.elements, es[i := x], i);
      }
    }
  }

  lemma SplitAt<T>(a: seq<T>, b: seq<T>, i: nat)
    requires |a| == |b| && i < |a|
    ensures a == b <==> a[..i] == b[..i] && a[i] == b[i] && a[i + 1..] == b[i + 1..]
  {
    if a[..i] == b[..i] && a[i] == b[i] && a[i + 1..] == b[i + 1..] {
      assert a == a[..i] + [a[i]] + a[i + 1..] && b == b[..i] + [b[i]] + b[i + 1..];
    }
  }

  /** Main lemma: `Erase` finds exactly the values that resolve, the root apart, and cuts them out. */
  lemma {:induction false} EraseCuts(v: Value, tokens: seq<Token>, w: Value)
    ensures Erase(v, tokens) == Erased(w, true) <==> Cut(v, tokens, w)
    decreases |tokens|, 1
  {
    hide CString, FindMember, FirstNamed, WithoutChild, WithChild;
    if tokens != [] {
      match v
      case Object(ms) =>
        FindsFirst(ms, CString(tokens[0].name));
        forall i | 0 <= i < |ms| && FirstNamed(ms, CString(tokens[0].name), i)
          ensures Erase(v, tokens) == Erased(w, true) <==> MemberCut(ms, i, tokens, w)
        {
          MemberCuts(ms, i, tokens, w);
        }
      case Array(es) =>
        forall i | 0 <= i < |es| && tokens[0].index == Some(i)
          ensures Erase(v, tokens) == Erased(w, true) <==> ElementCut(es, i, tokens, w)
        {
          ElementCuts(es, i, tokens, w);
        }
      case _ =>
    }
  }

  // ---------------------------------------------------------------- what erasing leaves in place

  /** `p` turns off the path of `tokens` into another child; `q` is `p`, with an index behind the erased element lowered. */
  predicate Beside(v: Value, tokens: seq<Token>, p: seq<Token>, q: seq<Token>)
    decreases |tokens|
  {
    && tokens != [] && p != [] && q != []
    && match v
       case Object(ms) =>
         if CString(p[0].name) != CString(tokens[0].name) then q == p
         else
           && |tokens| > 1 && q[0] == p[0]
           && exists i | 0 <= i < |ms| :: FirstNamed(ms, CString(tokens[0].name), i)
                                          && Beside(ms[i].value, tokens[1..], p[1..], q[1..])
       case Array(es) =>
         if p[0].index != tokens[0].index then
           if |tokens| == 1 && Behind(p[0], tokens[0]) then q[0].index == Some(p[0].index.value - 1) && q[1..] == p[1..]
           else q == p
         else
           && |tokens| > 1 && q[0] == p[0]
           && exists i | 0 <= i < |es| :: tokens[0].index == Some(i) && Beside(es[i], tokens[1..], p[1..], q[1..])
       case _ => false
  }

  predicate Behind(p: Token, t: Token) {
    p.index.Some? && t.index.Some? && p.index.value > t.index.value
  }

  /** Main lemma: every other value is found after an erasure where it was, or one index lower. */
  lemma EraseKeeps(v: Value, tokens: seq<Token>, p: seq<Token>, q: seq<Token>)
    requires Erase(v, tokens).found && Beside(v, tokens, p, q)
    ensures Get(Erase(v, tokens).tree, q) == Get(v, p)
  {
    hide Get, Erase, Resolves, Cut, Beside;
    var w := Erase(v, tokens).tree;
    EraseCuts(v, tokens, w);
    forall x ensures Get(w, q) == Some(x) <==> Get(v, p) == Some(x) {
      CutKeeps(v, tokens, p, q, w, x);
      GetResolves(v, p, x);
      GetResolves(w, q, x);
    }
    if Get(v, p).Some? {
      assert Get(v, p) == Some(Get(v, p).value);
    }
  }

  lemma {:induction false} CutKeeps(v: Value, tokens: seq<Token>, p: seq<Token>, q: seq<Token>, w: Value, x: Value)
    requires Cut(v, tokens, w) && Beside(v, tokens, p, q)
    ensures Resolves(v, p, x) <==> Resolves(w, q, x)
    decreases |tokens|, 1
  {
    hide CString, FirstNamed, MemberCut;
    match v
    case Object(ms) =>
      var i :| 0 <= i < |ms| && FirstNamed(ms, CString(tokens[0].name), i) && MemberCut(ms, i, tokens, w);
      if CString(p[0].name) == CString(tokens[0].name) {
        MemberKeeps(ms, i, tokens, p, q, w, x);
      } else {
        OtherMemberKept(ms, i, tokens, w, p, x);
      }
    case Array(es) =>
      var i :| 0 <= i < |es| && tokens[0].index == Some(i) && ElementCut(es, i, tokens, w);
      if p[0].index == tokens[0].index {
        CutKeeps(es[i], tokens[1..], p[1..], q[1..], w.elements[i], x);
      } else {
        OtherElementKept(es, i, tokens, w, p, q, x);
      }
    case _ =>
  }

  lemma {:induction false} MemberKeeps(ms: seq<Member>, i: nat, tokens: seq<Token>, p: seq<Token>, q: seq<Token>, w: Value,
                                       x: Value)
    requires tokens != [] && FirstNamed(ms, CString(tokens[0].name), i) && MemberCut(ms, i, tokens, w)
    requires Beside(Object(ms), tokens, p, q) && CString(p[0].name) == CString(tokens[0].name)
    ensures Resolves(Object(ms), p, x) <==> Resolves(w, q, x)
    decreases |tokens|, 0
  {
    hide CString, FirstNamed, Cut, Resolves;
    var name := CString(tokens[0].name);
    var j :| 0 <= j < |ms| && FirstNamed(ms, name, j) && Beside(ms[j].value, tokens[1..], p[1..], q[1..]);
    OneFirst(ms, name, i, j);
    MembersBeside(ms, i, w.members);
    CutKeeps(ms[i].value, tokens[1..], p[1..], q[1..], w.members[i].value, x);
    ResolvesMember(ms, p, i, x);
    FirstKept(ms, w.members, name, i);
    ResolvesMember(w.members, q, i, x);
  }

  lemma OneFirst(ms: seq<Member>, name: string, i: nat, j: nat)
    requires FirstNamed(ms, name, i) && FirstNamed(ms, name, j)
    ensures i == j
  {
  }

  lemma ResolvesMember(ms: seq<Member>, p: seq<Token>, i: nat, x: Value)
    requires p != [] && FirstNamed(ms, CString(p[0].name), i)
    ensures Resolves(Object(ms), p, x) <==> Resolves(ms[i].value, p[1..], x)
  {
    hide CString, FirstNamed;
    forall j | 0 <= j < |ms| && FirstNamed(ms, CString(p[0].name), j) ensures j == i {
      OneFirst(ms, CString(p[0].name), i, j);
    }
    assert i < |ms| by {
      FirstInside(ms, CString(p[0].name), i);
    }
  }

  lemma FirstInside(ms: seq<Member>, name: string, i: nat)
    requires FirstNamed(ms, name, i)
    ensures i < |ms|
  {
  }

  /** Where the first member of a name stands is a matter of the names. */
  lemma FirstKept(ms: seq<Member>, ws: seq<Member>, name: string, k: nat)
    requires |ws| == |ms| && forall j | 0 <= j < |ms| :: ws[j].name == ms[j].name
    ensures FirstNamed(ws, name, k) <==> FirstNamed(ms, name, k)
  {
  }

  function Without(ms: seq<Member>, i: nat): (r: seq<Member>)
    requires i < |ms|
    ensures |r| == |ms| - 1 && forall j | 0 <= j < |r| :: r[j] == ms[if j < i then j else j + 1]
  {
    ms[..i] + ms[i + 1..]
  }

  /** Where the first member of another name stands once member `i` is gone. */
  lemma FirstShifted(ms: seq<Member>, i: nat, name: string, k: nat)
    requires i < |ms| && ms[i].name != name && FirstNamed(ms, name, k)
    ensures FirstNamed(Without(ms, i), name, if k < i then k else k - 1)
  {
    hide Without;
    var ws, at := Without(ms, i), if k < i then k else k - 1;
    assert k != i;
    assert ws[at] == ms[k];
    forall j | 0 <= j < at ensures ws[j].name != name {
      assert ms[if j < i then j else j + 1].name != name;
    }
  }

  lemma NoneShifted(ms: seq<Member>, i: nat, name: string)
    requires i < |ms| && Unnamed(ms, name)
    ensures Unnamed(Without(ms, i), name)
  {
    hide Without;
    var ws := Without(ms, i);
    forall j | 0 <= j < |ws| ensures ws[j].name != name {
      assert ms[if j < i then j else j + 1].name != name;
    }
  }

  lemma NothingResolves(ms: seq<Member>, p: seq<Token>, x: Value)
    requires p != [] && Unnamed(ms, CString(p[0].name))
    ensures !Resolves(Object(ms), p, x)
  {
    hide CString;
  }

  lemma OtherMemberKept(ms: seq<Member>, i: nat, tokens: seq<Token>, w: Value, p: seq<Token>, x: Value)
    requires tokens != [] && p != [] && FirstNamed(ms, CString(tokens[0].name), i)
    requires MemberCut(ms, i, tokens, w) && CString(p[0].name) != CString(tokens[0].name)
    ensures Resolves(Object(ms), p, x) <==> Resolves(w, p, x)
  {
    hide CString, Resolves, Cut;
    var name := CString(p[0].name);
    FindsFirst(ms, name);
    if |tokens| == 1 {
      var ws := Without(ms, i);
      if Unnamed(ms, name) {
        NoneShifted(ms, i, name);
        NothingResolves(ms, p, x);
        NothingResolves(ws, p, x);
      } else {
        var k := FindMember(ms, name, 0).value;
        FirstShifted(ms, i, name, k);
        ResolvesMember(ms, p, k, x);
        ResolvesMember(ws, p, if k < i then k else k - 1, x);
      }
    } else {
      var ws := w.members;
      MembersBeside(ms, i, ws);
      if Unnamed(ms, name) {
        NothingResolves(ms, p, x);
        NothingResolves(ws, p, x);
      } else {
        var k := FindMember(ms, name, 0).value;
        FirstKept(ms, ws, name, k);
        ResolvesMember(ms, p, k, x);
        ResolvesMember(ws, p, k, x);
      }
    }
  }

  lemma MembersBeside(ms: seq<Member>, i: nat, ws: seq<Member>)
    requires i < |ms| == |ws| && ws[..i] == ms[..i] && ws[i + 1..] == ms[i + 1..] && ws[i].name == ms[i].name
    ensures forall j | 0 <= j < |ms| :: ws[j].name == ms[j].name && (j != i ==> ws[j] == ms[j])
  {
    forall j | 0 <= j < |ms| && j != i ensures ws[j] == ms[j] {
      if j < i {
        assert ws[..i][j] == ms[..i][j];
      } else {
        assert ws[i + 1..][j - i - 1] == ms[i + 1..][j - i - 1];
      }
    }
  }

  lemma OtherElementKept(es: seq<Value>, i: nat, tokens: seq<Token>, w: Value, p: seq<Token>, q: seq<Token>, x: Value)
    requires tokens != [] && p != [] && q != [] && i < |es| && tokens[0].index == Some(i)
    requires ElementCut(es, i, tokens, w) && p[0].index != Some(i)
    requires if |tokens| == 1 && Behind(p[0], tokens[0]) then q[0].index == Some(p[0].index.value - 1) && q[1..] == p[1..]
             else q == p
    ensures Resolves(Array(es), p, x) <==> Resolves(w, q, x)
  {
    hide Cut;
    if p[0].index.Some? {
      var j := p[0].index.value;
      var k := if |tokens| == 1 && j > i then j - 1 else j;
      assert j < |es| <==> k < |w.elements|;
      if j < |es| {
        ElementBeside(es, i, tokens, w, j, k);
      }
    }
  }

  lemma ElementBeside(es: seq<Value>, i: nat, tokens: seq<Token>, w: Value, j: nat, k: nat)
    requires tokens != [] && i < |es| && ElementCut(es, i, tokens, w) && j < |es| && j != i
    requires k == if |tokens| == 1 && j > i then j - 1 else j
    ensures w.Array? && k < |w.elements| && w.elements[k] == es[j]
  {
    hide Cut;
    if |tokens| > 1 {
      if j < i {
        assert w.elements[..i][j] == es[..i][j];
      } else {
        assert w.elements[i + 1..][j - i - 1] == es[i + 1..][j - i - 1];
      }
    }
  }
}
